/**
  The bulk operations of a write transaction
  (src/transaction/internal/rw_transaction.rs): `concrete_primary_drain`,
  which empties a model's table and removes its records' index entries,
  and `migrate` and `refresh`, which drain a table and insert the decoded
  records again under the current model.
 */
module DrainMigrate {
  import opened Bytes
  import opened Outcome
  import opened Sorting
  import opened Keys
  import opened KeyDefinitions
  import KeySerializer
  import opened Errors
  import opened Input
  import opened WatchEvents
  import opened ModelDefinition
  import opened ModelRegistry
  import opened Tables
  import opened InternalRw

  /** The first `n` elements of `s`, or all of them. */
  function Take<T>(s: seq<T>, n: nat): (r: seq<T>)
    ensures |r| == if n < |s| then n else |s|
    ensures forall i :: 0 <= i < |r| ==> r[i] == s[i]
  {
    if n < |s| then s[..n] else s
  }

  /**
    Entries of drained records, at most one per record, are no more than
    the drained records.
   */
  lemma {:induction false} EntriesOfDrainedBound(hit: set<(Key, Key)>, drained: set<Key>)
    requires forall p :: p in hit ==> p.1 in drained
    requires forall p, q :: p in hit && q in hit && p.1 == q.1 ==> p == q
    ensures |hit| <= |drained|
    decreases |hit|
  {
    if hit != {} {
      var p :| p in hit;
      EntriesOfDrainedBound(hit - {p}, drained - {p.1});
    }
  }

  /** Whether a multimap entry refers to one of the drained records. */
  function RefersTo(drained: set<Key>): ((Key, Key)) -> bool {
    (p: (Key, Key)) => p.1 in drained
  }

  /**
    The secondary-table half of the drain: walking the multimap in storage
    order, the first `|drained|` entries whose primary key was drained are
    collected (the count of drained records bounds the walk), then deleted.
   */
  function DrainPairs(pairs: set<(Key, Key)>, drained: set<Key>): (r: set<(Key, Key)>)
    ensures r <= pairs
    ensures forall p :: p in pairs && p.1 !in drained ==> p in r
  {
    var victims := Take(Filter(SortedPairs(pairs), RefersTo(drained)), |drained|);
    pairs - (set p | p in victims)
  }

  /** Each drained record has at most one entry in the multimap. */
  ghost predicate OneEntryPerRecord(pairs: set<(Key, Key)>, drained: set<Key>) {
    forall p, q :: p in pairs && q in pairs && p.1 == q.1 && p.1 in drained ==> p == q
  }

  /** With one entry per drained record, those entries are no more than the drained records. */
  lemma DrainBudgetSuffices(pairs: set<(Key, Key)>, drained: set<Key>)
    requires OneEntryPerRecord(pairs, drained)
    ensures |Filter(SortedPairs(pairs), RefersTo(drained))| <= |drained|
  {
    var hit := set p | p in pairs && p.1 in drained;
    FilteredPairsCount(pairs, RefersTo(drained), hit);
    EntriesOfDrainedBound(hit, drained);
  }

  /**
    When each drained record has at most one entry, the bound never cuts
    the walk short: every entry of a drained record is removed.
   */
  lemma DrainPairsRemovesAll(pairs: set<(Key, Key)>, drained: set<Key>)
    requires OneEntryPerRecord(pairs, drained)
    ensures DrainPairs(pairs, drained) == set p | p in pairs && p.1 !in drained
  {
    var listed := Filter(SortedPairs(pairs), RefersTo(drained));
    DrainBudgetSuffices(pairs, drained);
    assert Take(listed, |drained|) == listed;
  }

  /** A counterexample to the drain removing everything: two entries of one record and a budget of one. */
  lemma DrainPairsBoundCanLeaveEntries()
    ensures var a := Key([1]); var b := Key([2]); var pk := Key([0]);
      DrainPairs({(a, pk), (b, pk)}, {pk}) == {(b, pk)}
  {
    var a := Key([1]); var b := Key([2]); var pk := Key([0]);
    var sorted := SortedPairs({(a, pk), (b, pk)});
    TwoEntriesInOrder(a, b, pk);
    var keep := RefersTo({pk});
    assert Filter(sorted, keep) == sorted by {
      assert Filter(sorted, keep) == [sorted[0]] + Filter(sorted[1..], keep);
      assert Filter(sorted[1..], keep) == [sorted[1]] + Filter(sorted[2..], keep);
    }
    assert Take(sorted, 1) == [(a, pk)];
  }

  /** Two entries of one record are stored in the order of their secondary keys. */
  lemma TwoEntriesInOrder(a: Key, b: Key, pk: Key)
    requires Less(a.data, b.data) && a != b
    ensures SortedPairs({(a, pk), (b, pk)}) == [(a, pk), (b, pk)]
  {
    var pairs := {(a, pk), (b, pk)};
    assert PairLe((a, pk), (b, pk)) && (a, pk) != (b, pk);
    assert Lists([(a, pk), (b, pk)], pairs, PairLe);
    PairLeIsTotalOrder();
    ListingsAgree(pairs, SortedPairs(pairs), [(a, pk), (b, pk)], PairLe);
  }

  /** The drained payloads, in the storage order of their keys. */
  function PayloadsInKeyOrder(rows: map<Key, Bytes>): (r: seq<Output>)
    ensures |r| == |rows|
    ensures forall i :: 0 <= i < |r| ==> SortedKeys(rows)[i] in rows && r[i].data == rows[SortedKeys(rows)[i]]
  {
    var payloads := StoredPayloads(rows);
    seq(|payloads|, i requires 0 <= i < |payloads| => Output(payloads[i]))
  }

  /**
    `concrete_primary_drain`: every row of the model's table is taken out,
    in key order, and the table is left empty; then each multimap of the
    model's secondary keys loses the entries of the drained records (up to
    as many entries as records were drained).
   */
  function Drain(s: Store, defs: Definitions, model: DatabaseModel): (r: (Store, Result<seq<Output>, Error>))
    ensures model.primaryKey.uniqueTableName !in defs
        ==> r == (s, Err(TableDefinitionNotFound(model.primaryKey.uniqueTableName)))
    ensures model.primaryKey.uniqueTableName in defs ==> r.1 == Ok(PayloadsInKeyOrder(Rows(s, model.primaryKey.uniqueTableName)))
    ensures model.primaryKey.uniqueTableName in defs ==> Rows(r.0, model.primaryKey.uniqueTableName) == map[]
    ensures forall t :: t != model.primaryKey.uniqueTableName ==> Rows(r.0, t) == Rows(s, t)
    ensures model.primaryKey.uniqueTableName in defs ==> forall t ::
      Pairs(r.0, t) == if t in defs[model.primaryKey.uniqueTableName].model.secondaryKeys
                       then DrainPairs(Pairs(s, t), Rows(s, model.primaryKey.uniqueTableName).Keys)
                       else Pairs(s, t)
  {
    match PrimaryTable(defs, model)
    case Err(e) => (s, Err(e))
    case Ok(table) =>
      var rows := Rows(s, table);
      var emptied := WithRows(s, table, map[]);
      var cleaned := CleanIndexes(emptied, defs[table].model.secondaryKeys.Keys, rows.Keys);
      (cleaned, Ok(PayloadsInKeyOrder(rows)))
  }

  /** The secondary tables `indexes` with the entries of the drained primary keys taken out. */
  function CleanIndexes(s: Store, indexes: set<string>, drained: set<Key>): (r: Store)
    ensures r.primary == s.primary
    ensures forall t :: Pairs(r, t) == if t in indexes then DrainPairs(Pairs(s, t), drained) else Pairs(s, t)
  {
    s.(secondary := map t | t in s.secondary.Keys + indexes ::
      if t in indexes then DrainPairs(Pairs(s, t), drained) else s.secondary[t])
  }

  /**
    The payloads are the table's, each at the position of its key in
    storage order, and those positions ascend with the keys.
   */
  lemma PayloadsFollowKeyOrder(rows: map<Key, Bytes>)
    ensures forall k :: k in rows ==>
      exists i :: 0 <= i < |PayloadsInKeyOrder(rows)| && SortedKeys(rows)[i] == k && PayloadsInKeyOrder(rows)[i] == Output(rows[k])
    ensures forall i :: 0 <= i < |PayloadsInKeyOrder(rows)| ==>
      SortedKeys(rows)[i] in rows && PayloadsInKeyOrder(rows)[i] == Output(rows[SortedKeys(rows)[i]])
    ensures forall i, j :: 0 <= i < j < |PayloadsInKeyOrder(rows)| ==> Less(SortedKeys(rows)[i].data, SortedKeys(rows)[j].data)
  {
    PayloadsCoverRows(rows);
    KeysAscend(rows);
  }

  lemma PayloadsCoverRows(rows: map<Key, Bytes>)
    ensures forall k :: k in rows ==>
      exists i :: 0 <= i < |PayloadsInKeyOrder(rows)| && SortedKeys(rows)[i] == k && PayloadsInKeyOrder(rows)[i] == Output(rows[k])
  {
    var keys := SortedKeys(rows);
    var out := PayloadsInKeyOrder(rows);
    forall k | k in rows ensures exists i :: 0 <= i < |out| && keys[i] == k && out[i] == Output(rows[k]) {
      var i :| 0 <= i < |keys| && keys[i] == k;
      assert out[i] == Output(rows[keys[i]]);
    }
  }

  /** A table's keys in storage order strictly ascend. */
  lemma KeysAscend(rows: map<Key, Bytes>)
    ensures forall i, j :: 0 <= i < j < |SortedKeys(rows)| ==> Less(SortedKeys(rows)[i].data, SortedKeys(rows)[j].data)
  {
    SortedKeysAscend(SortedKeys(rows));
  }

  /** The drain yields one payload per row, in storage order of the keys. */
  lemma DrainYieldsRowsInOrder(s: Store, defs: Definitions, model: DatabaseModel)
    requires model.primaryKey.uniqueTableName in defs
    ensures var rows := Rows(s, model.primaryKey.uniqueTableName);
      var out := Drain(s, defs, model).1.value;
      && |out| == |rows|
      && (forall k :: k in rows ==> exists i :: 0 <= i < |out| && SortedKeys(rows)[i] == k && out[i] == Output(rows[k]))
      && (forall i, j :: 0 <= i < j < |out| ==> Less(SortedKeys(rows)[i].data, SortedKeys(rows)[j].data))
  {
    PayloadsFollowKeyOrder(Rows(s, model.primaryKey.uniqueTableName));
  }

  /**
    With at most one entry per drained record in each of the model's
    multimaps, the drain leaves no entry that refers to a drained record and
    keeps every other entry.
   */
  lemma DrainClearsIndexes(s: Store, defs: Definitions, model: DatabaseModel)
    requires model.primaryKey.uniqueTableName in defs
    requires forall t :: t in defs[model.primaryKey.uniqueTableName].model.secondaryKeys
               ==> OneEntryPerRecord(Pairs(s, t), Rows(s, model.primaryKey.uniqueTableName).Keys)
    ensures var drained := Rows(s, model.primaryKey.uniqueTableName).Keys;
      forall t :: t in defs[model.primaryKey.uniqueTableName].model.secondaryKeys
        ==> Pairs(Drain(s, defs, model).0, t) == set p | p in Pairs(s, t) && p.1 !in drained
  {
    var drained := Rows(s, model.primaryKey.uniqueTableName).Keys;
    forall t | t in defs[model.primaryKey.uniqueTableName].model.secondaryKeys
      ensures Pairs(Drain(s, defs, model).0, t) == set p | p in Pairs(s, t) && p.1 !in drained
    {
      DrainPairsRemovesAll(Pairs(s, t), drained);
    }
  }

  /**
    The insertion loop shared by `migrate` and `refresh`: each payload is
    decoded into a record of the model and inserted; the first failure of a
    decode or an insert ends the loop with the earlier records in place.
   */
  function InsertAll(s: Store, defs: Definitions, model: DatabaseModel, items: seq<Output>,
                     decode: Bytes -> Result<DatabaseInput, Error>): (r: (Store, Result<(), Error>))
    ensures forall t :: t != model.primaryKey.uniqueTableName ==> Rows(r.0, t) == Rows(s, t)
    ensures forall k :: k in Rows(s, model.primaryKey.uniqueTableName) ==>
      k in Rows(r.0, model.primaryKey.uniqueTableName)
      && Rows(r.0, model.primaryKey.uniqueTableName)[k] == Rows(s, model.primaryKey.uniqueTableName)[k]
    ensures r.1.Ok? ==> forall i :: 0 <= i < |items| ==> decode(items[i].data).Ok?
    ensures r.1.Ok? ==> forall i :: 0 <= i < |items| ==>
      var d := decode(items[i].data).value;
      d.primaryKey in Rows(r.0, model.primaryKey.uniqueTableName) && Rows(r.0, model.primaryKey.uniqueTableName)[d.primaryKey] == d.value
    decreases |items|
  {
    if items == [] then (s, Ok(()))
    else
      match decode(items[0].data)
      case Err(e) => (s, Err(e))
      case Ok(record) =>
        var (inserted, result) := InternalRw.Insert(s, defs, model, record);
        if result.Err? then (inserted, Err(result.error))
        else
          var table := model.primaryKey.uniqueTableName;
          assert Rows(inserted, table) == Rows(s, table)[record.primaryKey := record.value];
          var r := InsertAll(inserted, defs, model, items[1..], decode);
          assert forall i :: 1 <= i < |items| ==> items[i] == items[1..][i - 1];
          r
  }

  /** The name of the table a definition stores its records in. */
  function TableOf(b: ModelBuilder): string {
    b.model.primaryKey.uniqueTableName
  }

  /** Whether the table of the definition named `n` has model id `id` and holds data. */
  predicate HoldsData(s: Store, defs: Definitions, n: string, id: KeySerializer.UInt32)
    requires n in defs
  {
    defs[n].options.id == id && |Rows(s, TableOf(defs[n]))| > 0
  }

  /** The definitions, visited in `order`, whose tables have model id `id` and hold data. */
  function Holding(s: Store, defs: Definitions, order: seq<string>, id: KeySerializer.UInt32): (r: seq<string>)
    requires forall n :: n in order ==> n in defs
    ensures forall n :: n in r <==> n in order && HoldsData(s, defs, n, id)
    decreases |order|
  {
    if order == [] then []
    else (if HoldsData(s, defs, order[0], id) then [order[0]] else []) + Holding(s, defs, order[1..], id)
  }

  /** Over a repetition-free order, the count of holding definitions is the size of their set. */
  lemma {:induction false} HoldingCountsTables(s: Store, defs: Definitions, order: seq<string>, id: KeySerializer.UInt32)
    requires forall n :: n in order ==> n in defs
    requires forall i, j :: 0 <= i < j < |order| ==> order[i] != order[j]
    ensures |Holding(s, defs, order, id)| == |set n | n in order && HoldsData(s, defs, n, id)|
    decreases |order|
  {
    if order != [] {
      var rest := order[1..];
      NoRepeatsTail(order);
      HoldingCountsTables(s, defs, rest, id);
      var holds := HoldsData(s, defs, order[0], id);
      assert |Holding(s, defs, order, id)| == (if holds then 1 else 0) + |Holding(s, defs, rest, id)|;
      var here := set n | n in order && HoldsData(s, defs, n, id);
      var there := set n | n in rest && HoldsData(s, defs, n, id);
      forall n ensures n in here <==> n in there || (holds && n == order[0]) {
        assert n in order <==> n == order[0] || n in rest;
      }
      CountOneMore(here, there, order[0], holds);
    }
  }

  /** The tail of a repetition-free sequence is repetition-free and lacks the head. */
  lemma NoRepeatsTail<T>(order: seq<T>)
    requires order != []
    requires forall i, j :: 0 <= i < j < |order| ==> order[i] != order[j]
    ensures forall i, j :: 0 <= i < j < |order[1..]| ==> order[1..][i] != order[1..][j]
    ensures order[0] !in order[1..]
  {
    var rest := order[1..];
    assert forall i :: 0 <= i < |rest| ==> rest[i] == order[i + 1];
  }

  /** A set that differs from another by at most one new element. */
  lemma CountOneMore<T>(here: set<T>, there: set<T>, x: T, holds: bool)
    requires x !in there
    requires forall n :: n in here <==> n in there || (holds && n == x)
    ensures |here| == |there| + (if holds then 1 else 0)
  {
    if holds {
      assert here == there + {x};
    } else {
      assert here == there;
    }
  }

  /**
    The search of `migrate` for the table to migrate from: among the
    definitions with the target's model id, visited in `order`, the one
    whose table holds data; a second one panics.
   */
  function FindSource(s: Store, defs: Definitions, order: seq<string>, id: KeySerializer.UInt32, target: string,
                      found: Option<string>): (r: Result<Option<string>, Error>)
    requires forall n :: n in order ==> n in defs
    requires found.Some? ==> found.value in defs
    ensures r.Err? ==> r.error.Panic?
    ensures r.Ok? && r.value.Some? ==> r.value.value in defs
    decreases |order|
  {
    if order == [] then Ok(found)
    else
      var n := order[0];
      if !HoldsData(s, defs, n, id) then FindSource(s, defs, order[1..], id, target, found)
      else if found.Some? then
        Err(Panic("Impossible to migrate the table " + target + " because multiple old tables with data exist: "
                  + TableOf(defs[n]) + ", " + TableOf(defs[found.value])))
      else FindSource(s, defs, order[1..], id, target, Some(n))
  }

  /**
    The search panics exactly when it meets two holding definitions,
    counting one already found; otherwise it yields the single one, if any.
   */
  lemma {:induction false} FindSourceSpec(s: Store, defs: Definitions, order: seq<string>, id: KeySerializer.UInt32, target: string,
                                          found: Option<string>)
    requires forall n :: n in order ==> n in defs
    requires found.Some? ==> found.value in defs
    ensures var r := FindSource(s, defs, order, id, target, found);
      var h := Holding(s, defs, order, id);
      && (r.Err? <==> |h| + (if found.Some? then 1 else 0) >= 2)
      && (found.None? && h == [] ==> r == Ok(None))
      && (found.None? && |h| == 1 ==> r == Ok(Some(h[0])))
      && (found.Some? && h == [] ==> r == Ok(found))
    decreases |order|
  {
    if order != [] {
      var n := order[0];
      if !HoldsData(s, defs, n, id) {
        FindSourceSpec(s, defs, order[1..], id, target, found);
      } else if found.None? {
        FindSourceSpec(s, defs, order[1..], id, target, Some(n));
      }
    }
  }

  /**
    `migrate` into `model`'s table, with the database's definitions visited
    in `order`. A target without definition panics (`expect`); a legacy
    target raises `MigrateLegacyModel`; the source is the one table of the
    same model id that holds data. Nothing happens without a source or when
    the source is the target; otherwise the source is drained and each of
    its payloads decoded and inserted into the target.
   */
  function Migrate(s: Store, defs: Definitions, order: seq<string>, model: DatabaseModel,
                   decode: Bytes -> Result<DatabaseInput, Error>): (r: (Store, Result<(), Error>))
    requires Enumerates(order, defs.Keys)
    ensures model.primaryKey.uniqueTableName !in defs ==> r.1.Err? && r.1.error.Panic? && r.0 == s
    ensures model.primaryKey.uniqueTableName in defs && defs[model.primaryKey.uniqueTableName].options.legacy
        ==> r == (s, Err(MigrateLegacyModel(model.primaryKey.uniqueTableName)))
  {
    var target := model.primaryKey.uniqueTableName;
    if target !in defs then (s, Err(Panic("Fatal error: table definition not found during migration")))
    else if defs[target].options.legacy then (s, Err(MigrateLegacyModel(target)))
    else
      match FindSource(s, defs, order, defs[target].options.id, target, None)
      case Err(e) => (s, Err(e))
      case Ok(None) => (s, Ok(()))
      case Ok(Some(n)) =>
        if TableOf(defs[n]) == target then (s, Ok(()))
        else
          var (drained, result) := Drain(s, defs, defs[n].model);
          match result
          case Err(e) => (drained, Err(e))
          case Ok(items) => InsertAll(drained, defs, model, items, decode)
  }

  /** The definitions of model id `id` whose tables hold data. */
  ghost function Sources(s: Store, defs: Definitions, id: KeySerializer.UInt32): set<string> {
    set n | n in defs && HoldsData(s, defs, n, id)
  }

  /** The search over an enumeration of the definitions finds what the set of sources says. */
  lemma FindSourceOverDefinitions(s: Store, defs: Definitions, order: seq<string>, id: KeySerializer.UInt32, target: string)
    requires Enumerates(order, defs.Keys)
    ensures var r := FindSource(s, defs, order, id, target, None);
      && (r.Err? <==> |Sources(s, defs, id)| >= 2)
      && (Sources(s, defs, id) == {} ==> r == Ok(None))
      && (forall n :: Sources(s, defs, id) == {n} ==> r == Ok(Some(n)))
  {
    FindSourceSpec(s, defs, order, id, target, None);
    HoldingCountsTables(s, defs, order, id);
    var h := Holding(s, defs, order, id);
    assert (set n | n in order && HoldsData(s, defs, n, id)) == Sources(s, defs, id);
    if |h| == 1 {
      assert h[0] in Sources(s, defs, id);
    }
  }

  /** Without a source table, or when the source is the target itself, migration changes nothing. */
  lemma MigrateWithoutOtherSourceIsNoOp(s: Store, defs: Definitions, order: seq<string>, model: DatabaseModel,
                                        decode: Bytes -> Result<DatabaseInput, Error>)
    requires Enumerates(order, defs.Keys)
    requires model.primaryKey.uniqueTableName in defs && !defs[model.primaryKey.uniqueTableName].options.legacy
    requires var sources := Sources(s, defs, defs[model.primaryKey.uniqueTableName].options.id);
      sources == {} || exists n :: sources == {n} && TableOf(defs[n]) == model.primaryKey.uniqueTableName
    ensures Migrate(s, defs, order, model, decode) == (s, Ok(()))
  {
    FindSourceOverDefinitions(s, defs, order, defs[model.primaryKey.uniqueTableName].options.id, model.primaryKey.uniqueTableName);
  }

  /** Migration panics, changing nothing, exactly when two tables of the model's id hold data. */
  lemma MigratePanicsOnTwoSources(s: Store, defs: Definitions, order: seq<string>, model: DatabaseModel,
                                  decode: Bytes -> Result<DatabaseInput, Error>)
    requires Enumerates(order, defs.Keys)
    requires model.primaryKey.uniqueTableName in defs && !defs[model.primaryKey.uniqueTableName].options.legacy
    ensures var id := defs[model.primaryKey.uniqueTableName].options.id;
      (FindSource(s, defs, order, id, model.primaryKey.uniqueTableName, None).Err? <==> |Sources(s, defs, id)| >= 2)
      && (|Sources(s, defs, id)| >= 2 ==>
            var r := Migrate(s, defs, order, model, decode); r.0 == s && r.1.Err? && r.1.error.Panic?)
  {
    FindSourceOverDefinitions(s, defs, order, defs[model.primaryKey.uniqueTableName].options.id, model.primaryKey.uniqueTableName);
  }

  /**
    A migration from another table leaves that table empty and, when it
    succeeds, the target holding every record decoded from its payloads.
   */
  lemma MigrateMovesRecords(s: Store, defs: Definitions, order: seq<string>, model: DatabaseModel,
                            decode: Bytes -> Result<DatabaseInput, Error>, n: string)
    requires Enumerates(order, defs.Keys)
    requires model.primaryKey.uniqueTableName in defs && !defs[model.primaryKey.uniqueTableName].options.legacy
    requires Sources(s, defs, defs[model.primaryKey.uniqueTableName].options.id) == {n}
    requires TableOf(defs[n]) != model.primaryKey.uniqueTableName
    requires Migrate(s, defs, order, model, decode).1.Ok?
    ensures var after := Migrate(s, defs, order, model, decode).0;
      && Rows(after, TableOf(defs[n])) == map[]
      && forall k :: k in Rows(s, TableOf(defs[n])) ==>
           && decode(Rows(s, TableOf(defs[n]))[k]).Ok?
           && var d := decode(Rows(s, TableOf(defs[n]))[k]).value;
              d.primaryKey in Rows(after, model.primaryKey.uniqueTableName)
              && Rows(after, model.primaryKey.uniqueTableName)[d.primaryKey] == d.value
  {
    MigrateDrainsSource(s, defs, order, model, decode, n);
    InsertAllHoldsEveryRow(Drain(s, defs, defs[n].model).0, defs, model, Rows(s, TableOf(defs[n])), decode);
  }

  /** Inserting a table's payloads in key order, when it succeeds, holds the decoded record of every row. */
  lemma InsertAllHoldsEveryRow(s: Store, defs: Definitions, model: DatabaseModel, rows: map<Key, Bytes>,
                               decode: Bytes -> Result<DatabaseInput, Error>)
    requires InsertAll(s, defs, model, PayloadsInKeyOrder(rows), decode).1.Ok?
    ensures var after := InsertAll(s, defs, model, PayloadsInKeyOrder(rows), decode).0;
      forall k :: k in rows ==>
        && decode(rows[k]).Ok?
        && var d := decode(rows[k]).value;
           d.primaryKey in Rows(after, model.primaryKey.uniqueTableName)
           && Rows(after, model.primaryKey.uniqueTableName)[d.primaryKey] == d.value
  {
    var items := PayloadsInKeyOrder(rows);
    var after := InsertAll(s, defs, model, items, decode).0;
    forall k | k in rows
      ensures decode(rows[k]).Ok?
      ensures var d := decode(rows[k]).value;
        d.primaryKey in Rows(after, model.primaryKey.uniqueTableName)
        && Rows(after, model.primaryKey.uniqueTableName)[d.primaryKey] == d.value
    {
      var i := PayloadIndex(rows, k);
      assert items[i].data == rows[k];
    }
  }

  /** With one other source table, migration is the insertion of that table's drained payloads. */
  lemma MigrateDrainsSource(s: Store, defs: Definitions, order: seq<string>, model: DatabaseModel,
                            decode: Bytes -> Result<DatabaseInput, Error>, n: string)
    requires Enumerates(order, defs.Keys)
    requires model.primaryKey.uniqueTableName in defs && !defs[model.primaryKey.uniqueTableName].options.legacy
    requires Sources(s, defs, defs[model.primaryKey.uniqueTableName].options.id) == {n}
    requires TableOf(defs[n]) != model.primaryKey.uniqueTableName
    ensures TableOf(defs[n]) !in defs ==> Migrate(s, defs, order, model, decode).1.Err?
    ensures TableOf(defs[n]) in defs ==>
      var drained := Drain(s, defs, defs[n].model).0;
      && Rows(drained, TableOf(defs[n])) == map[]
      && Migrate(s, defs, order, model, decode)
         == InsertAll(drained, defs, model, PayloadsInKeyOrder(Rows(s, TableOf(defs[n]))), decode)
  {
    FindSourceOverDefinitions(s, defs, order, defs[model.primaryKey.uniqueTableName].options.id, model.primaryKey.uniqueTableName);
    assert n in defs;
  }

  /**
    `refresh`: the model's own table is drained and every payload decoded
    and inserted again, which rebuilds its secondary-key entries.
   */
  function Refresh(s: Store, defs: Definitions, model: DatabaseModel, decode: Bytes -> Result<DatabaseInput, Error>)
    : (r: (Store, Result<(), Error>))
    ensures model.primaryKey.uniqueTableName !in defs
        ==> r == (s, Err(TableDefinitionNotFound(model.primaryKey.uniqueTableName)))
  {
    var (drained, result) := Drain(s, defs, model);
    match result
    case Err(e) => (drained, Err(e))
    case Ok(items) => InsertAll(drained, defs, model, items, decode)
  }

  /** A decoder that gives back, for each stored row, the record it was written from. */
  ghost predicate DecodesRows(rows: map<Key, Bytes>, decode: Bytes -> Result<DatabaseInput, Error>) {
    forall k :: k in rows ==> decode(rows[k]).Ok? && decode(rows[k]).value.primaryKey == k && decode(rows[k]).value.value == rows[k]
  }

  /** Re-inserting a table's payloads into an emptied table restores its rows. */
  lemma InsertAllRestoresRows(t: Store, defs: Definitions, model: DatabaseModel, rows: map<Key, Bytes>,
                              decode: Bytes -> Result<DatabaseInput, Error>)
    requires Rows(t, model.primaryKey.uniqueTableName) == map[]
    requires DecodesRows(rows, decode)
    requires InsertAll(t, defs, model, PayloadsInKeyOrder(rows), decode).1.Ok?
    ensures Rows(InsertAll(t, defs, model, PayloadsInKeyOrder(rows), decode).0, model.primaryKey.uniqueTableName) == rows
  {
    var after := Rows(InsertAll(t, defs, model, PayloadsInKeyOrder(rows), decode).0, model.primaryKey.uniqueTableName);
    InsertAllRestoresEachRow(t, defs, model, rows, decode);
    InsertAllAddsNoOtherRow(t, defs, model, rows, decode);
    SameRows(after, rows);
  }

  /** Two tables with the same keys and the same payload under each are equal. */
  lemma SameRows(a: map<Key, Bytes>, b: map<Key, Bytes>)
    requires forall k :: k in b ==> k in a && a[k] == b[k]
    requires forall k :: k in a ==> k in b
    ensures a == b
  {
    assert a.Keys == b.Keys;
  }

  lemma InsertAllRestoresEachRow(t: Store, defs: Definitions, model: DatabaseModel, rows: map<Key, Bytes>,
                                 decode: Bytes -> Result<DatabaseInput, Error>)
    requires DecodesRows(rows, decode)
    requires InsertAll(t, defs, model, PayloadsInKeyOrder(rows), decode).1.Ok?
    ensures var after := Rows(InsertAll(t, defs, model, PayloadsInKeyOrder(rows), decode).0, model.primaryKey.uniqueTableName);
      forall k :: k in rows ==> k in after && after[k] == rows[k]
  {
    var table := model.primaryKey.uniqueTableName;
    var keys := SortedKeys(rows);
    var items := PayloadsInKeyOrder(rows);
    var after := Rows(InsertAll(t, defs, model, items, decode).0, table);
    forall k | k in rows ensures k in after && after[k] == rows[k] {
      var i := PayloadIndex(rows, k);
      assert items[i].data == rows[k];
    }
  }

  lemma InsertAllAddsNoOtherRow(t: Store, defs: Definitions, model: DatabaseModel, rows: map<Key, Bytes>,
                                decode: Bytes -> Result<DatabaseInput, Error>)
    requires Rows(t, model.primaryKey.uniqueTableName) == map[]
    requires DecodesRows(rows, decode)
    ensures forall k :: k in Rows(InsertAll(t, defs, model, PayloadsInKeyOrder(rows), decode).0, model.primaryKey.uniqueTableName) ==> k in rows
  {
    var table := model.primaryKey.uniqueTableName;
    var keys := SortedKeys(rows);
    var items := PayloadsInKeyOrder(rows);
    var after := Rows(InsertAll(t, defs, model, items, decode).0, table);
    InsertAllAddsOnlyDecoded(t, defs, model, items, decode);
    forall k | k in after ensures k in rows {
      var i :| 0 <= i < |items| && decode(items[i].data).Ok? && decode(items[i].data).value.primaryKey == k;
      var key := keys[i];
      assert key in rows && items[i].data == rows[key];
      assert decode(rows[key]).value.primaryKey == key;
    }
  }

  /**
    When every payload decodes to a record with the row's own key and
    payload, a successful refresh leaves the table's rows as they were.
   */
  lemma RefreshKeepsRows(s: Store, defs: Definitions, model: DatabaseModel, decode: Bytes -> Result<DatabaseInput, Error>)
    requires model.primaryKey.uniqueTableName in defs
    requires DecodesRows(Rows(s, model.primaryKey.uniqueTableName), decode)
    requires Refresh(s, defs, model, decode).1.Ok?
    ensures Rows(Refresh(s, defs, model, decode).0, model.primaryKey.uniqueTableName) == Rows(s, model.primaryKey.uniqueTableName)
  {
    var drained := Drain(s, defs, model);
    InsertAllRestoresRows(drained.0, defs, model, Rows(s, model.primaryKey.uniqueTableName), decode);
  }

  /** Every row the loop adds is the primary key of a decoded payload. */
  lemma {:induction false} InsertAllAddsOnlyDecoded(s: Store, defs: Definitions, model: DatabaseModel, items: seq<Output>,
                                                    decode: Bytes -> Result<DatabaseInput, Error>)
    ensures forall k :: k in Rows(InsertAll(s, defs, model, items, decode).0, model.primaryKey.uniqueTableName) ==>
      k in Rows(s, model.primaryKey.uniqueTableName)
      || exists i :: 0 <= i < |items| && decode(items[i].data).Ok? && decode(items[i].data).value.primaryKey == k
    decreases |items|
  {
    if items != [] && decode(items[0].data).Ok? {
      var record := decode(items[0].data).value;
      var (inserted, result) := InternalRw.Insert(s, defs, model, record);
      if result.Ok? {
        var table := model.primaryKey.uniqueTableName;
        var rest := items[1..];
        var after := Rows(InsertAll(inserted, defs, model, rest, decode).0, table);
        assert after == Rows(InsertAll(s, defs, model, items, decode).0, table);
        assert table in defs && record.primaryKey !in Rows(s, table);
        assert forall k :: k in Rows(inserted, table) ==> k in Rows(s, table) || k == record.primaryKey;
        InsertAllAddsOnlyDecoded(inserted, defs, model, rest, decode);
        forall k | k in after
          ensures k in Rows(s, table)
            || exists i :: 0 <= i < |items| && decode(items[i].data).Ok? && decode(items[i].data).value.primaryKey == k
        {
          if k !in Rows(inserted, table) {
            var i :| 0 <= i < |rest| && decode(rest[i].data).Ok? && decode(rest[i].data).value.primaryKey == k;
            assert rest[i] == items[i + 1];
          } else if k !in Rows(s, table) {
            assert decode(items[0].data).value.primaryKey == k;
          }
        }
      }
    }
  }
}
