/**
  The upgrade of secondary indexes from the old layout to the multimap
  layout (src/upgrade/secondary_index_table_multimap.rs). In the old layout
  a secondary table maps the composite key (secondary key followed by the
  primary key) to the primary key; in the new one it is a multimap from the
  secondary key to its primary keys. Each old table is drained in key order
  into a temporary multimap, re-keyed by cutting the primary key off the
  end of the composite key, then copied into the new multimap of the same
  name; each of the two phases is one committed write transaction.
 */
module SecondaryIndexUpgrade {
  import opened Bytes
  import opened Outcome
  import opened Sorting
  import opened Keys
  import opened KeyDefinitions
  import opened Errors
  import opened Tables

  /** The tables of a database during the upgrade: old-layout secondary tables, and the store of new-layout ones. */
  datatype UpgradeStore = UpgradeStore(legacy: map<string, map<Key, Key>>, store: Store)

  /** The panic of subtracting a longer primary key's length from a shorter composite key's. */
  const SubtractOverflow: Error := Panic("attempt to subtract with overflow")

  /**
    The secondary key of an old entry: the composite key without its last
    `|primary key|` bytes. Nothing checks that those bytes are the primary
    key; a primary key longer than the composite key panics.
   */
  function StripPrimaryKey(combined: Key, primary: Key): (r: Result<Key, Error>)
    ensures r.Err? <==> |primary.data| > |combined.data|
    ensures r.Err? ==> r.error == SubtractOverflow
    ensures r.Ok? ==> |r.value.data| + |primary.data| == |combined.data| && StartsWith(combined.data, r.value.data)
  {
    if |primary.data| > |combined.data| then Err(SubtractOverflow)
    else Ok(Key(combined.data[..|combined.data| - |primary.data|]))
  }

  /** Stripping undoes `composite_key`: the round trip of the old index layout. */
  lemma StripUndoesComposite(secondary: Key, primary: Key)
    ensures StripPrimaryKey(CompositeKey(secondary, primary), primary) == Ok(secondary)
  {
    assert CompositeKey(secondary, primary).data[..|secondary.data|] == secondary.data;
  }

  /** The stripped key extended with the primary key is the composite key exactly when it ends with the primary key. */
  lemma StripThenExtend(combined: Key, primary: Key)
    requires |primary.data| <= |combined.data|
    ensures CompositeKey(StripPrimaryKey(combined, primary).value, primary) == combined
        <==> combined.data[|combined.data| - |primary.data|..] == primary.data
  {
    var s := StripPrimaryKey(combined, primary).value;
    var cut := |combined.data| - |primary.data|;
    assert combined.data == combined.data[..cut] + combined.data[cut..];
  }

  /** Every entry of an old table can be re-keyed. */
  ghost predicate Strippable(prior: map<Key, Key>) {
    forall k :: k in prior ==> |prior[k].data| <= |k.data|
  }

  /** The multimap entry an old entry becomes. */
  function Rekey(combined: Key, primary: Key): (Key, Key)
    requires |primary.data| <= |combined.data|
  {
    (StripPrimaryKey(combined, primary).value, primary)
  }

  /** The multimap entries of an old table. */
  function Rekeyed(prior: map<Key, Key>): (r: set<(Key, Key)>)
    requires Strippable(prior)
    ensures forall k :: k in prior ==> Rekey(k, prior[k]) in r
  {
    set k | k in prior :: Rekey(k, prior[k])
  }

  /** Every listed key is in the old table and can be re-keyed. */
  ghost predicate ListedStrippable(prior: map<Key, Key>, order: seq<Key>) {
    forall j :: 0 <= j < |order| ==> order[j] in prior && |prior[order[j]].data| <= |order[j].data|
  }

  /** The multimap entries of the listed keys of an old table, inserted in list order. */
  function RekeyedList(prior: map<Key, Key>, order: seq<Key>): (r: set<(Key, Key)>)
    requires ListedStrippable(prior, order)
  {
    if order == [] then {}
    else
      var last := order[|order| - 1];
      RekeyedList(prior, order[..|order| - 1]) + {Rekey(last, prior[last])}
  }

  lemma {:induction false} RekeyedListMembers(prior: map<Key, Key>, order: seq<Key>, x: (Key, Key))
    requires ListedStrippable(prior, order)
    ensures x in RekeyedList(prior, order) <==> exists j :: 0 <= j < |order| && x == Rekey(order[j], prior[order[j]])
  {
    if order != [] {
      var front := order[..|order| - 1];
      RekeyedListMembers(prior, front, x);
      if x in RekeyedList(prior, front) {
        var j :| 0 <= j < |front| && x == Rekey(front[j], prior[front[j]]);
        assert order[j] == front[j];
      }
      if exists j :: 0 <= j < |order| && x == Rekey(order[j], prior[order[j]]) {
        var j :| 0 <= j < |order| && x == Rekey(order[j], prior[order[j]]);
        if j < |front| {
          assert front[j] == order[j];
        }
      }
    }
  }

  /** Re-keying the entries listed in any order gives the re-keyed table. */
  lemma ListedRekeyed(prior: map<Key, Key>, order: seq<Key>)
    requires forall k :: k in prior.Keys <==> k in order
    requires ListedStrippable(prior, order)
    ensures Strippable(prior)
    ensures RekeyedList(prior, order) == Rekeyed(prior)
  {
    forall k | k in prior ensures |prior[k].data| <= |k.data| {
      var j :| 0 <= j < |order| && order[j] == k;
    }
    forall x | x in RekeyedList(prior, order) ensures x in Rekeyed(prior) {
      RekeyedListMembers(prior, order, x);
    }
    forall k | k in prior ensures Rekey(k, prior[k]) in RekeyedList(prior, order) {
      var j :| 0 <= j < |order| && order[j] == k;
      RekeyedListMembers(prior, order, Rekey(k, prior[k]));
    }
  }

  /** The order `pop_first` removes an old table's entries in: ascending key order. */
  function DrainOrder(prior: map<Key, Key>): (r: seq<Key>)
    ensures Lists(r, prior.Keys, KeyLe)
  {
    KeyLeIsTotalOrder();
    Sort(prior.Keys, KeyLe)
  }

  /**
    The `pop_first` loop over the listed keys: inserts each re-keyed entry
    into the temporary multimap, and panics at the first entry that cannot
    be re-keyed.
   */
  method PopEach(prior: map<Key, Key>, order: seq<Key>, tmp: set<(Key, Key)>) returns (r: Result<set<(Key, Key)>, Error>)
    requires forall j :: 0 <= j < |order| ==> order[j] in prior
    ensures r.Ok? <==> ListedStrippable(prior, order)
    ensures r.Err? ==> r.error == SubtractOverflow
    ensures r.Ok? ==> r.value == tmp + RekeyedList(prior, order)
  {
    var filled := tmp;
    var i := 0;
    while i < |order|
      invariant i <= |order|
      invariant ListedStrippable(prior, order[..i])
      invariant filled == tmp + RekeyedList(prior, order[..i])
    {
      var k := order[i];
      var stripped := StripPrimaryKey(k, prior[k]);
      if stripped.Err? {
        return Err(stripped.error);
      }
      assert order[..i + 1][..i] == order[..i];
      filled := filled + {(stripped.value, prior[k])};
      i := i + 1;
    }
    assert order[..i] == order;
    r := Ok(filled);
  }

  /**
    The first phase: `pop_first` until the old table is empty, in ascending
    key order. The first entry that cannot be re-keyed panics, and the
    transaction is dropped.
   */
  method DrainToTemporary(prior: map<Key, Key>, tmp: set<(Key, Key)>) returns (r: Result<set<(Key, Key)>, Error>)
    ensures r.Ok? <==> Strippable(prior)
    ensures r.Err? ==> r.error == SubtractOverflow
    ensures r.Ok? ==> r.value == tmp + Rekeyed(prior)
  {
    var order := DrainOrder(prior);
    r := PopEach(prior, order, tmp);
    if r.Ok? {
      ListedRekeyed(prior, order);
    } else {
      var j :| 0 <= j < |order| && |prior[order[j]].data| > |order[j].data|;
      assert order[j] in prior;
    }
  }

  /** The name of the temporary multimap of a secondary table. */
  function TemporaryName(table: string): string {
    table + "_tmp"
  }

  /**
    Whether phase one can open the name as an old-layout table: it can when
    the old table is there, and also when the name holds no table at all,
    since a write transaction creates a missing table on first open. A name
    that already holds a multimap is of the wrong kind and cannot be opened.
   */
  predicate Opens(st: UpgradeStore, table: string) {
    table in st.legacy || table !in st.store.secondary
  }

  /** The old-layout table phase one drains: empty when it is created by being opened. */
  function OldTable(st: UpgradeStore, table: string): (prior: map<Key, Key>)
    ensures table !in st.legacy ==> prior == map[]
  {
    if table in st.legacy then st.legacy[table] else map[]
  }

  /**
    The upgrade of one secondary table. A name that cannot be opened as an
    old-layout table is skipped. Otherwise the first phase fills the
    temporary multimap and deletes the old table; the second copies the
    temporary multimap into the new one and deletes it. A name with no table
    at all still runs both phases, so entries left in its temporary
    multimap by an interrupted earlier upgrade reach the new multimap. A
    panic in the first phase leaves everything as it was.
   */
  method UpgradeTable(st: UpgradeStore, table: string) returns (after: UpgradeStore, r: Result<(), Error>)
    ensures !Opens(st, table) ==> after == st && r.Ok?
    ensures Opens(st, table) ==> (r.Ok? <==> Strippable(OldTable(st, table)))
    ensures r.Err? ==> after == st && r.error == SubtractOverflow && table in st.legacy
    ensures Opens(st, table) && r.Ok? ==>
      && after.legacy == st.legacy - {table}
      && Pairs(after.store, table) == Pairs(st.store, table) + Pairs(st.store, TemporaryName(table)) + Rekeyed(OldTable(st, table))
      && table in after.store.secondary
      && TemporaryName(table) !in after.store.secondary
      && after.store.primary == st.store.primary
      && (forall t :: t != table && t != TemporaryName(table) ==>
            && Pairs(after.store, t) == Pairs(st.store, t)
            && (t in after.store.secondary <==> t in st.store.secondary))
  {
    if !Opens(st, table) {
      return st, Ok(());
    }
    var tmpName := TemporaryName(table);
    var filled := DrainToTemporary(OldTable(st, table), Pairs(st.store, tmpName));
    if filled.Err? {
      return st, Err(filled.error);
    }
    var copied := Pairs(st.store, table) + filled.value;
    var store := WithPairs(st.store, table, copied);
    assert tmpName != table by {
      assert |tmpName| == |table| + 4;
    }
    store := store.(secondary := store.secondary - {tmpName});
    after := UpgradeStore(st.legacy - {table}, store);
    r := Ok(());
  }

  /**
    The tables listed for the upgrade are distinct, and none of them is
    another's temporary multimap: each table's upgrade then leaves the
    others' tables alone.
   */
  ghost predicate Separate(tables: seq<string>) {
    && (forall i, j :: 0 <= i < j < |tables| ==> tables[i] != tables[j])
    && (forall i, j :: 0 <= i < |tables| && 0 <= j < |tables| ==> tables[i] != TemporaryName(tables[j]))
  }

  /** What the new multimap of an upgraded table holds: its earlier entries, the temporary's, and the re-keyed old entries. */
  ghost function Upgraded(st: UpgradeStore, table: string): set<(Key, Key)>
    requires Strippable(OldTable(st, table))
  {
    Pairs(st.store, table) + Pairs(st.store, TemporaryName(table)) + Rekeyed(OldTable(st, table))
  }

  /**
    The state after the first `done` tables of a separate list: the old
    layout keeps exactly the tables not yet reached; each upgraded table
    holds its re-keyed entries and has no temporary multimap; a skipped table
    and the tables still to come are as they were.
   */
  ghost predicate UpgradedUpTo(st: UpgradeStore, after: UpgradeStore, tables: seq<string>, done: nat)
    requires done <= |tables|
  {
    && (forall t :: t in st.legacy && t !in tables[..done] ==> t in after.legacy)
    && (forall j :: 0 <= j < done && Opens(st, tables[j]) ==>
          && Strippable(OldTable(st, tables[j]))
          && Pairs(after.store, tables[j]) == Upgraded(st, tables[j])
          && Pairs(after.store, TemporaryName(tables[j])) == {})
    && (forall j :: 0 <= j < done && !Opens(st, tables[j]) ==> Pairs(after.store, tables[j]) == Pairs(st.store, tables[j]))
    && (forall j :: done <= j < |tables| ==>
          && (tables[j] in after.store.secondary <==> tables[j] in st.store.secondary)
          && Pairs(after.store, tables[j]) == Pairs(st.store, tables[j])
          && Pairs(after.store, TemporaryName(tables[j])) == Pairs(st.store, TemporaryName(tables[j])))
  }

  /**
    `upgrade_secondary_index_table_multimap`: every secondary table of every
    defined model, in the iteration order of the definitions' maps; a panic
    stops the upgrade with the earlier tables already upgraded. Over
    separate tables, each upgraded table holds its re-keyed old entries and
    its temporary multimap is gone, and a listed name that already holds a
    multimap is left as it was; whatever the list, no other table changes.
   */
  method UpgradeAll(st: UpgradeStore, tables: seq<string>) returns (after: UpgradeStore, r: Result<(), Error>, done: nat)
    ensures done <= |tables|
    ensures r.Ok? <==> done == |tables|
    ensures r.Err? ==>
      && r.error == SubtractOverflow
      && tables[done] in after.legacy && !Strippable(after.legacy[tables[done]])
    ensures forall t :: t in after.legacy ==> t in st.legacy && after.legacy[t] == st.legacy[t]
    ensures forall j :: 0 <= j < done ==> tables[j] !in after.legacy
    ensures after.store.primary == st.store.primary
    ensures Separate(tables) ==> forall j :: 0 <= j < done && Opens(st, tables[j]) ==>
      && Strippable(OldTable(st, tables[j]))
      && Pairs(after.store, tables[j]) == Upgraded(st, tables[j])
      && Pairs(after.store, TemporaryName(tables[j])) == {}
    ensures Separate(tables) ==> forall j :: 0 <= j < done && !Opens(st, tables[j]) ==>
      Pairs(after.store, tables[j]) == Pairs(st.store, tables[j])
    ensures forall t :: (forall j :: 0 <= j < |tables| ==> t != tables[j] && t != TemporaryName(tables[j])) ==>
      Pairs(after.store, t) == Pairs(st.store, t)
  {
    after := st;
    done := 0;
    while done < |tables|
      invariant done <= |tables|
      invariant forall t :: t in after.legacy ==> t in st.legacy && after.legacy[t] == st.legacy[t]
      invariant forall j :: 0 <= j < done ==> tables[j] !in after.legacy
      invariant after.store.primary == st.store.primary
      invariant Separate(tables) ==> UpgradedUpTo(st, after, tables, done)
      invariant forall t :: (forall j :: 0 <= j < |tables| ==> t != tables[j] && t != TemporaryName(tables[j])) ==>
        Pairs(after.store, t) == Pairs(st.store, t)
    {
      var next, res := UpgradeTable(after, tables[done]);
      if res.Err? {
        return after, res, done;
      }
      if Separate(tables) {
        UpgradeStep(st, after, next, tables, done);
      }
      after := next;
      done := done + 1;
    }
    r := Ok(());
  }

  /** Upgrading the next table of a separate list extends the upgraded state by that table. */
  lemma UpgradeStep(st: UpgradeStore, before: UpgradeStore, next: UpgradeStore, tables: seq<string>, done: nat)
    requires Separate(tables) && done < |tables|
    requires forall t :: t in before.legacy ==> t in st.legacy && before.legacy[t] == st.legacy[t]
    requires forall j :: 0 <= j < done ==> tables[j] !in before.legacy
    requires UpgradedUpTo(st, before, tables, done)
    requires !Opens(before, tables[done]) ==> next == before
    requires Opens(before, tables[done]) ==>
      && Strippable(OldTable(before, tables[done]))
      && next.legacy == before.legacy - {tables[done]}
      && Pairs(next.store, tables[done])
         == Pairs(before.store, tables[done]) + Pairs(before.store, TemporaryName(tables[done])) + Rekeyed(OldTable(before, tables[done]))
      && TemporaryName(tables[done]) !in next.store.secondary
      && (forall t :: t != tables[done] && t != TemporaryName(tables[done]) ==>
            && Pairs(next.store, t) == Pairs(before.store, t)
            && (t in next.store.secondary <==> t in before.store.secondary))
    ensures UpgradedUpTo(st, next, tables, done + 1)
  {
    var table := tables[done];
    assert tables[..done + 1] == tables[..done] + [table];
    assert table !in tables[..done];
    assert table in before.legacy <==> table in st.legacy;
    assert OldTable(before, table) == OldTable(st, table);
    assert Opens(before, table) <==> Opens(st, table);
    forall j | 0 <= j < |tables| && j != done
      ensures Pairs(next.store, tables[j]) == Pairs(before.store, tables[j])
      ensures tables[j] in next.store.secondary <==> tables[j] in before.store.secondary
      ensures Pairs(next.store, TemporaryName(tables[j])) == Pairs(before.store, TemporaryName(tables[j]))
    {
      assert tables[j] != table && tables[j] != TemporaryName(table);
      assert TemporaryName(tables[j]) != table;
      assert TemporaryName(tables[j]) != TemporaryName(table) by {
        assert TemporaryName(tables[j])[..|tables[j]|] == tables[j];
        assert TemporaryName(table)[..|table|] == table;
      }
    }
    if Opens(st, table) {
      assert Pairs(next.store, table) == Upgraded(st, table);
      assert Pairs(next.store, TemporaryName(table)) == {};
    }
  }

  /** An old table each of whose keys ends with its primary key, as the old layout writes them. */
  ghost predicate WellFormed(prior: map<Key, Key>) {
    forall k :: k in prior ==> |prior[k].data| <= |k.data| && k.data[|k.data| - |prior[k].data|..] == prior[k].data
  }

  /**
    On a well-formed old table the re-keyed entries are exactly the pairs
    whose composite key the old table maps to their primary key: the
    upgrade neither invents nor loses an index entry.
   */
  lemma RekeyedIsOldIndex(prior: map<Key, Key>, secondary: Key, primary: Key)
    requires WellFormed(prior)
    ensures (secondary, primary) in Rekeyed(prior) <==>
      CompositeKey(secondary, primary) in prior && prior[CompositeKey(secondary, primary)] == primary
  {
    var c := CompositeKey(secondary, primary);
    if (secondary, primary) in Rekeyed(prior) {
      var k :| k in prior && Rekey(k, prior[k]) == (secondary, primary);
      StripThenExtend(k, primary);
    }
    if c in prior && prior[c] == primary {
      StripUndoesComposite(secondary, primary);
      assert Rekey(c, prior[c]) == (secondary, primary);
    }
  }
}
