/**
  The write operations of a transaction on the model layer
  (`concrete_insert`, `concrete_upsert`, `concrete_remove` and
  `concrete_update` in src/transaction/internal/rw_transaction.rs). Each
  takes the tables and returns them together with the outcome: a failed
  operation keeps whatever it wrote before failing, as the write
  transaction does until it is aborted.
 */
module InternalRw {
  import opened Outcome
  import opened Keys
  import opened KeyDefinitions
  import opened KeyValues
  import opened Errors
  import opened Input
  import opened WatchEvents
  import opened ModelDefinition
  import opened Tables
  import opened IndexMaintenance

  /** The request a write hands to the watchers: the model's table and the record's keys. */
  function RequestFor(model: DatabaseModel, item: DatabaseInput): WatcherRequest {
    WatcherRequest(model.primaryKey.uniqueTableName, item.primaryKey, item.secondaryKeys)
  }

  /**
    `concrete_insert`: a primary key already present raises `DuplicateKey`
    with the model's table name and writes nothing; otherwise the row is
    written first and then the record's secondary keys are indexed, so a
    failure there leaves the row (and the entries added before it) in place.
   */
  function Insert(s: Store, defs: Definitions, model: DatabaseModel, item: DatabaseInput): (r: (Store, Result<(WatcherRequest, Output), Error>))
    ensures model.primaryKey.uniqueTableName !in defs
        ==> r == (s, Err(TableDefinitionNotFound(model.primaryKey.uniqueTableName)))
    ensures model.primaryKey.uniqueTableName in defs && item.primaryKey in Rows(s, model.primaryKey.uniqueTableName)
        ==> r == (s, Err(DuplicateKey(model.primaryKey.uniqueTableName)))
    ensures model.primaryKey.uniqueTableName in defs && item.primaryKey !in Rows(s, model.primaryKey.uniqueTableName)
        ==> Rows(r.0, model.primaryKey.uniqueTableName) == Rows(s, model.primaryKey.uniqueTableName)[item.primaryKey := item.value]
    ensures forall t :: t != model.primaryKey.uniqueTableName ==> Rows(r.0, t) == Rows(s, t)
    ensures forall t :: Pairs(s, t) <= Pairs(r.0, t) <= Pairs(s, t) + EntriesFor(item, item.secondaryKeys, t)
    ensures r.1.Ok? ==> forall t :: Pairs(r.0, t) == Pairs(s, t) + EntriesFor(item, item.secondaryKeys, t)
    ensures r.1.Ok? ==> r.1.value == (RequestFor(model, item), Output(item.value))
  {
    match PrimaryTable(defs, model)
    case Err(e) => (s, Err(e))
    case Ok(table) =>
      if item.primaryKey in Rows(s, table) then (s, Err(DuplicateKey(table)))
      else
        var written := WithRows(s, table, Rows(s, table)[item.primaryKey := item.value]);
        var (indexed, result) := InsertSecondaryKeys(written, defs, model, item, item.secondaryKeys);
        match result
        case Err(e) => (indexed, Err(e))
        case Ok(_) => (indexed, Ok((RequestFor(model, item), Output(item.value))))
  }

  /**
    Insert succeeds exactly when the model's table is defined, the primary
    key is new, and every secondary key of the record can be indexed.
   */
  lemma InsertSucceedsIff(s: Store, defs: Definitions, model: DatabaseModel, item: DatabaseInput)
    requires DistinctDefinitions(item.secondaryKeys)
    ensures Insert(s, defs, model, item).1.Ok?
        <==> && model.primaryKey.uniqueTableName in defs
             && item.primaryKey !in Rows(s, model.primaryKey.uniqueTableName)
             && forall i :: 0 <= i < |item.secondaryKeys| ==> CanIndex(s, defs, model, item, item.secondaryKeys[i].0)
  {
    var table := model.primaryKey.uniqueTableName;
    if table in defs && item.primaryKey !in Rows(s, table) {
      var written := WithRows(s, table, Rows(s, table)[item.primaryKey := item.value]);
      InsertSecondaryKeysSucceedsIff(written, defs, model, item, item.secondaryKeys);
      forall i | 0 <= i < |item.secondaryKeys|
        ensures CanIndex(written, defs, model, item, item.secondaryKeys[i].0) == CanIndex(s, defs, model, item, item.secondaryKeys[i].0)
      {
      }
    }
  }

  /**
    A unique secondary key whose value is taken fails the insert with
    `DuplicateKey` after the row has been written.
   */
  lemma InsertConflictKeepsRow(s: Store, defs: Definitions, model: DatabaseModel, item: DatabaseInput, i: nat)
    requires DistinctDefinitions(item.secondaryKeys)
    requires model.primaryKey.uniqueTableName in defs && item.primaryKey !in Rows(s, model.primaryKey.uniqueTableName)
    requires i < |item.secondaryKeys| && Conflicts(s, item, item.secondaryKeys[i].0)
    ensures Insert(s, defs, model, item).1.Err?
    ensures Rows(Insert(s, defs, model, item).0, model.primaryKey.uniqueTableName)[item.primaryKey] == item.value
  {
    InsertSucceedsIff(s, defs, model, item);
  }

  /**
    `concrete_remove`: an absent primary key raises `KeyNotFound` and a
    stored payload different from the record's raises `IncorrectInputData`
    with the stored payload; both leave the tables as they were (the row is
    put back). Otherwise the row is deleted and then every entry of the
    record is removed from its multimap, where a missing one raises
    `RemoveSecondaryKeyError`.
   */
  function Remove(s: Store, defs: Definitions, model: DatabaseModel, item: DatabaseInput): (r: (Store, Result<(WatcherRequest, Output), Error>))
    ensures model.primaryKey.uniqueTableName !in defs
        ==> r == (s, Err(TableDefinitionNotFound(model.primaryKey.uniqueTableName)))
    ensures model.primaryKey.uniqueTableName in defs && item.primaryKey !in Rows(s, model.primaryKey.uniqueTableName)
        ==> r == (s, Err(KeyNotFound(item.primaryKey.data)))
    ensures model.primaryKey.uniqueTableName in defs && item.primaryKey in Rows(s, model.primaryKey.uniqueTableName)
            && Rows(s, model.primaryKey.uniqueTableName)[item.primaryKey] != item.value
        ==> r == (s, Err(IncorrectInputData(Rows(s, model.primaryKey.uniqueTableName)[item.primaryKey])))
    ensures model.primaryKey.uniqueTableName in defs && item.primaryKey in Rows(s, model.primaryKey.uniqueTableName)
            && Rows(s, model.primaryKey.uniqueTableName)[item.primaryKey] == item.value
        ==> Rows(r.0, model.primaryKey.uniqueTableName) == Rows(s, model.primaryKey.uniqueTableName) - {item.primaryKey}
    ensures forall t :: t != model.primaryKey.uniqueTableName ==> Rows(r.0, t) == Rows(s, t)
    ensures forall t :: Pairs(s, t) - EntriesFor(item, item.secondaryKeys, t) <= Pairs(r.0, t) <= Pairs(s, t)
    ensures r.1.Ok? ==> forall t :: Pairs(r.0, t) == Pairs(s, t) - EntriesFor(item, item.secondaryKeys, t)
    ensures r.1.Ok? ==> r.1.value == (RequestFor(model, item), Output(item.value))
  {
    match PrimaryTable(defs, model)
    case Err(e) => (s, Err(e))
    case Ok(table) =>
      if item.primaryKey !in Rows(s, table) then (s, Err(KeyNotFound(item.primaryKey.data)))
      else if Rows(s, table)[item.primaryKey] != item.value then
        (s, Err(IncorrectInputData(Rows(s, table)[item.primaryKey])))
      else
        var deleted := WithRows(s, table, Rows(s, table) - {item.primaryKey});
        var (unindexed, result) := RemoveSecondaryKeys(deleted, defs, model, item, item.secondaryKeys);
        match result
        case Err(e) => (unindexed, Err(e))
        case Ok(_) => (unindexed, Ok((RequestFor(model, item), Output(item.value))))
  }

  /** Remove succeeds exactly when the stored row is the record's and all its entries are present. */
  lemma RemoveSucceedsIff(s: Store, defs: Definitions, model: DatabaseModel, item: DatabaseInput)
    requires DistinctDefinitions(item.secondaryKeys)
    ensures Remove(s, defs, model, item).1.Ok?
        <==> && model.primaryKey.uniqueTableName in defs
             && item.primaryKey in Rows(s, model.primaryKey.uniqueTableName)
             && Rows(s, model.primaryKey.uniqueTableName)[item.primaryKey] == item.value
             && forall i :: 0 <= i < |item.secondaryKeys| ==> CanUnindex(s, defs, model, item, item.secondaryKeys[i].0)
  {
    var table := model.primaryKey.uniqueTableName;
    if table in defs && item.primaryKey in Rows(s, table) && Rows(s, table)[item.primaryKey] == item.value {
      var deleted := WithRows(s, table, Rows(s, table) - {item.primaryKey});
      RemoveSecondaryKeysSucceedsIff(deleted, defs, model, item, item.secondaryKeys);
      forall i | 0 <= i < |item.secondaryKeys|
        ensures CanUnindex(deleted, defs, model, item, item.secondaryKeys[i].0) == CanUnindex(s, defs, model, item, item.secondaryKeys[i].0)
      {
      }
    }
  }

  /** A record's own entry is among those it puts in the table of each of its secondary keys. */
  lemma {:induction false} EntryIsAmongEntries(item: DatabaseInput, entries: seq<(SecondaryDefinition, KeyValue)>, i: nat)
    requires i < |entries| && IndexEntry(item, entries[i].0).Some?
    ensures IndexEntry(item, entries[i].0).value in EntriesFor(item, entries, entries[i].0.uniqueTableName)
    decreases i
  {
    if i > 0 {
      assert entries[1..][i - 1] == entries[i];
      EntryIsAmongEntries(item, entries[1..], i - 1);
    }
  }

  /** No entry of the tables refers to primary key `pk`. */
  ghost predicate NoEntriesOf(s: Store, pk: Key) {
    forall t, p :: p in Pairs(s, t) ==> p.1 != pk
  }

  /**
    Removing a record just inserted succeeds and gives back every table as
    it was, provided no entry referred to its primary key before.
   */
  lemma RemoveUndoesInsert(s: Store, defs: Definitions, model: DatabaseModel, item: DatabaseInput)
    requires DistinctDefinitions(item.secondaryKeys)
    requires NoEntriesOf(s, item.primaryKey)
    requires Insert(s, defs, model, item).1.Ok?
    ensures Remove(Insert(s, defs, model, item).0, defs, model, item).1.Ok?
    ensures var back := Remove(Insert(s, defs, model, item).0, defs, model, item).0;
      && (forall t :: Rows(back, t) == Rows(s, t))
      && (forall t :: Pairs(back, t) == Pairs(s, t))
  {
    var table := model.primaryKey.uniqueTableName;
    var mid := Insert(s, defs, model, item).0;
    InsertSucceedsIff(s, defs, model, item);
    forall i | 0 <= i < |item.secondaryKeys| ensures CanUnindex(mid, defs, model, item, item.secondaryKeys[i].0) {
      assert CanIndex(s, defs, model, item, item.secondaryKeys[i].0);
      if IndexEntry(item, item.secondaryKeys[i].0).Some? {
        EntryIsAmongEntries(item, item.secondaryKeys, i);
      }
    }
    RemoveSucceedsIff(mid, defs, model, item);
    var back := Remove(mid, defs, model, item).0;
    assert Rows(back, table) == Rows(s, table);
    forall t ensures Pairs(back, t) == Pairs(s, t) {
      AddThenTake(Pairs(s, t), EntriesFor(item, item.secondaryKeys, t), Pairs(mid, t), Pairs(back, t));
    }
  }

  /** Taking away entries just added to a set that had none of them gives the set back. */
  lemma AddThenTake<T>(before: set<T>, added: set<T>, mid: set<T>, back: set<T>)
    requires before !! added
    requires mid == before + added && back == mid - added
    ensures back == before
  {
  }

  /**
    `concrete_update`: the old record is removed, then the new one inserted
    (its primary key may differ); the first failure is returned with the
    tables as that step left them.
   */
  function Update(s: Store, defs: Definitions, model: DatabaseModel, previous: DatabaseInput, updated: DatabaseInput)
    : (r: (Store, Result<(WatcherRequest, Output, Output), Error>))
    ensures Remove(s, defs, model, previous).1.Err? ==> r == (Remove(s, defs, model, previous).0, Err(Remove(s, defs, model, previous).1.error))
    ensures r.1.Ok? ==> r.1.value == (RequestFor(model, updated), Output(previous.value), Output(updated.value))
    ensures r.1.Ok? ==> Remove(s, defs, model, previous).1.Ok?
                        && r.0 == Insert(Remove(s, defs, model, previous).0, defs, model, updated).0
  {
    var (removed, removal) := Remove(s, defs, model, previous);
    match removal
    case Err(e) => (removed, Err(e))
    case Ok((_, oldValue)) =>
      var (inserted, insertion) := Insert(removed, defs, model, updated);
      match insertion
      case Err(e) => (inserted, Err(e))
      case Ok((request, newValue)) => (inserted, Ok((request, oldValue, newValue)))
  }

  /** An update that keeps the primary key replaces the stored payload. */
  lemma UpdateInPlace(s: Store, defs: Definitions, model: DatabaseModel, previous: DatabaseInput, updated: DatabaseInput)
    requires previous.primaryKey == updated.primaryKey
    requires Update(s, defs, model, previous, updated).1.Ok?
    ensures Rows(Update(s, defs, model, previous, updated).0, model.primaryKey.uniqueTableName)
         == Rows(s, model.primaryKey.uniqueTableName)[previous.primaryKey := updated.value]
  {
    var table := model.primaryKey.uniqueTableName;
    var removed := Remove(s, defs, model, previous).0;
    assert table in defs && previous.primaryKey in Rows(s, table) && Rows(s, table)[previous.primaryKey] == previous.value;
    assert Rows(removed, table) == Rows(s, table) - {previous.primaryKey};
    assert Rows(Update(s, defs, model, previous, updated).0, table) == Rows(removed, table)[previous.primaryKey := updated.value];
    assert (Rows(s, table) - {previous.primaryKey})[previous.primaryKey := updated.value] == Rows(s, table)[previous.primaryKey := updated.value];
  }

  /**
    `concrete_upsert`: with an old record the write is an update, without
    one an insert; on success it reports the new record's request and
    payload and the old record's payload, if any.
   */
  function Upsert(s: Store, defs: Definitions, model: DatabaseModel, previous: Option<DatabaseInput>, item: DatabaseInput)
    : (r: (Store, Result<(WatcherRequest, Output, Option<Output>), Error>))
    ensures previous.None? ==> r.0 == Insert(s, defs, model, item).0 && (r.1.Ok? <==> Insert(s, defs, model, item).1.Ok?)
    ensures previous.Some? ==> r.0 == Update(s, defs, model, previous.value, item).0 && (r.1.Ok? <==> Update(s, defs, model, previous.value, item).1.Ok?)
    ensures r.1.Ok? ==> r.1.value.0 == RequestFor(model, item) && r.1.value.1 == Output(item.value)
    ensures r.1.Ok? ==> (r.1.value.2.Some? <==> previous.Some?)
    ensures r.1.Ok? && previous.Some? ==> r.1.value.2 == Some(Output(previous.value.value))
  {
    var (written, outcome) :=
      if previous.Some? then
        var (u, result) := Update(s, defs, model, previous.value, item);
        (u, if result.Ok? then Ok(()) else Err(result.error))
      else
        var (i, result) := Insert(s, defs, model, item);
        (i, if result.Ok? then Ok(()) else Err(result.error));
    match outcome
    case Err(e) => (written, Err(e))
    case Ok(_) =>
      (written, Ok((RequestFor(model, item), Output(item.value), if previous.Some? then Some(Output(previous.value.value)) else None)))
  }
}
