/**
  The secondary-index bookkeeping of a write transaction
  (`util_insert_secondary_keys` and the secondary half of `concrete_remove`
  in src/transaction/internal/rw_transaction.rs): the walk over a record's
  secondary keys, in the iteration order of its key map, that adds or
  removes the record's entry in each multimap.
 */
module IndexMaintenance {
  import opened Outcome
  import opened Keys
  import opened KeyDefinitions
  import opened KeyValues
  import opened Errors
  import opened Input
  import opened ModelDefinition
  import opened Tables

  /** The entry a record puts in the multimap of `def`: its stored key, then its primary key. */
  function IndexEntry(item: DatabaseInput, def: SecondaryDefinition): (r: Option<(Key, Key)>)
    ensures r.Some? <==> StoredKey(item, def).Some?
    ensures r.Some? ==> r.value == (StoredKey(item, def).value, item.primaryKey)
  {
    match StoredKey(item, def)
    case None => None
    case Some(k) => Some((k, item.primaryKey))
  }

  /** The entries a record puts in table `t` for the secondary keys `entries`. */
  function EntriesFor(item: DatabaseInput, entries: seq<(SecondaryDefinition, KeyValue)>, t: string): (r: set<(Key, Key)>)
    ensures forall p :: p in r ==> p.1 == item.primaryKey
  {
    if entries == [] then {}
    else
      var here := IndexEntry(item, entries[0].0);
      (if entries[0].0.uniqueTableName == t && here.Some? then {here.value} else {}) + EntriesFor(item, entries[1..], t)
  }

  /**
    A unique secondary key whose value already has an entry in its
    multimap (whatever the primary key of that entry).
   */
  predicate Conflicts(s: Store, item: DatabaseInput, def: SecondaryDefinition) {
    && def.options.unique
    && StoredKey(item, def).Some?
    && exists p :: p in Pairs(s, def.uniqueTableName) && p.0 == StoredKey(item, def).value
  }

  /** What one secondary key needs for its entry to be added: a table, a value, and no conflict. */
  predicate CanIndex(s: Store, defs: Definitions, model: DatabaseModel, item: DatabaseInput, def: SecondaryDefinition) {
    && SecondaryTable(defs, model, def).Ok?
    && SecondaryKeyValue(item, def).Ok?
    && !Conflicts(s, item, def)
  }

  /**
    `util_insert_secondary_keys` over `entries`: for each secondary key, its
    table must be defined and the record must have a value; a missing
    optional value is skipped; a unique key whose value is already present
    raises `DuplicateKey`; otherwise the entry is added. The first error
    ends the walk with the entries added so far kept.
   */
  function InsertSecondaryKeys(s: Store, defs: Definitions, model: DatabaseModel, item: DatabaseInput,
                               entries: seq<(SecondaryDefinition, KeyValue)>): (r: (Store, Result<(), Error>))
    ensures r.0.primary == s.primary
    ensures forall t :: Pairs(s, t) <= Pairs(r.0, t) <= Pairs(s, t) + EntriesFor(item, entries, t)
    ensures r.1.Ok? ==> forall t :: Pairs(r.0, t) == Pairs(s, t) + EntriesFor(item, entries, t)
    decreases |entries|
  {
    if entries == [] then (s, Ok(()))
    else
      var def := entries[0].0;
      match SecondaryTable(defs, model, def)
      case Err(e) => (s, Err(e))
      case Ok(t) =>
        match SecondaryKeyValue(item, def)
        case Err(e) => (s, Err(e))
        case Ok(v) =>
          match KeyOf(v)
          case None => InsertSecondaryKeys(s, defs, model, item, entries[1..])
          case Some(k) =>
            if def.options.unique && exists p :: p in Pairs(s, t) && p.0 == k then
              (s, Err(DuplicateKey(def.uniqueTableName)))
            else
              InsertSecondaryKeys(WithPairs(s, t, Pairs(s, t) + {(k, item.primaryKey)}), defs, model, item, entries[1..])
  }

  /**
    With pairwise distinct definitions, the walk succeeds exactly when every
    secondary key can be indexed in the tables as they were before it.
   */
  lemma {:induction false} InsertSecondaryKeysSucceedsIff(s: Store, defs: Definitions, model: DatabaseModel, item: DatabaseInput,
                                                          entries: seq<(SecondaryDefinition, KeyValue)>)
    requires DistinctDefinitions(entries)
    ensures InsertSecondaryKeys(s, defs, model, item, entries).1.Ok?
        <==> forall i :: 0 <= i < |entries| ==> CanIndex(s, defs, model, item, entries[i].0)
    decreases |entries|
  {
    if entries != [] {
      var def := entries[0].0;
      DistinctTail(entries);
      if CanIndex(s, defs, model, item, def) {
        var t := SecondaryTable(defs, model, def).value;
        var v := SecondaryKeyValue(item, def).value;
        var s1 := if KeyOf(v).Some? then WithPairs(s, t, Pairs(s, t) + {(KeyOf(v).value, item.primaryKey)}) else s;
        InsertSecondaryKeysSucceedsIff(s1, defs, model, item, entries[1..]);
        CanIndexAfterStep(s, s1, defs, model, item, entries, t);
      } else {
        assert !(forall i :: 0 <= i < |entries| ==> CanIndex(s, defs, model, item, entries[i].0));
        if def.options.unique && SecondaryTable(defs, model, def).Ok? && SecondaryKeyValue(item, def).Ok? {
          assert SecondaryKeyValue(item, def).value == Lookup(item.secondaryKeys, def).value;
        }
      }
    }
  }

  lemma DistinctTail(entries: seq<(SecondaryDefinition, KeyValue)>)
    requires entries != [] && DistinctDefinitions(entries)
    ensures DistinctDefinitions(entries[1..])
  {
    forall i, j | 0 <= i < j < |entries[1..]| ensures !SameDefinition(entries[1..][i].0, entries[1..][j].0) {
      assert entries[1..][i] == entries[i + 1] && entries[1..][j] == entries[j + 1];
    }
  }

  /**
    After the first key is indexed in its own table, the other keys can be
    indexed exactly when they could before.
   */
  lemma CanIndexAfterStep(s: Store, s1: Store, defs: Definitions, model: DatabaseModel, item: DatabaseInput,
                          entries: seq<(SecondaryDefinition, KeyValue)>, t: string)
    requires entries != [] && DistinctDefinitions(entries)
    requires CanIndex(s, defs, model, item, entries[0].0) && t == SecondaryTable(defs, model, entries[0].0).value
    requires forall u :: u != t ==> Pairs(s1, u) == Pairs(s, u)
    ensures (forall i :: 0 <= i < |entries[1..]| ==> CanIndex(s1, defs, model, item, entries[1..][i].0))
        <==> (forall i :: 0 <= i < |entries| ==> CanIndex(s, defs, model, item, entries[i].0))
  {
    forall i | 1 <= i < |entries| ensures CanIndex(s1, defs, model, item, entries[i].0) == CanIndex(s, defs, model, item, entries[i].0) {
      assert entries[i].0.uniqueTableName != t;
    }
    forall i | 0 <= i < |entries[1..]| ensures entries[1..][i] == entries[i + 1] { }
  }

  /**
    The secondary half of `concrete_remove` over `entries`: each secondary
    key's table must be defined and the record must have a value; a missing
    optional value is skipped; otherwise the record's entry must be present
    and is removed, and a missing one raises `RemoveSecondaryKeyError`.
   */
  function RemoveSecondaryKeys(s: Store, defs: Definitions, model: DatabaseModel, item: DatabaseInput,
                               entries: seq<(SecondaryDefinition, KeyValue)>): (r: (Store, Result<(), Error>))
    ensures r.0.primary == s.primary
    ensures forall t :: Pairs(s, t) - EntriesFor(item, entries, t) <= Pairs(r.0, t) <= Pairs(s, t)
    ensures r.1.Ok? ==> forall t :: Pairs(r.0, t) == Pairs(s, t) - EntriesFor(item, entries, t)
    decreases |entries|
  {
    if entries == [] then (s, Ok(()))
    else
      var def := entries[0].0;
      match SecondaryTable(defs, model, def)
      case Err(e) => (s, Err(e))
      case Ok(t) =>
        match SecondaryKeyValue(item, def)
        case Err(e) => (s, Err(e))
        case Ok(v) =>
          match KeyOf(v)
          case None => RemoveSecondaryKeys(s, defs, model, item, entries[1..])
          case Some(k) =>
            if (k, item.primaryKey) !in Pairs(s, t) then (s, Err(RemoveSecondaryKeyError(def.uniqueTableName)))
            else RemoveSecondaryKeys(WithPairs(s, t, Pairs(s, t) - {(k, item.primaryKey)}), defs, model, item, entries[1..])
  }

  /** What one secondary key needs for its entry to be removed: a table, a value, and the entry present. */
  predicate CanUnindex(s: Store, defs: Definitions, model: DatabaseModel, item: DatabaseInput, def: SecondaryDefinition) {
    && SecondaryTable(defs, model, def).Ok?
    && SecondaryKeyValue(item, def).Ok?
    && (IndexEntry(item, def).Some? ==> IndexEntry(item, def).value in Pairs(s, def.uniqueTableName))
  }

  /**
    With pairwise distinct definitions, the removal succeeds exactly when
    every secondary key's entry can be removed from the tables as they were.
   */
  lemma {:induction false} RemoveSecondaryKeysSucceedsIff(s: Store, defs: Definitions, model: DatabaseModel, item: DatabaseInput,
                                                          entries: seq<(SecondaryDefinition, KeyValue)>)
    requires DistinctDefinitions(entries)
    ensures RemoveSecondaryKeys(s, defs, model, item, entries).1.Ok?
        <==> forall i :: 0 <= i < |entries| ==> CanUnindex(s, defs, model, item, entries[i].0)
    decreases |entries|
  {
    if entries != [] {
      var def := entries[0].0;
      assert DistinctDefinitions(entries[1..]) by {
        forall i, j | 0 <= i < j < |entries[1..]| ensures !SameDefinition(entries[1..][i].0, entries[1..][j].0) {
          assert entries[1..][i] == entries[i + 1] && entries[1..][j] == entries[j + 1];
        }
      }
      if CanUnindex(s, defs, model, item, def) {
        var t := SecondaryTable(defs, model, def).value;
        var v := SecondaryKeyValue(item, def).value;
        var s1 := if KeyOf(v).Some? then WithPairs(s, t, Pairs(s, t) - {(KeyOf(v).value, item.primaryKey)}) else s;
        RemoveSecondaryKeysSucceedsIff(s1, defs, model, item, entries[1..]);
        forall i | 1 <= i < |entries| ensures CanUnindex(s1, defs, model, item, entries[i].0) == CanUnindex(s, defs, model, item, entries[i].0) {
          assert entries[i].0.uniqueTableName != t;
        }
        forall i | 0 <= i < |entries[1..]| ensures entries[1..][i] == entries[i + 1] { }
      } else {
        assert !(forall i :: 0 <= i < |entries| ==> CanUnindex(s, defs, model, item, entries[i].0));
      }
    }
  }
}
