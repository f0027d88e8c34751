/**
  The point reads every transaction offers
  (src/transaction/internal/private_readable_transaction.rs): a record by
  primary key, a record by unique secondary key, and the row count of a
  model's table.
 */
module Reads {
  import opened Outcome
  import opened Sorting
  import opened Keys
  import opened KeyDefinitions
  import opened Errors
  import opened Input
  import opened WatchEvents
  import opened ModelDefinition
  import opened Tables
  import opened IndexMaintenance
  import InternalRw

  /** `get_by_primary_key`: the payload stored under `key`, if any, once the table is found. */
  function GetByPrimaryKey(s: Store, defs: Definitions, model: DatabaseModel, key: Key): (r: Result<Option<Output>, Error>)
    ensures r.Err? <==> model.primaryKey.uniqueTableName !in defs
    ensures r.Err? ==> r.error == TableDefinitionNotFound(model.primaryKey.uniqueTableName)
    ensures r.Ok? ==> (r.value.Some? <==> key in Rows(s, model.primaryKey.uniqueTableName))
    ensures r.Ok? && r.value.Some? ==> r.value.value.data == Rows(s, model.primaryKey.uniqueTableName)[key]
  {
    match PrimaryTable(defs, model)
    case Err(e) => Err(e)
    case Ok(table) =>
      if key in Rows(s, table) then Ok(Some(Output(Rows(s, table)[key]))) else Ok(None)
  }

  /** A successful insert is read back by its primary key. */
  lemma GetAfterInsert(s: Store, defs: Definitions, model: DatabaseModel, item: DatabaseInput)
    requires InternalRw.Insert(s, defs, model, item).1.Ok?
    ensures GetByPrimaryKey(InternalRw.Insert(s, defs, model, item).0, defs, model, item.primaryKey) == Ok(Some(Output(item.value)))
  {
  }

  /** After a successful removal the primary key reads as absent. */
  lemma GetAfterRemove(s: Store, defs: Definitions, model: DatabaseModel, item: DatabaseInput)
    requires InternalRw.Remove(s, defs, model, item).1.Ok?
    ensures GetByPrimaryKey(InternalRw.Remove(s, defs, model, item).0, defs, model, item.primaryKey) == Ok(None)
  {
  }

  /** Whether a multimap entry carries secondary key `key`. */
  function HasSecondaryKey(key: Key): ((Key, Key)) -> bool {
    (p: (Key, Key)) => p.0 == key
  }

  /**
    What `get` on the secondary table of a unique key finds for `key`. The
    lookup itself is written against a plain table, where a key has at most
    one primary key; the store here keeps every secondary table in the
    multimap layout a write transaction opens, where a key can hold several.
    The two agree on a unique index, where a key has one entry; should
    there be several, the least primary key in storage order is found.
   */
  function PrimaryKeyFor(pairs: set<(Key, Key)>, key: Key): (r: Option<Key>)
    ensures r.None? <==> forall p :: p in pairs ==> p.0 != key
    ensures r.Some? ==> (key, r.value) in pairs
  {
    var hits := Filter(SortedPairs(pairs), HasSecondaryKey(key));
    if hits == [] then None
    else
      assert hits[0] in hits;
      Some(hits[0].1)
  }

  /**
    `get_by_secondary_key`: the key must be registered as unique in the model
    (whatever the caller's definition says), its table must be defined; a
    key without entry reads as absent, and an entry whose record is missing
    raises `PrimaryKeyNotFound`.
   */
  function GetBySecondaryKey(s: Store, defs: Definitions, model: DatabaseModel, def: SecondaryDefinition, key: Key)
    : (r: Result<Option<Output>, Error>)
    ensures CheckSecondaryOptions(model, def, IsUnique).Err? ==> r == Err(CheckSecondaryOptions(model, def, IsUnique).error)
    ensures CheckSecondaryOptions(model, def, IsUnique).Ok? && SecondaryTable(defs, model, def).Err?
        ==> r == Err(SecondaryTable(defs, model, def).error)
    ensures r.Ok? ==> (r.value.None? <==> forall p :: p in Pairs(s, def.uniqueTableName) ==> p.0 != key)
    ensures r.Ok? && r.value.Some? ==>
      exists pk :: (key, pk) in Pairs(s, def.uniqueTableName) && pk in Rows(s, model.primaryKey.uniqueTableName)
                   && r.value.value.data == Rows(s, model.primaryKey.uniqueTableName)[pk]
  {
    match CheckSecondaryOptions(model, def, IsUnique)
    case Err(e) => Err(e)
    case Ok(_) =>
      match SecondaryTable(defs, model, def)
      case Err(e) => Err(e)
      case Ok(t) =>
        match PrimaryKeyFor(Pairs(s, t), key)
        case None => Ok(None)
        case Some(pk) =>
          match GetByPrimaryKey(s, defs, model, pk)
          case Err(e) => Err(e)
          case Ok(None) => Err(PrimaryKeyNotFound)
          case Ok(Some(v)) => Ok(Some(v))
  }

  /** When the key has exactly one entry and its record is stored, the lookup returns that record. */
  lemma GetBySecondaryKeyFindsRecord(s: Store, defs: Definitions, model: DatabaseModel, def: SecondaryDefinition,
                                     key: Key, pk: Key)
    requires CheckSecondaryOptions(model, def, IsUnique).Ok? && SecondaryTable(defs, model, def).Ok?
    requires forall p :: p in Pairs(s, def.uniqueTableName) && p.0 == key ==> p.1 == pk
    requires (key, pk) in Pairs(s, def.uniqueTableName) && pk in Rows(s, model.primaryKey.uniqueTableName)
    ensures GetBySecondaryKey(s, defs, model, def, key) == Ok(Some(Output(Rows(s, model.primaryKey.uniqueTableName)[pk])))
  {
  }

  /** An entry whose record is gone makes the lookup fail with `PrimaryKeyNotFound`. */
  lemma GetBySecondaryKeyDanglingEntry(s: Store, defs: Definitions, model: DatabaseModel, def: SecondaryDefinition,
                                       key: Key, pk: Key)
    requires CheckSecondaryOptions(model, def, IsUnique).Ok? && SecondaryTable(defs, model, def).Ok?
    requires forall p :: p in Pairs(s, def.uniqueTableName) && p.0 == key ==> p.1 == pk
    requires (key, pk) in Pairs(s, def.uniqueTableName) && pk !in Rows(s, model.primaryKey.uniqueTableName)
    ensures GetBySecondaryKey(s, defs, model, def, key) == Err(PrimaryKeyNotFound)
  {
  }

  /** `primary_len`: the number of rows of the model's table. */
  function PrimaryLen(s: Store, defs: Definitions, model: DatabaseModel): (r: Result<nat, Error>)
    ensures r.Err? <==> model.primaryKey.uniqueTableName !in defs
    ensures r.Err? ==> r.error == TableDefinitionNotFound(model.primaryKey.uniqueTableName)
    ensures r.Ok? ==> r.value == |Rows(s, model.primaryKey.uniqueTableName)|
  {
    match PrimaryTable(defs, model)
    case Err(e) => Err(e)
    case Ok(table) => Ok(|Rows(s, table)|)
  }

  /** A successful insert adds one row; a successful removal takes one away. */
  lemma PrimaryLenCountsWrites(s: Store, defs: Definitions, model: DatabaseModel, item: DatabaseInput)
    requires model.primaryKey.uniqueTableName in defs
    ensures InternalRw.Insert(s, defs, model, item).1.Ok?
        ==> PrimaryLen(InternalRw.Insert(s, defs, model, item).0, defs, model).value == PrimaryLen(s, defs, model).value + 1
    ensures InternalRw.Remove(s, defs, model, item).1.Ok?
        ==> PrimaryLen(InternalRw.Remove(s, defs, model, item).0, defs, model).value + 1 == PrimaryLen(s, defs, model).value
  {
  }
}
