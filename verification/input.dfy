/**
  The write-side view of a record (src/db_type/input.rs): its primary key,
  the value of each of its secondary keys, and its encoded payload; and the
  key actually stored in a secondary table for one of those values.
 */
module Input {
  import opened Bytes
  import opened Outcome
  import Keys
  import opened KeyDefinitions
  import opened KeyValues
  import opened Errors

  /**
    `DatabaseInput`. The secondary-key map is a sequence in the map's
    iteration order; lookups go by table name, as the map's `Eq`/`Hash` do.
   */
  datatype DatabaseInput = DatabaseInput(
    primaryKey: Keys.Key,
    secondaryKeys: seq<(SecondaryDefinition, KeyValue)>,
    value: Bytes)

  /** `HashMap::get(def)`: the entry whose definition has the same table name. */
  function Lookup(entries: seq<(SecondaryDefinition, KeyValue)>, def: SecondaryDefinition): (r: Option<KeyValue>)
    ensures r.None? <==> forall i :: 0 <= i < |entries| ==> !SameDefinition(entries[i].0, def)
    ensures r.Some? ==> exists i :: 0 <= i < |entries| && SameDefinition(entries[i].0, def) && entries[i].1 == r.value
  {
    if entries == [] then None
    else if SameDefinition(entries[0].0, def) then Some(entries[0].1)
    else
      var r := Lookup(entries[1..], def);
      assert forall i :: 0 < i < |entries| ==> entries[i] == entries[1..][i - 1];
      r
  }

  /**
    `secondary_key_value(def)`: the stored key for `def`. It fails with
    `SecondaryKeyDefinitionNotFound` (empty table name) when the record has no
    value for `def`. For a non-unique `def` (by the argument's own options)
    the key is followed by the primary key, so that every record gets its own
    entry; a missing optional key stays missing. A unique key is returned as is.
   */
  function SecondaryKeyValue(item: DatabaseInput, def: SecondaryDefinition): (r: Result<KeyValue, Error>)
    ensures r.Err? <==> Lookup(item.secondaryKeys, def).None?
    ensures r.Err? ==> r.error == SecondaryKeyDefinitionNotFound("", def.uniqueTableName)
    ensures r.Ok? && def.options.unique ==> Some(r.value) == Lookup(item.secondaryKeys, def)
    ensures r.Ok? && !def.options.unique ==>
      var stored := Lookup(item.secondaryKeys, def).value;
      && r.value.Default? == stored.Default?
      && (KeyOf(r.value).None? <==> KeyOf(stored).None?)
      && (KeyOf(stored).Some? ==> KeyOf(r.value) == Some(CompositeKey(KeyOf(stored).value, item.primaryKey)))
  {
    match Lookup(item.secondaryKeys, def)
    case None => Err(SecondaryKeyDefinitionNotFound("", def.uniqueTableName))
    case Some(stored) =>
      if !def.options.unique then Ok(MapKey(stored, k => CompositeKey(k, item.primaryKey)))
      else Ok(stored)
  }

  /**
    What the derive macro provides for a model type `T`: its primary key,
    its secondary keys and its payload codec, as functions.
   */
  datatype InputModel<!T> = InputModel(
    primaryKeyOf: T -> Keys.Key,
    secondaryKeysOf: T -> seq<(SecondaryDefinition, KeyValue)>,
    encode: T -> Bytes,
    decode: Bytes -> Result<T, Error>)

  /**
    `Input::to_item`: the record's primary key, its full secondary-key map and
    its encoded payload; the payload decodes back to the record when the
    codec round-trips.
   */
  function ToItem<T>(m: InputModel<T>, x: T): (r: DatabaseInput)
    ensures r.primaryKey == m.primaryKeyOf(x) && r.secondaryKeys == m.secondaryKeysOf(x)
    ensures r.value == m.encode(x)
    ensures m.decode(m.encode(x)) == Ok(x) ==> m.decode(r.value) == Ok(x)
  {
    DatabaseInput(m.primaryKeyOf(x), m.secondaryKeysOf(x), m.encode(x))
  }

  /** The key a secondary table stores for a record's value of `def`: `None` for a missing optional key. */
  function StoredKey(item: DatabaseInput, def: SecondaryDefinition): Option<Keys.Key> {
    match SecondaryKeyValue(item, def)
    case Err(_) => None
    case Ok(v) => KeyOf(v)
  }

  /** Non-unique keys of two records with primary keys of the same length never collide unless both parts agree. */
  lemma NonUniqueKeysSeparateRecords(a: DatabaseInput, b: DatabaseInput, def: SecondaryDefinition)
    requires !def.options.unique
    requires |a.primaryKey.data| == |b.primaryKey.data|
    requires StoredKey(a, def).Some? && StoredKey(a, def) == StoredKey(b, def)
    ensures a.primaryKey == b.primaryKey
    ensures KeyOf(Lookup(a.secondaryKeys, def).value) == KeyOf(Lookup(b.secondaryKeys, def).value)
  {
    var ka := KeyOf(Lookup(a.secondaryKeys, def).value).value;
    var kb := KeyOf(Lookup(b.secondaryKeys, def).value).value;
    CompositeKeyInjective(ka, a.primaryKey, kb, b.primaryKey);
  }
}
