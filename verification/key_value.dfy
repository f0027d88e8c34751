/**
  The value a record gives for one of its secondary keys
  (src/db_type/key/key_value.rs): a key for a required secondary key, or
  possibly no key for an optional one.
 */
module KeyValues {
  import opened Outcome
  import Keys
  import opened KeyDefinitions

  /** `DatabaseKeyValue` (named `KeyEntry` in the newer transaction code). */
  datatype KeyValue = Default(key: Keys.Key) | Optional(value: Option<Keys.Key>)

  /** The key the entry carries, if any. */
  function KeyOf(v: KeyValue): (r: Option<Keys.Key>)
    ensures r.None? <==> v == Optional(None)
  {
    match v
    case Default(k) => Some(k)
    case Optional(o) => o
  }

  /** Replaces the carried key, if any, by `f` of it, keeping the shape of the entry. */
  function MapKey(v: KeyValue, f: Keys.Key -> Keys.Key): (r: KeyValue)
    ensures r.Default? <==> v.Default?
    ensures KeyOf(r).None? <==> KeyOf(v).None?
    ensures KeyOf(v).Some? ==> KeyOf(r) == Some(f(KeyOf(v).value))
  {
    match v
    case Default(k) => Default(f(k))
    case Optional(o) => Optional(if o.Some? then Some(f(o.value)) else None)
  }

  /** The definitions of a secondary-key map are pairwise distinct, as the keys of a hash map are. */
  predicate DistinctDefinitions(entries: seq<(SecondaryDefinition, KeyValue)>) {
    forall i, j :: 0 <= i < j < |entries| ==> !SameDefinition(entries[i].0, entries[j].0)
  }
}
