/**
  The key layer of the redb 1 file format (src/db_type/key/inner_key_value_redb1.rs),
  kept to read databases written before the move to redb 2: its own key type,
  its own copy of the value encodings and range translation, and the
  conversion of its keys into the current `Key`.
 */
module InnerKeyValueRedb1 {
  import opened Bytes
  import opened Text
  import opened Outcome
  import Keys
  import KeySerializer
  import Legacy = InnerKeyValue

  /** The redb 1 `DatabaseInnerKeyValue(Vec<u8>)`. */
  datatype Redb1Key = Redb1Key(data: Bytes)

  /** `extend`: the other key's bytes are appended. */
  function Extend(k: Redb1Key, other: Redb1Key): (r: Redb1Key)
    ensures |r.data| == |k.data| + |other.data|
    ensures StartsWith(r.data, k.data) && r.data[|k.data|..] == other.data
  {
    Redb1Key(k.data + other.data)
  }

  /** `From<DatabaseInnerKeyValue> for Key`: the bytes move over unchanged. */
  function IntoKey(k: Redb1Key): (r: Keys.Key)
    ensures r.data == k.data
  {
    Keys.Key(k.data)
  }

  /** Conversion is injective and commutes with extension. */
  lemma IntoKeyPreservesStructure(a: Redb1Key, b: Redb1Key)
    ensures IntoKey(a) == IntoKey(b) <==> a == b
    ensures IntoKey(Extend(a, b)) == Keys.Extend(IntoKey(a), IntoKey(b))
  {
  }

  /**
    `database_inner_key_value()` as this file writes it. The value shapes are
    those of the legacy layer; the `Option` case is a `match` here rather
    than `map_or_else`.
   */
  function Encode(v: Legacy.InnerValue): (r: Redb1Key)
    ensures r.data == Legacy.Encode(v)
    decreases v, 1
  {
    match v
    case Prim(p) => Redb1Key(Legacy.PrimitiveBytes(p))
    case CharValue(c) => Redb1Key(KeySerializer.BeU32(c as int as KeySerializer.UInt32))
    case StrValue(s) => Redb1Key(Utf8(s))
    case RawKey(data) => Redb1Key(data)
    case UnitValue => Redb1Key([])
    case TupleValue(xs) => EncodeAll(xs)
    case ListValue(xs) => EncodeAll(xs)
    case OptionValue(o) =>
      match o
      case Some(x) => Encode(x)
      case None => Redb1Key([])
  }

  /** Starting from an empty buffer, extend by each element's encoding in order. */
  function EncodeAll(xs: seq<Legacy.InnerValue>): (r: Redb1Key)
    ensures r.data == Legacy.EncodeAll(xs)
    decreases xs, 0
  {
    if xs == [] then Redb1Key([]) else Extend(Encode(xs[0]), EncodeAll(xs[1..]))
  }

  /** Converting an encoded value into the current key gives the legacy key of that value. */
  lemma IntoKeyOfEncode(v: Legacy.InnerValue)
    ensures IntoKey(Encode(v)) == Legacy.EncodeKey(v)
  {
  }

  /** `Key::compare` of redb 1: the bytes, compared lexicographically. */
  function CompareKeys(a: Redb1Key, b: Redb1Key): (r: Ordering)
    ensures r == EqualTo <==> a == b
    ensures r == LessThan <==> LexBefore(a.data, b.data)
    ensures r == Keys.CompareKeys(IntoKey(a), IntoKey(b))
  {
    CompareEqualIff(a.data, b.data);
    CompareMatchesLexBefore(a.data, b.data);
    Compare(a.data, b.data)
  }

  /** `DatabaseInnerKeyValueRange` of redb 1. */
  datatype Redb1Range =
    | Range(start: Redb1Key, end: Redb1Key)
    | RangeInclusive(start: Redb1Key, end: Redb1Key)
    | RangeFrom(start: Redb1Key)
    | RangeTo(end: Redb1Key)
    | RangeToInclusive(end: Redb1Key)
    | RangeFull

  /** The same range over current keys. */
  function IntoKeyRange(r: Redb1Range): Keys.KeyRange {
    match r
    case Range(s, e) => Keys.KeyRange.Range(IntoKey(s), IntoKey(e))
    case RangeInclusive(s, e) => Keys.KeyRange.RangeInclusive(IntoKey(s), IntoKey(e))
    case RangeFrom(s) => Keys.KeyRange.RangeFrom(IntoKey(s))
    case RangeTo(e) => Keys.KeyRange.RangeTo(IntoKey(e))
    case RangeToInclusive(e) => Keys.KeyRange.RangeToInclusive(IntoKey(e))
    case RangeFull => Keys.KeyRange.RangeFull
  }

  /** `DatabaseInnerKeyValueRange::new(bounds)` of redb 1. */
  function NewRange<T>(start: Keys.Bound<T>, end: Keys.Bound<T>, toKey: T -> Redb1Key): (r: Redb1Range)
    ensures forall k ::
      Keys.Contains(IntoKeyRange(r), IntoKey(k)) <==> Legacy.LegacyRangeAdmits(start, end, x => IntoKey(toKey(x)), IntoKey(k))
  {
    match (start, end)
    case (Included(a), Included(b)) => RangeInclusive(toKey(a), toKey(b))
    case (Included(a), Excluded(b)) => Range(toKey(a), toKey(b))
    case (Included(a), Unbounded) => RangeFrom(toKey(a))
    case (Excluded(a), Included(b)) => RangeInclusive(toKey(a), toKey(b))
    case (Excluded(a), Excluded(b)) => Range(toKey(a), toKey(b))
    case (Excluded(a), Unbounded) => RangeFrom(toKey(a))
    case (Unbounded, Included(b)) => RangeTo(toKey(b))
    case (Unbounded, Excluded(b)) => RangeTo(toKey(b))
    case (Unbounded, Unbounded) => RangeFull
  }

  /** The redb 1 range translation is the legacy one: same nine cases, no 255 suffix. */
  lemma NewRangeMatchesLegacy<T>(start: Keys.Bound<T>, end: Keys.Bound<T>, toKey: T -> Redb1Key)
    ensures IntoKeyRange(NewRange(start, end, toKey)) == Legacy.NewRange(start, end, x => IntoKey(toKey(x)))
  {
  }
}
