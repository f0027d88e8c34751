/**
  The legacy key layer (src/db_type/key/inner_key_value.rs): the
  `InnerKeyValue` encodings of primitive values, strings, containers and
  options into a `DatabaseInnerKeyValue`, and the translation of a Rust range
  over such values into a range over their bytes.

  The legacy key is a byte string exactly like the current `Key`, and its
  range type has the same six shapes, so both are represented here by
  `Keys.Key` and `Keys.KeyRange`. The legacy range translation adds no 255
  suffix to an inclusive end.
 */
module InnerKeyValue {
  import opened Bytes
  import opened BigEndian
  import opened Text
  import opened Outcome
  import opened Keys
  import KeySerializer

  newtype UInt128 = x: int | 0 <= x < 0x1_0000_0000_0000_0000_0000_0000_0000_0000
  newtype Int128 = x: int | -0x8000_0000_0000_0000_0000_0000_0000_0000 <= x < 0x8000_0000_0000_0000_0000_0000_0000_0000

  /** The integer types with an `InnerKeyValue` implementation through `to_be_bytes`. */
  datatype Primitive =
    | U8(u8: KeySerializer.UInt8)
    | U16(u16: KeySerializer.UInt16)
    | U32(u32: KeySerializer.UInt32)
    | U64(u64: KeySerializer.UInt64)
    | U128(u128: UInt128)
    | I8(i8: KeySerializer.Int8)
    | I16(i16: KeySerializer.Int16)
    | I32(i32: KeySerializer.Int32)
    | I64(i64: KeySerializer.Int64)
    | I128(i128: Int128)

  /** The values with an `InnerKeyValue` implementation. */
  datatype InnerValue =
    | Prim(p: Primitive)
    | CharValue(c: char)
    | StrValue(s: string)
    | RawKey(data: Bytes)
    | UnitValue
    | TupleValue(elements: seq<InnerValue>)
    | ListValue(elements: seq<InnerValue>)
    | OptionValue(option: Option<InnerValue>)

  lemma Pow256Sixteen()
    ensures Pow256(16) == 0x1_0000_0000_0000_0000_0000_0000_0000_0000
  {
    KeySerializer.Pow256Widths();
    assert Pow256(9) == 256 * Pow256(8);
    assert Pow256(10) == 256 * Pow256(9);
    assert Pow256(11) == 256 * Pow256(10);
    assert Pow256(12) == 256 * Pow256(11);
    assert Pow256(13) == 256 * Pow256(12);
    assert Pow256(14) == 256 * Pow256(13);
    assert Pow256(15) == 256 * Pow256(14);
    assert Pow256(16) == 256 * Pow256(15);
  }

  /** The byte width of each integer type. */
  function Width(p: Primitive): (w: nat)
    ensures w in {1, 2, 4, 8, 16}
  {
    match p
    case U8(_) => 1
    case U16(_) => 2
    case U32(_) => 4
    case U64(_) => 8
    case U128(_) => 16
    case I8(_) => 1
    case I16(_) => 2
    case I32(_) => 4
    case I64(_) => 8
    case I128(_) => 16
  }

  predicate IsUnsigned(p: Primitive) {
    p.U8? || p.U16? || p.U32? || p.U64? || p.U128?
  }

  /** The numeric value an integer primitive carries. */
  function NumericValue(p: Primitive): int {
    match p
    case U8(x) => x as int
    case U16(x) => x as int
    case U32(x) => x as int
    case U64(x) => x as int
    case U128(x) => x as int
    case I8(x) => x as int
    case I16(x) => x as int
    case I32(x) => x as int
    case I64(x) => x as int
    case I128(x) => x as int
  }

  /** `self.to_be_bytes()` of an integer primitive. */
  function PrimitiveBytes(p: Primitive): (r: Bytes)
    ensures |r| == Width(p)
  {
    if IsUnsigned(p) then UnsignedBytes(p) else SignedBytes(p)
  }

  function UnsignedBytes(p: Primitive): (r: Bytes)
    requires IsUnsigned(p)
    ensures |r| == Width(p)
  {
    match p
    case U8(x) => KeySerializer.BeU8(x)
    case U16(x) => KeySerializer.BeU16(x)
    case U32(x) => KeySerializer.BeU32(x)
    case U64(x) => KeySerializer.BeU64(x)
    case U128(x) => BeU128(x)
  }

  function SignedBytes(p: Primitive): (r: Bytes)
    requires !IsUnsigned(p)
    ensures |r| == Width(p)
  {
    match p
    case I8(x) => KeySerializer.BeI8(x)
    case I16(x) => KeySerializer.BeI16(x)
    case I32(x) => KeySerializer.BeI32(x)
    case I64(x) => KeySerializer.BeI64(x)
    case I128(x) => BeI128(x)
  }

  function BeU128(x: UInt128): (r: Bytes) ensures |r| == 16 { Pow256Sixteen(); ToBe(x as nat, 16) }
  function BeI128(x: Int128): (r: Bytes) ensures |r| == 16 { Pow256Sixteen(); ToBeSigned(x as int, 16) }

  /**
    `database_inner_key_value()`. Wherever the value has a serde counterpart,
    the bytes are those the serde key serializer writes for it, so stored
    legacy keys stay readable through the current key layer.
   */
  function Encode(v: InnerValue): (r: Bytes)
    ensures AsSerde(v).Some? ==> KeySerializer.ToKey(AsSerde(v).value).data == r
    decreases v, 1
  {
    match v
    case Prim(p) => PrimitiveBytes(p)
    case CharValue(c) => KeySerializer.BeU32(c as int as KeySerializer.UInt32)
    case StrValue(s) => Utf8(s)
    case RawKey(data) => data
    case UnitValue => []
    case TupleValue(xs) => SerdeSequence(KeySerializer.TupleCall, xs); EncodeAll(xs)
    case ListValue(xs) => SerdeSequence(KeySerializer.SeqCall, xs); EncodeAll(xs)
    case OptionValue(None) => []
    case OptionValue(Some(x)) => SerdeSome(x); Encode(x)
  }

  /** The encodings of the elements, concatenated in order: `data.extend(item...)` for each item. */
  function EncodeAll(xs: seq<InnerValue>): (r: Bytes)
    ensures AsSerdeAll(xs).Some? ==> KeySerializer.ConcatKeys(AsSerdeAll(xs).value) == r
    decreases xs, 0
  {
    if xs == [] then []
    else
      assert AsSerdeAll(xs).Some? ==>
        (AsSerdeAll(xs).value[0] == AsSerde(xs[0]).value && AsSerdeAll(xs).value[1..] == AsSerdeAll(xs[1..]).value);
      Encode(xs[0]) + EncodeAll(xs[1..])
  }

  /** The serializer writes a tuple or list of serde counterparts as their keys, concatenated. */
  lemma SerdeSequence(kind: KeySerializer.SequenceKind, xs: seq<InnerValue>)
    ensures AsSerdeAll(xs).Some? ==>
      KeySerializer.ToKey(KeySerializer.Sequence(kind, AsSerdeAll(xs).value)).data == KeySerializer.ConcatKeys(AsSerdeAll(xs).value)
  {
    if AsSerdeAll(xs).Some? {
      KeySerializer.SequencesConcatenate(kind, AsSerdeAll(xs).value);
    }
  }

  /** The serializer writes `Some(x)` as `x`. */
  lemma SerdeSome(x: InnerValue)
    ensures AsSerde(x).Some? ==> KeySerializer.ToKey(KeySerializer.SomeValue(AsSerde(x).value)) == KeySerializer.ToKey(AsSerde(x).value)
  {
    if AsSerde(x).Some? {
      KeySerializer.WrappersAreTransparent("", AsSerde(x).value);
    }
  }

  /** The legacy key of a value. */
  function EncodeKey(v: InnerValue): Key {
    Key(Encode(v))
  }

  lemma {:induction false} EncodeAllAppend(xs: seq<InnerValue>, ys: seq<InnerValue>)
    ensures EncodeAll(xs + ys) == EncodeAll(xs) + EncodeAll(ys)
  {
    if xs == [] {
      assert xs + ys == ys;
    } else {
      assert (xs + ys)[0] == xs[0] && (xs + ys)[1..] == xs[1..] + ys;
      EncodeAllAppend(xs[1..], ys);
    }
  }

  /** Unsigned integers are written as exactly their width in big-endian bytes, and read back. */
  lemma UnsignedIsBigEndian(p: Primitive)
    requires IsUnsigned(p)
    ensures |Encode(Prim(p))| == Width(p)
    ensures FromBe(Encode(Prim(p))) == NumericValue(p)
  {
    KeySerializer.Pow256Widths();
    Pow256Sixteen();
    FromBeToBe(NumericValue(p), Width(p));
  }

  /** Signed integers are written as their two's-complement pattern, and read back. */
  lemma SignedIsTwosComplement(p: Primitive)
    requires !IsUnsigned(p)
    ensures |Encode(Prim(p))| == Width(p)
    ensures FromBeSigned(Encode(Prim(p))) == NumericValue(p)
  {
    KeySerializer.Pow256Widths();
    Pow256Sixteen();
    FromBeSignedToBeSigned(NumericValue(p), Width(p));
  }

  /** For one unsigned width, key order is numeric order. */
  lemma UnsignedKeyOrder(a: Primitive, b: Primitive)
    requires IsUnsigned(a) && Width(a) == Width(b) && IsUnsigned(b)
    ensures Less(Encode(Prim(a)), Encode(Prim(b))) <==> NumericValue(a) < NumericValue(b)
  {
    KeySerializer.Pow256Widths();
    Pow256Sixteen();
    ToBeOrder(NumericValue(a), NumericValue(b), Width(a));
  }

  /** A `char` is the 4-byte big-endian `u32` of its code point. */
  lemma CharIsCodePoint(c: char)
    ensures Encode(CharValue(c)) == Encode(Prim(U32(c as int as KeySerializer.UInt32)))
    ensures |Encode(CharValue(c))| == 4 && FromBe(Encode(CharValue(c))) == c as int
  {
    UnsignedIsBigEndian(U32(c as int as KeySerializer.UInt32));
  }

  /** `String` and `&str` are their UTF-8 bytes, which decode back to the string. */
  lemma StringIsUtf8(s: string)
    ensures Encode(StrValue(s)) == Utf8(s)
    ensures DecodeUtf8(Encode(StrValue(s))) == Some(s)
  {
    DecodeUtf8OfUtf8(s);
  }

  /** Tuples, `Vec` and slices are the in-order concatenation of their elements. */
  lemma ContainersConcatenate(xs: seq<InnerValue>, ys: seq<InnerValue>)
    ensures Encode(TupleValue(xs)) == Encode(ListValue(xs)) == EncodeAll(xs)
    ensures Encode(ListValue(xs + ys)) == Encode(ListValue(xs)) + Encode(ListValue(ys))
  {
    EncodeAllAppend(xs, ys);
  }

  /** `()` and `None` are empty; `Some(v)` is exactly `v`; a `DatabaseInnerKeyValue` is cloned. */
  lemma OptionAndUnitAreTransparent(x: InnerValue, data: Bytes)
    ensures Encode(UnitValue) == [] && Encode(OptionValue(None)) == []
    ensures Encode(OptionValue(Some(x))) == Encode(x)
    ensures Encode(RawKey(data)) == data
  {
  }

  /** The bytes as a slice of `u8`, one primitive per byte. */
  function ByteValues(data: Bytes): (r: seq<InnerValue>)
    ensures |r| == |data|
  {
    if data == [] then [] else [Prim(U8(data[0] as int as KeySerializer.UInt8))] + ByteValues(data[1..])
  }

  /**
    `from_bytes` rebuilds a key as the `InnerKeyValue` of the stored slice of
    `u8`; since each `u8` is its own single byte, this is the identity.
   */
  lemma {:induction false} FromBytesIsIdentity(data: Bytes)
    ensures Encode(ListValue(ByteValues(data))) == data
  {
    if data != [] {
      var xs := ByteValues(data);
      assert xs[0] == Prim(U8(data[0] as int as KeySerializer.UInt8)) && xs[1..] == ByteValues(data[1..]);
      KeySerializer.Pow256Widths();
      assert Encode(xs[0]) == ToBe(data[0] as nat, 1) == [data[0]];
      FromBytesIsIdentity(data[1..]);
      assert data == [data[0]] + data[1..];
    }
  }

  /**
    Reference semantics of `DatabaseInnerKeyValueRange::new` at the level of
    keys: the start is inclusive whatever its kind; an inclusive end is
    inclusive only when there is a start, and exclusive otherwise.
   */
  ghost predicate LegacyRangeAdmits<T>(start: Bound<T>, end: Bound<T>, toKey: T -> Key, k: Key) {
    && (match start
        case Included(a) => LessEq(toKey(a).data, k.data)
        case Excluded(a) => LessEq(toKey(a).data, k.data)
        case Unbounded => true)
    && (match end
        case Included(b) => if start.Unbounded? then Less(k.data, toKey(b).data) else LessEq(k.data, toKey(b).data)
        case Excluded(b) => Less(k.data, toKey(b).data)
        case Unbounded => true)
  }

  /** `DatabaseInnerKeyValueRange::new(bounds)`, each bound value turned into a key by `toKey`. */
  function NewRange<T>(start: Bound<T>, end: Bound<T>, toKey: T -> Key): (r: KeyRange)
    ensures forall k :: Contains(r, k) <==> LegacyRangeAdmits(start, end, toKey, k)
  {
    match (start, end)
    case (Included(a), Included(b)) => RangeInclusive(toKey(a), toKey(b))
    case (Included(a), Excluded(b)) => Range(toKey(a), toKey(b))
    case (Included(a), Unbounded) => RangeFrom(toKey(a))
    case (Excluded(a), Included(b)) => RangeInclusive(toKey(a), toKey(b))
    case (Excluded(a), Excluded(b)) => Range(toKey(a), toKey(b))
    case (Excluded(a), Unbounded) => RangeFrom(toKey(a))
    case (Unbounded, Included(b)) => RangeTo(toKey(b))
    case (Unbounded, Excluded(b)) => RangeTo(toKey(b))
    case (Unbounded, Unbounded) => RangeFull
  }

  /**
    The legacy and current translations agree except on an inclusive end
    after a start bound, where the current one extends the end key by the
    suffix byte 255.
   */
  lemma AgreesWithCurrentTranslation<T>(start: Bound<T>, end: Bound<T>, toKey: T -> Key)
    ensures end.Included? && !start.Unbounded? ==>
      Keys.NewRange(start, end, toKey)
        == RangeInclusive(NewRange(start, end, toKey).start, Extend(NewRange(start, end, toKey).end, InclusiveEndSuffix))
    ensures !(end.Included? && !start.Unbounded?) ==> Keys.NewRange(start, end, toKey) == NewRange(start, end, toKey)
  {
  }

  /**
    Without the suffix, `a..=b` stops at the end key itself: no key that
    strictly extends the end key is visited.
   */
  lemma InclusiveEndStopsAtEnd<T>(a: T, b: T, toKey: T -> Key, tail: Bytes)
    requires LessEq(toKey(a).data, toKey(b).data)
    ensures Contains(NewRange(Included(a), Included(b), toKey), Key(toKey(b).data + tail)) <==> tail == []
  {
    var s, e := toKey(a).data, toKey(b).data;
    AppendIsGreaterOrEqual(e, tail);
    LessEqTransitive(s, e, e + tail);
    CompareAfterCommonPrefix(e, tail, []);
    assert e + [] == e;
  }

  /** The module's own test: over a table holding only the key of `0u32`, `0..2` visits one row. */
  lemma RangeOverSingleRow()
    ensures
      var table := {EncodeKey(Prim(U32(0)))};
      var r := NewRange(Included(Prim(U32(0))), Excluded(Prim(U32(2))), EncodeKey);
      (set k | k in table && Contains(r, k)) == table && |table| == 1
  {
    var zero := EncodeKey(Prim(U32(0)));
    UnsignedKeyOrder(U32(0), U32(2));
    CompareEqualIff(zero.data, zero.data);
  }
  /**
    The serde data-model calls the same Rust value makes when it goes through
    the current key serializer, or `None` when it cannot: 128-bit integers
    are not supported by that serializer, and a legacy key is not a serde
    value.
   */
  function AsSerde(v: InnerValue): Option<KeySerializer.Value>
    decreases v, 1
  {
    match v
    case Prim(p) =>
      (match PrimitiveAsSerde(p)
       case Some(x) => Some(KeySerializer.Scalar(x))
       case None => None)
    case CharValue(c) => Some(KeySerializer.Scalar(KeySerializer.Char(c)))
    case StrValue(s) => Some(KeySerializer.Scalar(KeySerializer.Str(s)))
    case RawKey(_) => None
    case UnitValue => Some(KeySerializer.Scalar(KeySerializer.Unit))
    case TupleValue(xs) =>
      (match AsSerdeAll(xs)
       case Some(ys) => Some(KeySerializer.Sequence(KeySerializer.TupleCall, ys))
       case None => None)
    case ListValue(xs) =>
      (match AsSerdeAll(xs)
       case Some(ys) => Some(KeySerializer.Sequence(KeySerializer.SeqCall, ys))
       case None => None)
    case OptionValue(None) => Some(KeySerializer.Scalar(KeySerializer.NoneValue))
    case OptionValue(Some(x)) =>
      (match AsSerde(x)
       case Some(y) => Some(KeySerializer.SomeValue(y))
       case None => None)
  }

  function AsSerdeAll(xs: seq<InnerValue>): (r: Option<seq<KeySerializer.Value>>)
    ensures r.Some? ==> |r.value| == |xs|
    decreases xs, 0
  {
    if xs == [] then Some([])
    else match (AsSerde(xs[0]), AsSerdeAll(xs[1..]))
      case (Some(y), Some(ys)) => Some([y] + ys)
      case _ => None
  }

  function PrimitiveAsSerde(p: Primitive): Option<KeySerializer.Scalar> {
    match p
    case U8(x) => Some(KeySerializer.U8(x))
    case U16(x) => Some(KeySerializer.U16(x))
    case U32(x) => Some(KeySerializer.U32(x))
    case U64(x) => Some(KeySerializer.U64(x))
    case U128(_) => None
    case I8(x) => Some(KeySerializer.I8(x))
    case I16(x) => Some(KeySerializer.I16(x))
    case I32(x) => Some(KeySerializer.I32(x))
    case I64(x) => Some(KeySerializer.I64(x))
    case I128(_) => None
  }
}
