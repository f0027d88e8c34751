/**
  The serde serializer that turns a key value into key bytes
  (src/db_type/key/key_serializer.rs), and `ToKey` (src/db_type/key/key.rs).

  A value is given as the tree of serde data-model calls its `Serialize`
  implementation makes. Integers are written big-endian at their width,
  strings and byte slices raw, containers as the concatenation of their
  elements, enum variants as their 4-byte index followed by their payload.
  Nothing records lengths or boundaries.
 */
module KeySerializer {
  import opened Bytes
  import opened BigEndian
  import opened Text
  import opened Keys
  import opened Outcome

  newtype UInt8 = x: int | 0 <= x < 0x100
  newtype UInt16 = x: int | 0 <= x < 0x1_0000
  newtype UInt32 = x: int | 0 <= x < 0x1_0000_0000
  newtype UInt64 = x: int | 0 <= x < 0x1_0000_0000_0000_0000
  newtype Int8 = x: int | -0x80 <= x < 0x80
  newtype Int16 = x: int | -0x8000 <= x < 0x8000
  newtype Int32 = x: int | -0x8000_0000 <= x < 0x8000_0000
  newtype Int64 = x: int | -0x8000_0000_0000_0000 <= x < 0x8000_0000_0000_0000

  /** The serde data-model calls a key value's `Serialize` implementation makes. */
  datatype Value =
    | Scalar(scalar: Scalar)
    | SomeValue(inner: Value)
    | NewtypeStruct(name: string, inner: Value)
    | Sequence(kind: SequenceKind, elements: seq<Value>)
    | MapValue(entries: seq<(Value, Value)>)
    | Struct(name: string, fields: seq<(string, Value)>)
    | Variant(name: string, variantIndex: UInt32, variant: string, payload: Payload)

  /** The calls that write their bytes directly and make no nested serde call. */
  datatype Scalar =
    | Bool(b: bool)
    | I8(i8: Int8)
    | I16(i16: Int16)
    | I32(i32: Int32)
    | I64(i64: Int64)
    | U8(u8: UInt8)
    | U16(u16: UInt16)
    | U32(u32: UInt32)
    | U64(u64: UInt64)
    | Char(c: char)
    | Str(s: string)
    | ByteSlice(bytes: Bytes)
    | NoneValue
    | Unit
    | UnitStruct(name: string)

  /** `serialize_seq`, `serialize_tuple` and `serialize_tuple_struct`, which all write their elements in order. */
  datatype SequenceKind = SeqCall | TupleCall | TupleStructCall(name: string)

  /** What follows the index of an enum variant: unit, newtype, tuple or struct variant. */
  datatype Payload =
    | NoPayload
    | NewtypePayload(inner: Value)
    | TuplePayload(elements: seq<Value>)
    | StructPayload(fields: seq<(string, Value)>)

  function Tuple(xs: seq<Value>): Value {
    Sequence(TupleCall, xs)
  }

  lemma Pow256Widths()
    ensures Pow256(1) == 0x100 && Pow256(2) == 0x1_0000
    ensures Pow256(4) == 0x1_0000_0000 && Pow256(8) == 0x1_0000_0000_0000_0000
  {
    assert Pow256(1) == 256 * Pow256(0);
    assert Pow256(2) == 256 * Pow256(1);
    assert Pow256(3) == 256 * Pow256(2);
    assert Pow256(4) == 256 * Pow256(3);
    assert Pow256(5) == 256 * Pow256(4);
    assert Pow256(6) == 256 * Pow256(5);
    assert Pow256(7) == 256 * Pow256(6);
    assert Pow256(8) == 256 * Pow256(7);
  }

  /** `to_be_bytes` of each integer type the serializer accepts. */
  function BeU8(x: UInt8): (r: Bytes) ensures |r| == 1 { Pow256Widths(); ToBe(x as nat, 1) }
  function BeU16(x: UInt16): (r: Bytes) ensures |r| == 2 { Pow256Widths(); ToBe(x as nat, 2) }
  function BeU32(x: UInt32): (r: Bytes) ensures |r| == 4 { Pow256Widths(); ToBe(x as nat, 4) }
  function BeU64(x: UInt64): (r: Bytes) ensures |r| == 8 { Pow256Widths(); ToBe(x as nat, 8) }
  function BeI8(x: Int8): (r: Bytes) ensures |r| == 1 { Pow256Widths(); ToBeSigned(x as int, 1) }
  function BeI16(x: Int16): (r: Bytes) ensures |r| == 2 { Pow256Widths(); ToBeSigned(x as int, 2) }
  function BeI32(x: Int32): (r: Bytes) ensures |r| == 4 { Pow256Widths(); ToBeSigned(x as int, 4) }
  function BeI64(x: Int64): (r: Bytes) ensures |r| == 8 { Pow256Widths(); ToBeSigned(x as int, 8) }

  /** `KeySerializer(Key)`: the key built so far. */
  datatype Serializer = Serializer(key: Key) {
    /** `self.0.extend(&Key::new(bytes))` */
    function Append(bytes: Bytes): (r: Serializer)
      ensures r.key.data == key.data + bytes
    {
      Serializer(Extend(key, Key(bytes)))
    }
  }

  /** `KeySerializer::new()`: an empty key. */
  function NewSerializer(): (s: Serializer)
    ensures s.key.data == []
  {
    Serializer(Key([]))
  }

  /** `serialize_u32`, which variant indices also go through. */
  function SerializeU32(s: Serializer, x: UInt32): Serializer {
    s.Append(BeU32(x))
  }

  /**
    The bytes a scalar call appends: `bool` as the `u32` 0 or 1, `char` as
    the `u32` of its code point, integers big-endian at their width, strings
    as UTF-8, byte slices raw, and nothing for `None` and the unit types.
   */
  function ScalarBytes(x: Scalar): (r: Bytes)
    ensures x.Bool? || x.Char? || x.U32? || x.I32? ==> |r| == 4
    ensures x.NoneValue? || x.Unit? || x.UnitStruct? ==> r == []
  {
    match x
    case Bool(b) => BeU32(if b then 1 else 0)
    case I8(n) => BeI8(n)
    case I16(n) => BeI16(n)
    case I32(n) => BeI32(n)
    case I64(n) => BeI64(n)
    case U8(n) => BeU8(n)
    case U16(n) => BeU16(n)
    case U32(n) => BeU32(n)
    case U64(n) => BeU64(n)
    case Char(c) => BeU32(c as int as UInt32)
    case Str(t) => Utf8(t)
    case ByteSlice(b) => b
    case NoneValue => []
    case Unit => []
    case UnitStruct(_) => []
  }

  /** One serde call on the serializer; every case only appends. */
  function Serialize(s: Serializer, v: Value): (r: Serializer)
    decreases v, 1
  {
    match v
    case Scalar(x) => s.Append(ScalarBytes(x))
    case SomeValue(x) => Serialize(s, x)
    case NewtypeStruct(_, x) => Serialize(s, x)
    case Sequence(_, xs) => SerializeElements(s, xs)
    case MapValue(entries) => SerializeEntries(s, entries)
    case Struct(_, fields) => SerializeFields(s, fields)
    case Variant(_, i, _, p) => SerializePayload(SerializeU32(s, i), p)
  }

  /** The payload of an enum variant, after its index. */
  function SerializePayload(s: Serializer, p: Payload): (r: Serializer)
    decreases p, 1
  {
    match p
    case NoPayload => s
    case NewtypePayload(x) => Serialize(s, x)
    case TuplePayload(xs) => SerializeElements(s, xs)
    case StructPayload(fields) => SerializeFields(s, fields)
  }

  /** `serialize_element` / `serialize_field` over a sequence, tuple or tuple struct, in order. */
  function SerializeElements(s: Serializer, xs: seq<Value>): (r: Serializer)
    decreases xs, 0
  {
    if xs == [] then s
    else
      SerializeElements(Serialize(s, xs[0]), xs[1..])
  }

  /** `serialize_key` then `serialize_value` for each map entry, in iteration order. */
  function SerializeEntries(s: Serializer, entries: seq<(Value, Value)>): (r: Serializer)
    decreases entries, 0
  {
    if entries == [] then s
    else
      SerializeEntries(SerializeEntry(s, entries[0]), entries[1..])
  }

  function SerializeEntry(s: Serializer, entry: (Value, Value)): (r: Serializer)
    decreases entry, 2
  {
    Serialize(Serialize(s, entry.0), entry.1)
  }

  /** `serialize_field` of a struct or struct variant: the field names are not written. */
  function SerializeFields(s: Serializer, fields: seq<(string, Value)>): (r: Serializer)
    decreases fields, 0
  {
    if fields == [] then s
    else
      SerializeFields(SerializeField(s, fields[0]), fields[1..])
  }

  function SerializeField(s: Serializer, field: (string, Value)): (r: Serializer)
    decreases field, 2
  {
    Serialize(s, field.1)
  }

  /** `ToKey` for a serializable value: serialize into a fresh serializer and take its key. */
  function ToKey(v: Value): (k: Key) {
    Serialize(NewSerializer(), v).key
  }

  /** The two kinds of `ToKey` implementors: a `Key` itself, or any serializable value. */
  datatype Keyable = AlreadyKey(key: Key) | Serializable(value: Value)

  /** `to_key()`: a `Key` is cloned unchanged; any other value goes through the serializer. */
  function KeyOf(x: Keyable): (k: Key)
    ensures x.AlreadyKey? ==> k == x.key
    ensures x.Serializable? ==> k == ToKey(x.value)
  {
    match x
    case AlreadyKey(key) => key
    case Serializable(v) => ToKey(v)
  }

  /** Reference encodings, with no serializer state: the keys of the members, concatenated. */
  function ConcatKeys(xs: seq<Value>): Bytes {
    if xs == [] then [] else ToKey(xs[0]).data + ConcatKeys(xs[1..])
  }

  function ConcatEntries(entries: seq<(Value, Value)>): Bytes {
    if entries == [] then [] else EntryBytes(entries[0]) + ConcatEntries(entries[1..])
  }

  function EntryBytes(entry: (Value, Value)): Bytes {
    ToKey(entry.0).data + ToKey(entry.1).data
  }

  function ConcatFields(fields: seq<(string, Value)>): Bytes {
    if fields == [] then [] else ToKey(fields[0].1).data + ConcatFields(fields[1..])
  }

  function PayloadBytes(p: Payload): Bytes {
    match p
    case NoPayload => []
    case NewtypePayload(x) => ToKey(x).data
    case TuplePayload(xs) => ConcatKeys(xs)
    case StructPayload(fields) => ConcatFields(fields)
  }

  lemma U32Appends(s: Serializer, i: UInt32)
    ensures SerializeU32(s, i).key.data == s.key.data + ToKey(Scalar(U32(i))).data
  {
  }

  /**
    Serializing from any state appends exactly what serializing from the
    empty key produces: the serializer's state never influences the bytes it
    writes.
   */
  lemma {:induction false} SerializeAppends(s: Serializer, v: Value)
    ensures Serialize(s, v).key.data == s.key.data + ToKey(v).data
    decreases v, 1
  {
    match v
    case Scalar(_) =>
    case SomeValue(x) =>
      SerializeAppends(s, x);
    case NewtypeStruct(_, x) =>
      SerializeAppends(s, x);
    case Variant(_, _, _, _) =>
      VariantAppends(s, v);
    case _ =>
      ContainerAppends(s, v);
  }

  lemma {:induction false} ContainerAppends(s: Serializer, v: Value)
    requires v.Sequence? || v.MapValue? || v.Struct?
    ensures Serialize(s, v).key.data == s.key.data + ToKey(v).data
    decreases v, 0
  {
    var e := NewSerializer();
    match v
    case Sequence(_, xs) =>
      ElementsAppend(s, xs);
      ElementsAppend(e, xs);
    case MapValue(entries) =>
      EntriesAppend(s, entries);
      EntriesAppend(e, entries);
    case Struct(_, fields) =>
      FieldsAppend(s, fields);
      FieldsAppend(e, fields);
  }

  lemma {:induction false} VariantAppends(s: Serializer, v: Value)
    requires v.Variant?
    ensures Serialize(s, v).key.data == s.key.data + ToKey(v).data
    decreases v, 0
  {
    var e := NewSerializer();
    var i, p := v.variantIndex, v.payload;
    U32Appends(s, i);
    U32Appends(e, i);
    PayloadAppends(SerializeU32(s, i), p);
    PayloadAppends(SerializeU32(e, i), p);
    AppendTwice(s.key.data, ToKey(Scalar(U32(i))).data, PayloadBytes(p));
  }

  lemma {:induction false} PayloadAppends(s: Serializer, p: Payload)
    ensures SerializePayload(s, p).key.data == s.key.data + PayloadBytes(p)
    decreases p, 1
  {
    match p
    case NoPayload =>
    case NewtypePayload(x) => SerializeAppends(s, x);
    case TuplePayload(xs) => ElementsAppend(s, xs);
    case StructPayload(fields) => FieldsAppend(s, fields);
  }

  lemma {:induction false} ElementsAppend(s: Serializer, xs: seq<Value>)
    ensures SerializeElements(s, xs).key.data == s.key.data + ConcatKeys(xs)
    decreases xs, 0
  {
    if xs != [] {
      SerializeAppends(s, xs[0]);
      ElementsAppend(Serialize(s, xs[0]), xs[1..]);
      AppendTwice(s.key.data, ToKey(xs[0]).data, ConcatKeys(xs[1..]));
    }
  }

  lemma {:induction false} EntriesAppend(s: Serializer, entries: seq<(Value, Value)>)
    ensures SerializeEntries(s, entries).key.data == s.key.data + ConcatEntries(entries)
    decreases entries, 0
  {
    if entries != [] {
      EntryAppends(s, entries[0]);
      EntriesAppend(SerializeEntry(s, entries[0]), entries[1..]);
      AppendTwice(s.key.data, EntryBytes(entries[0]), ConcatEntries(entries[1..]));
    }
  }

  lemma {:induction false} EntryAppends(s: Serializer, entry: (Value, Value))
    ensures SerializeEntry(s, entry).key.data == s.key.data + EntryBytes(entry)
    decreases entry, 2
  {
    SerializeAppends(s, entry.0);
    SerializeAppends(Serialize(s, entry.0), entry.1);
    AppendTwice(s.key.data, ToKey(entry.0).data, ToKey(entry.1).data);
  }

  lemma AppendTwice(a: Bytes, b: Bytes, c: Bytes)
    ensures (a + b) + c == a + (b + c)
  {
  }

  lemma {:induction false} FieldsAppend(s: Serializer, fields: seq<(string, Value)>)
    ensures SerializeFields(s, fields).key.data == s.key.data + ConcatFields(fields)
    decreases fields, 0
  {
    if fields != [] {
      FieldAppends(s, fields[0]);
      FieldsAppend(SerializeField(s, fields[0]), fields[1..]);
      AppendTwice(s.key.data, ToKey(fields[0].1).data, ConcatFields(fields[1..]));
    }
  }

  lemma {:induction false} FieldAppends(s: Serializer, field: (string, Value))
    ensures SerializeField(s, field).key.data == s.key.data + ToKey(field.1).data
    decreases field, 2
  {
    SerializeAppends(s, field.1);
  }

  /** Sequences, tuples and tuple structs are the in-order concatenation of their elements' keys. */
  lemma SequencesConcatenate(kind: SequenceKind, xs: seq<Value>)
    ensures ToKey(Sequence(kind, xs)).data == ConcatKeys(xs)
  {
    ElementsAppend(NewSerializer(), xs);
  }

  /** A map is each key followed by its value, in iteration order. */
  lemma MapsConcatenate(entries: seq<(Value, Value)>)
    ensures ToKey(MapValue(entries)).data == ConcatEntries(entries)
  {
    EntriesAppend(NewSerializer(), entries);
  }

  /** A struct is its field values in declaration order; field names are not written. */
  lemma StructsConcatenate(name: string, fields: seq<(string, Value)>)
    ensures ToKey(Struct(name, fields)).data == ConcatFields(fields)
  {
    FieldsAppend(NewSerializer(), fields);
  }

  /** Enum variants write the 4-byte big-endian variant index, then their payload. */
  lemma VariantsLeadWithIndex(name: string, i: UInt32, variant: string, p: Payload)
    ensures ToKey(Variant(name, i, variant, p)).data == ToKey(Scalar(U32(i))).data + PayloadBytes(p)
    ensures |ToKey(Scalar(U32(i))).data| == 4
  {
    U32Appends(NewSerializer(), i);
    PayloadAppends(SerializeU32(NewSerializer(), i), p);
  }

  /** `None`, unit and unit structs write nothing. */
  lemma EmptyValuesWriteNothing(name: string)
    ensures ToKey(Scalar(NoneValue)).data == []
    ensures ToKey(Scalar(Unit)).data == []
    ensures ToKey(Scalar(UnitStruct(name))).data == []
  {
  }

  /** `Some(v)` and a newtype struct around `v` have exactly the key of `v`. */
  lemma WrappersAreTransparent(name: string, x: Value)
    ensures ToKey(SomeValue(x)) == ToKey(x)
    ensures ToKey(NewtypeStruct(name, x)) == ToKey(x)
  {
  }

  /** `bool` and `char` are written as the `u32` of 0/1 and of the code point. */
  lemma BoolAndCharAreU32(b: bool, c: char)
    ensures ToKey(Scalar(Bool(b))) == ToKey(Scalar(U32(if b then 1 else 0)))
    ensures ToKey(Scalar(Char(c))) == ToKey(Scalar(U32(c as int as UInt32)))
  {
  }

  /** Strings are written as their raw UTF-8 bytes, byte slices as themselves. */
  lemma StringsAndBytesAreRaw(t: string, b: Bytes)
    ensures ToKey(Scalar(Str(t))).data == Utf8(t)
    ensures ToKey(Scalar(ByteSlice(b))).data == b
    ensures DecodeUtf8(ToKey(Scalar(Str(t))).data) == Some(t)
  {
    assert ScalarBytes(Str(t)) == Utf8(t);
    assert ScalarBytes(ByteSlice(b)) == b;
    assert [] + Utf8(t) == Utf8(t) && [] + b == b;
    DecodeUtf8OfUtf8(t);
  }

  predicate IsUnsigned(x: Scalar) {
    x.U8? || x.U16? || x.U32? || x.U64?
  }

  /** The value an unsigned integer of one of the four widths carries, and its width. */
  function UnsignedOf(x: Scalar): (r: (nat, nat))
    requires IsUnsigned(x)
    ensures r.0 < Pow256(r.1)
    ensures r.1 in {1, 2, 4, 8}
  {
    Pow256Widths();
    match x
    case U8(n) => (n as nat, 1)
    case U16(n) => (n as nat, 2)
    case U32(n) => (n as nat, 4)
    case U64(n) => (n as nat, 8)
  }

  /** Unsigned integers are written as exactly their width in big-endian bytes. */
  lemma UnsignedIsBigEndian(x: Scalar)
    requires IsUnsigned(x)
    ensures |ToKey(Scalar(x)).data| == UnsignedOf(x).1
    ensures FromBe(ToKey(Scalar(x)).data) == UnsignedOf(x).0
  {
    FromBeToBe(UnsignedOf(x).0, UnsignedOf(x).1);
  }

  /** For one unsigned width, key order is numeric order. */
  lemma UnsignedKeyOrder(a: Scalar, b: Scalar)
    requires IsUnsigned(a)
    requires (a.U8? && b.U8?) || (a.U16? && b.U16?) || (a.U32? && b.U32?) || (a.U64? && b.U64?)
    ensures Less(ToKey(Scalar(a)).data, ToKey(Scalar(b)).data) <==> UnsignedOf(a).0 < UnsignedOf(b).0
  {
    var (x, w) := UnsignedOf(a);
    var (y, _) := UnsignedOf(b);
    assert ToKey(Scalar(a)).data == ToBe(x, w) && ToKey(Scalar(b)).data == ToBe(y, w);
    ToBeOrder(x, y, w);
  }

  /** A pair of `u32` sorts as the lexicographic order of the pair. */
  lemma U32PairOrder(a1: UInt32, a2: UInt32, b1: UInt32, b2: UInt32)
    ensures Less(ToKey(Tuple([Scalar(U32(a1)), Scalar(U32(a2))])).data,
                 ToKey(Tuple([Scalar(U32(b1)), Scalar(U32(b2))])).data)
        <==> a1 < b1 || (a1 == b1 && a2 < b2)
  {
    var ea1, ea2 := ToKey(Scalar(U32(a1))).data, ToKey(Scalar(U32(a2))).data;
    var eb1, eb2 := ToKey(Scalar(U32(b1))).data, ToKey(Scalar(U32(b2))).data;
    SequencesConcatenate(TupleCall, [Scalar(U32(a1)), Scalar(U32(a2))]);
    SequencesConcatenate(TupleCall, [Scalar(U32(b1)), Scalar(U32(b2))]);
    ConcatKeysPair(Scalar(U32(a1)), Scalar(U32(a2)));
    ConcatKeysPair(Scalar(U32(b1)), Scalar(U32(b2)));
    UnsignedKeyOrder(U32(a1), U32(b1));
    UnsignedKeyOrder(U32(a2), U32(b2));
    UnsignedIsBigEndian(U32(a1));
    UnsignedIsBigEndian(U32(b1));
    Pow256Widths();
    ToBeInjective(a1 as nat, b1 as nat, 4);
    if a1 == b1 {
      CompareAfterCommonPrefix(ea1, ea2, eb2);
    } else {
      CompareFirstDifferenceDecides(ea1, eb1, ea2, eb2);
    }
  }

  /** No length prefix or separator: different string tuples can share a key. */
  lemma StringTuplesCanCollide()
    ensures Tuple([Scalar(Str("a")), Scalar(Str("bc"))]) != Tuple([Scalar(Str("ab")), Scalar(Str("c"))])
    ensures ToKey(Tuple([Scalar(Str("a")), Scalar(Str("bc"))])) == ToKey(Tuple([Scalar(Str("ab")), Scalar(Str("c"))]))
  {
    SequencesConcatenate(TupleCall, [Scalar(Str("a")), Scalar(Str("bc"))]);
    SequencesConcatenate(TupleCall, [Scalar(Str("ab")), Scalar(Str("c"))]);
    ConcatKeysPair(Scalar(Str("a")), Scalar(Str("bc")));
    ConcatKeysPair(Scalar(Str("ab")), Scalar(Str("c")));
    Utf8Append("a", "bc");
    Utf8Append("ab", "c");
    assert "a" + "bc" == "ab" + "c";
  }

  lemma ConcatKeysPair(x: Value, y: Value)
    ensures ConcatKeys([x, y]) == ToKey(x).data + ToKey(y).data
  {
    assert [x, y][1..] == [y] && [y][1..] == [];
    assert ConcatKeys([y]) == ToKey(y).data + ConcatKeys([]);
  }

  /** The key of a tuple starts with the key of any leading part of it. */
  lemma TuplePrefixIsKeyPrefix(xs: seq<Value>, ys: seq<Value>)
    ensures StartsWith(ToKey(Tuple(xs + ys)).data, ToKey(Tuple(xs)).data)
  {
    SequencesConcatenate(TupleCall, xs + ys);
    SequencesConcatenate(TupleCall, xs);
    ConcatKeysAppend(xs, ys);
    assert (ConcatKeys(xs) + ConcatKeys(ys))[..|ConcatKeys(xs)|] == ConcatKeys(xs);
  }

  lemma {:induction false} ConcatKeysAppend(xs: seq<Value>, ys: seq<Value>)
    ensures ConcatKeys(xs + ys) == ConcatKeys(xs) + ConcatKeys(ys)
  {
    if xs == [] {
      assert xs + ys == ys;
    } else {
      assert (xs + ys)[0] == xs[0] && (xs + ys)[1..] == xs[1..] + ys;
      ConcatKeysAppend(xs[1..], ys);
    }
  }
}
