/**
  Keys of the current key layer (src/db_type/key/key.rs): a byte string with
  in-place concatenation, the storage order, and the translation of a Rust
  range over key values into a range over keys.
 */
module Keys {
  import opened Bytes
  import opened Outcome

  /** `Key(Vec<u8>)`; `Key::new` is the constructor. */
  datatype Key = Key(data: Bytes)

  /** `key.extend(&other)`: the other key's bytes are appended. */
  function Extend(k: Key, other: Key): (r: Key)
    ensures |r.data| == |k.data| + |other.data|
    ensures StartsWith(r.data, k.data) && r.data[|k.data|..] == other.data
  {
    Key(k.data + other.data)
  }

  /** `key.extend_with_delimiter(d, &other)`: one delimiter byte, then the other key. */
  function ExtendWithDelimiter(k: Key, delimiter: Byte, other: Key): (r: Key)
    ensures |r.data| == |k.data| + 1 + |other.data|
    ensures StartsWith(r.data, k.data) && r.data[|k.data|] == delimiter
    ensures r.data[|k.data| + 1..] == other.data
  {
    Key(k.data + [delimiter] + other.data)
  }

  /** Both halves of an extended key can be recovered: extension is injective in each part of equal length. */
  lemma ExtendInjective(a: Key, b: Key, c: Key, d: Key)
    requires |a.data| == |c.data|
    ensures Extend(a, b) == Extend(c, d) <==> a == c && b == d
  {
    if Extend(a, b) == Extend(c, d) {
      assert a.data == Extend(a, b).data[..|a.data|];
    }
  }

  /** A delimited extension is an extension by the one-byte key of the delimiter. */
  lemma ExtendWithDelimiterIsTwoExtends(k: Key, delimiter: Byte, other: Key)
    ensures ExtendWithDelimiter(k, delimiter, other) == Extend(Extend(k, Key([delimiter])), other)
  {
  }

  /** `RedbKey::compare`: the storage engine orders keys by their bytes. */
  function CompareKeys(a: Key, b: Key): (r: Ordering)
    ensures r == EqualTo <==> a == b
    ensures r == LessThan <==> LexBefore(a.data, b.data)
  {
    CompareEqualIff(a.data, b.data);
    CompareMatchesLexBefore(a.data, b.data);
    Compare(a.data, b.data)
  }

  /** `std::ops::Bound` */
  datatype Bound<T> = Included(value: T) | Excluded(value: T) | Unbounded

  /** `KeyRange`: the six shapes of a Rust range, over keys. */
  datatype KeyRange =
    | Range(start: Key, end: Key)
    | RangeInclusive(start: Key, end: Key)
    | RangeFrom(start: Key)
    | RangeTo(end: Key)
    | RangeToInclusive(end: Key)
    | RangeFull

  /** `RangeBounds::start_bound` for `KeyRange`. */
  function StartBound(r: KeyRange): Bound<Key> {
    match r
    case Range(s, _) => Included(s)
    case RangeInclusive(s, _) => Included(s)
    case RangeFrom(s) => Included(s)
    case RangeTo(_) => Unbounded
    case RangeToInclusive(_) => Unbounded
    case RangeFull => Unbounded
  }

  /** `RangeBounds::end_bound` for `KeyRange`. */
  function EndBound(r: KeyRange): Bound<Key> {
    match r
    case Range(_, e) => Excluded(e)
    case RangeInclusive(_, e) => Included(e)
    case RangeFrom(_) => Unbounded
    case RangeTo(e) => Excluded(e)
    case RangeToInclusive(e) => Included(e)
    case RangeFull => Unbounded
  }

  /** Whether `k` lies within a pair of bounds, under the byte order of keys. */
  predicate WithinBounds(start: Bound<Key>, end: Bound<Key>, k: Key) {
    && (match start
        case Included(s) => LessEq(s.data, k.data)
        case Excluded(s) => Less(s.data, k.data)
        case Unbounded => true)
    && (match end
        case Included(e) => LessEq(k.data, e.data)
        case Excluded(e) => Less(k.data, e.data)
        case Unbounded => true)
  }

  /** The keys a range scan over `r` visits. */
  predicate Contains(r: KeyRange, k: Key) {
    WithinBounds(StartBound(r), EndBound(r), k)
  }

  /** The suffix appended to an inclusive end so that composite keys extending it stay inside. */
  const InclusiveEndSuffix: Key := Key([255])

  /**
    Reference semantics of `KeyRange::new` at the level of keys: the start is
    inclusive whatever its kind; a bounded start with an inclusive end reaches
    up to the end key followed by byte 255; otherwise the end is exclusive.
   */
  ghost predicate TranslatedRangeAdmits<T>(start: Bound<T>, end: Bound<T>, toKey: T -> Key, k: Key) {
    && (match start
        case Included(a) => LessEq(toKey(a).data, k.data)
        case Excluded(a) => LessEq(toKey(a).data, k.data)
        case Unbounded => true)
    && (match end
        case Included(b) =>
          if start.Unbounded? then Less(k.data, toKey(b).data)
          else LessEq(k.data, toKey(b).data + [255])
        case Excluded(b) => Less(k.data, toKey(b).data)
        case Unbounded => true)
  }

  /** `KeyRange::new(bounds)`, each bound value first turned into a key by `toKey`. */
  function NewRange<T>(start: Bound<T>, end: Bound<T>, toKey: T -> Key): (r: KeyRange)
    ensures forall k :: Contains(r, k) <==> TranslatedRangeAdmits(start, end, toKey, k)
  {
    match (start, end)
    case (Included(a), Included(b)) => RangeInclusive(toKey(a), Extend(toKey(b), InclusiveEndSuffix))
    case (Included(a), Excluded(b)) => Range(toKey(a), toKey(b))
    case (Included(a), Unbounded) => RangeFrom(toKey(a))
    case (Excluded(a), Included(b)) => RangeInclusive(toKey(a), Extend(toKey(b), InclusiveEndSuffix))
    case (Excluded(a), Excluded(b)) => Range(toKey(a), toKey(b))
    case (Excluded(a), Unbounded) => RangeFrom(toKey(a))
    case (Unbounded, Included(b)) => RangeTo(toKey(b))
    case (Unbounded, Excluded(b)) => RangeTo(toKey(b))
    case (Unbounded, Unbounded) => RangeFull
  }

  /** An excluded start bound is translated exactly as an included one. */
  lemma ExcludedStartIsIncluded<T>(a: T, end: Bound<T>, toKey: T -> Key)
    ensures NewRange(Excluded(a), end, toKey) == NewRange(Included(a), end, toKey)
  {
  }

  /** `..=b` keeps no key at or after `b`: the end becomes exclusive and gets no suffix. */
  lemma UnboundedStartInclusiveEndExcludesEnd<T>(b: T, toKey: T -> Key, k: Key)
    ensures NewRange(Unbounded, Included(b), toKey) == RangeTo(toKey(b))
    ensures Contains(NewRange(Unbounded, Included(b), toKey), k) <==> Less(k.data, toKey(b).data)
    ensures !Contains(NewRange(Unbounded, Included(b), toKey), toKey(b))
  {
    CompareEqualIff(toKey(b).data, toKey(b).data);
  }

  /** `a..b` is the half-open interval of keys, without suffix. */
  lemma HalfOpenRange<T>(a: T, b: T, toKey: T -> Key, k: Key)
    ensures Contains(NewRange(Included(a), Excluded(b), toKey), k)
        <==> LessEq(toKey(a).data, k.data) && Less(k.data, toKey(b).data)
  {
  }

  /** `..` visits every key. */
  lemma FullRangeContainsEverything<T>(toKey: T -> Key, k: Key)
    ensures Contains(NewRange(Unbounded, Unbounded, toKey), k)
  {
  }

  /**
    With the 255 suffix, `a..=b` covers a key that extends the end key `b` by
    `tail` exactly when `tail` is empty, starts below 255, or is the single
    byte 255. Composite keys whose primary-key part starts with 255 and has
    more bytes sort after the suffixed end and are not visited.
   */
  lemma InclusiveEndCoversExtensions<T>(a: T, b: T, toKey: T -> Key, tail: Bytes)
    requires LessEq(toKey(a).data, toKey(b).data)
    ensures Contains(NewRange(Included(a), Included(b), toKey), Key(toKey(b).data + tail))
        <==> tail == [] || tail[0] < 255 || tail == [255]
  {
    var s, e := toKey(a).data, toKey(b).data;
    AppendIsGreaterOrEqual(e, tail);
    LessEqTransitive(s, e, e + tail);
    CompareAfterCommonPrefix(e, tail, [255]);
    if tail != [] && tail[0] == 255 {
      assert Compare(tail, [255]) == Compare(tail[1..], []);
    }
  }

  /** Every key that extends the inclusive end is covered when its first extra byte is below 255. */
  lemma InclusiveEndCoversRecordsOfEnd<T>(a: T, b: T, toKey: T -> Key, pk: Bytes)
    requires LessEq(toKey(a).data, toKey(b).data)
    requires pk == [] || pk[0] < 255
    ensures Contains(NewRange(Included(a), Included(b), toKey), Key(toKey(b).data + pk))
  {
    InclusiveEndCoversExtensions(a, b, toKey, pk);
  }

  /** A key at most `b`, or one that extends `b`: what an inclusive end `b` is meant to keep, composite entries of `b` included. */
  predicate AtMostOrExtends(k: Bytes, b: Bytes) {
    LessEq(k, b) || StartsWith(k, b)
  }

  /**
    The smallest byte string above every extension of `b`: `b` without its
    trailing 255 bytes, with the last remaining byte raised by one; `None`
    when `b` holds only 255 bytes, which every key extends or precedes.
   */
  function Successor(b: Bytes): (r: Option<Bytes>)
    ensures r.Some? ==> r.value != []
  {
    if b == [] then None
    else match Successor(b[1..])
      case Some(t) => Some([b[0]] + t)
      case None => if b[0] < 255 then Some([b[0] + 1]) else None
  }

  /** Below the successor of `b` lie exactly the keys at most `b` or extending it; without a successor, every key is such a key. */
  lemma {:induction false} SuccessorBoundsExtensions(b: Bytes, k: Bytes)
    ensures Successor(b).Some? ==> (Less(k, Successor(b).value) <==> AtMostOrExtends(k, b))
    ensures Successor(b).None? ==> AtMostOrExtends(k, b)
  {
    if b != [] && k != [] {
      SuccessorBoundsExtensions(b[1..], k[1..]);
      assert StartsWith(k, b) <==> k[0] == b[0] && StartsWith(k[1..], b[1..]) by {
        if |b| <= |k| {
          assert k[..|b|] == [k[0]] + k[1..][..|b| - 1];
          assert b == [b[0]] + b[1..];
        }
      }
      match Successor(b[1..])
      case Some(t) =>
        assert Successor(b).value == [b[0]] + t;
        assert ([b[0]] + t)[1..] == t;
      case None =>
        if b[0] < 255 {
          var x := b[0] + 1;
          assert Successor(b).value == [x];
          if k[0] == x {
            assert Compare(k, [x]) == Compare(k[1..], []);
          }
        }
    }
  }

  /**
    `KeyRange::new` as the comment at its inclusive-end cases means it: a
    bounded start with an inclusive end keeps every key that extends the end
    key, through an exclusive end at the end key's successor. The other
    cases are translated as the code does.
   */
  function IntendedRange<T>(start: Bound<T>, end: Bound<T>, toKey: T -> Key): (r: KeyRange)
    ensures forall k :: Contains(r, k) <==>
      if start.Unbounded? || !end.Included? then TranslatedRangeAdmits(start, end, toKey, k)
      else LessEq(toKey(start.value).data, k.data) && AtMostOrExtends(k.data, toKey(end.value).data)
  {
    if start.Unbounded? || !end.Included? then NewRange(start, end, toKey)
    else
      var a, b := toKey(start.value), toKey(end.value);
      match Successor(b.data)
      case None =>
        assert forall k :: Contains(RangeFrom(a), k) <==> LessEq(a.data, k.data) && AtMostOrExtends(k.data, b.data) by {
          forall k: Key ensures AtMostOrExtends(k.data, b.data) {
            SuccessorBoundsExtensions(b.data, k.data);
          }
        }
        RangeFrom(a)
      case Some(e) =>
        assert forall k :: Contains(Range(a, Key(e)), k) <==> LessEq(a.data, k.data) && AtMostOrExtends(k.data, b.data) by {
          forall k: Key ensures Less(k.data, e) <==> AtMostOrExtends(k.data, b.data) {
            SuccessorBoundsExtensions(b.data, k.data);
          }
        }
        Range(a, Key(e))
  }

  /**
    With the intended translation, `a..=b` keeps every key that extends `b`
    whatever the tail, so every composite entry of `b` is visited.
   */
  lemma IntendedInclusiveEndCoversExtensions<T>(a: T, b: T, toKey: T -> Key, tail: Bytes)
    requires LessEq(toKey(a).data, toKey(b).data)
    ensures Contains(IntendedRange(Included(a), Included(b), toKey), Key(toKey(b).data + tail))
  {
    var s, e := toKey(a).data, toKey(b).data;
    AppendIsGreaterOrEqual(e, tail);
    LessEqTransitive(s, e, e + tail);
    assert (e + tail)[..|e|] == e;
  }
}
