/**
  Byte strings and the order the storage engine sorts them in.

  Every table of the database is keyed by raw bytes, compared as Rust compares
  `&[u8]`: unsigned, lexicographic, a proper prefix sorting first
  (`Key::compare` in src/db_type/key/key.rs).
 */
module Bytes {

  newtype Byte = x: int | 0 <= x < 256

  type Bytes = seq<Byte>

  datatype Ordering = LessThan | EqualTo | GreaterThan {
    function Reverse(): Ordering {
      match this
      case LessThan => GreaterThan
      case EqualTo => EqualTo
      case GreaterThan => LessThan
    }
  }

  /** `data1.cmp(data2)` on byte slices: the first differing byte decides, else the shorter one is smaller. */
  function Compare(a: Bytes, b: Bytes): Ordering
    decreases |a|
  {
    if |a| == 0 && |b| == 0 then EqualTo
    else if |a| == 0 then LessThan
    else if |b| == 0 then GreaterThan
    else if a[0] < b[0] then LessThan
    else if a[0] > b[0] then GreaterThan
    else Compare(a[1..], b[1..])
  }

  predicate Less(a: Bytes, b: Bytes) {
    Compare(a, b) == LessThan
  }

  predicate LessEq(a: Bytes, b: Bytes) {
    Compare(a, b) != GreaterThan
  }

  /** `s.starts_with(p)` */
  predicate StartsWith(s: Bytes, p: Bytes) {
    |p| <= |s| && s[..|p|] == p
  }

  /** Reference definition of the byte order: `a` is a proper prefix of `b`, or the first difference favours `a`. */
  ghost predicate LexBefore(a: Bytes, b: Bytes) {
    || (|a| < |b| && b[..|a|] == a)
    || exists i :: 0 <= i < |a| && i < |b| && a[..i] == b[..i] && a[i] < b[i]
  }

  lemma {:induction false} CompareEqualIff(a: Bytes, b: Bytes)
    ensures Compare(a, b) == EqualTo <==> a == b
    decreases |a|
  {
    if |a| > 0 && |b| > 0 && a[0] == b[0] {
      CompareEqualIff(a[1..], b[1..]);
      if a[1..] == b[1..] {
        assert a == [a[0]] + a[1..] && b == [b[0]] + b[1..];
      }
    }
  }

  lemma {:induction false} CompareAntisymmetric(a: Bytes, b: Bytes)
    ensures Compare(b, a) == Compare(a, b).Reverse()
    decreases |a|
  {
    if |a| > 0 && |b| > 0 && a[0] == b[0] {
      CompareAntisymmetric(a[1..], b[1..]);
    }
  }

  /** The recursive comparison agrees with the reference definition of lexicographic order. */
  lemma {:induction false} CompareMatchesLexBefore(a: Bytes, b: Bytes)
    ensures Less(a, b) <==> LexBefore(a, b)
    decreases |a|
  {
    if |a| == 0 {
      if |b| > 0 {
        assert b[..0] == a;
      }
    } else if |b| == 0 {
      // neither disjunct of LexBefore can hold
    } else if a[0] < b[0] {
      assert a[..0] == b[..0];
    } else if a[0] > b[0] {
      assert |a| < |b| ==> b[..|a|][0] == b[0];
      assert forall i :: 0 < i <= |a| && i <= |b| ==> a[..i][0] == a[0] && b[..i][0] == b[0];
    } else {
      CompareMatchesLexBefore(a[1..], b[1..]);
      if LexBefore(a[1..], b[1..]) {
        if |a[1..]| < |b[1..]| && b[1..][..|a[1..]|] == a[1..] {
          assert b[..|a|] == [b[0]] + b[1..][..|a[1..]|];
          assert a == [a[0]] + a[1..];
        } else {
          var i :| 0 <= i < |a[1..]| && i < |b[1..]| && a[1..][..i] == b[1..][..i] && a[1..][i] < b[1..][i];
          assert a[..i + 1] == [a[0]] + a[1..][..i];
          assert b[..i + 1] == [b[0]] + b[1..][..i];
        }
      }
      if LexBefore(a, b) {
        if |a| < |b| && b[..|a|] == a {
          assert b[1..][..|a[1..]|] == a[1..];
        } else {
          var i :| 0 <= i < |a| && i < |b| && a[..i] == b[..i] && a[i] < b[i];
          assert i > 0;
          assert a[1..][..i - 1] == a[..i][1..];
          assert b[1..][..i - 1] == b[..i][1..];
        }
      }
    }
  }

  lemma {:induction false} LessTransitive(a: Bytes, b: Bytes, c: Bytes)
    requires Less(a, b) && Less(b, c)
    ensures Less(a, c)
    decreases |a|
  {
    if |a| > 0 && a[0] == b[0] && b[0] == c[0] {
      LessTransitive(a[1..], b[1..], c[1..]);
    }
  }

  lemma LessEqTotal(a: Bytes, b: Bytes)
    ensures LessEq(a, b) || LessEq(b, a)
  {
    CompareAntisymmetric(a, b);
  }

  lemma LessEqAntisymmetric(a: Bytes, b: Bytes)
    requires LessEq(a, b) && LessEq(b, a)
    ensures a == b
  {
    CompareAntisymmetric(a, b);
    CompareEqualIff(a, b);
  }

  lemma LessEqTransitive(a: Bytes, b: Bytes, c: Bytes)
    requires LessEq(a, b) && LessEq(b, c)
    ensures LessEq(a, c)
  {
    CompareEqualIff(a, b);
    CompareEqualIff(b, c);
    if Less(a, b) && Less(b, c) {
      LessTransitive(a, b, c);
    }
  }

  lemma LessEqReflexive(a: Bytes)
    ensures LessEq(a, a)
  {
    CompareEqualIff(a, a);
  }

  /** A key that carries a prefix sorts at or after the prefix itself. */
  lemma {:induction false} PrefixIsLowerBound(s: Bytes, p: Bytes)
    requires StartsWith(s, p)
    ensures LessEq(p, s)
    decreases |p|
  {
    if |p| > 0 {
      assert s[0] == p[0];
      assert StartsWith(s[1..], p[1..]) by {
        assert s[1..][..|p[1..]|] == s[..|p|][1..];
      }
      PrefixIsLowerBound(s[1..], p[1..]);
    }
  }

  /**
    The keys carrying a prefix form one contiguous run of the byte order:
    anything between the prefix and a key that carries it carries it too.
   */
  lemma {:induction false} PrefixRunIsContiguous(p: Bytes, a: Bytes, b: Bytes)
    requires LessEq(p, a) && LessEq(a, b) && StartsWith(b, p)
    ensures StartsWith(a, p)
    decreases |p|
  {
    if |p| > 0 {
      assert b[0] == p[0];
      assert StartsWith(b[1..], p[1..]) by {
        assert b[1..][..|p[1..]|] == b[..|p|][1..];
      }
      assert |a| > 0;
      assert a[0] == p[0];
      PrefixRunIsContiguous(p[1..], a[1..], b[1..]);
      assert a[..|p|] == [a[0]] + a[1..][..|p[1..]|];
      assert p == [p[0]] + p[1..];
    }
  }

  /** Appending never moves a key before the original: `a <= a ++ b`. */
  lemma AppendIsGreaterOrEqual(a: Bytes, b: Bytes)
    ensures LessEq(a, a + b)
  {
    assert StartsWith(a + b, a) by {
      assert (a + b)[..|a|] == a;
    }
    PrefixIsLowerBound(a + b, a);
  }

  /** Comparing two keys that share a prefix is comparing what follows it. */
  lemma {:induction false} CompareAfterCommonPrefix(p: Bytes, a: Bytes, b: Bytes)
    ensures Compare(p + a, p + b) == Compare(a, b)
    decreases |p|
  {
    if |p| == 0 {
      assert p + a == a && p + b == b;
    } else {
      assert (p + a)[0] == p[0] == (p + b)[0];
      assert (p + a)[1..] == p[1..] + a;
      assert (p + b)[1..] == p[1..] + b;
      CompareAfterCommonPrefix(p[1..], a, b);
    }
  }

  /** Between equally long keys, a trailing byte only breaks a tie. */
  lemma {:induction false} CompareEqualLengthAppend(a: Bytes, b: Bytes, x: Byte, y: Byte)
    requires |a| == |b|
    ensures Compare(a + [x], b + [y])
         == if Compare(a, b) != EqualTo then Compare(a, b)
            else if x < y then LessThan
            else if x > y then GreaterThan
            else EqualTo
    decreases |a|
  {
    CompareEqualIff(a, b);
    if |a| > 0 {
      assert (a + [x])[1..] == a[1..] + [x];
      assert (b + [y])[1..] == b[1..] + [y];
      CompareEqualLengthAppend(a[1..], b[1..], x, y);
      CompareEqualIff(a[1..], b[1..]);
    }
  }

  /** Between equally long heads that differ, what follows does not matter. */
  lemma {:induction false} CompareFirstDifferenceDecides(a: Bytes, b: Bytes, x: Bytes, y: Bytes)
    requires |a| == |b| && a != b
    ensures Compare(a + x, b + y) == Compare(a, b)
    decreases |a|
  {
    if a[0] == b[0] {
      assert a == [a[0]] + a[1..] && b == [b[0]] + b[1..];
      assert (a + x)[1..] == a[1..] + x;
      assert (b + y)[1..] == b[1..] + y;
      CompareFirstDifferenceDecides(a[1..], b[1..], x, y);
    }
  }
}
