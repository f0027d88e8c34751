/**
  The ordered view of a finite set under a total order.

  A B-tree table iterates its keys in ascending order; the model represents a
  table as a map or a set and recovers that iteration order with `Sort`.
 */
module Sorting {

  ghost predicate TotalOrder<T(!new)>(le: (T, T) -> bool) {
    && (forall x :: le(x, x))
    && (forall x, y :: le(x, y) && le(y, x) ==> x == y)
    && (forall x, y, z :: le(x, y) && le(y, z) ==> le(x, z))
    && (forall x, y :: le(x, y) || le(y, x))
  }

  /** Strictly ascending: ordered and free of repetitions. */
  ghost predicate StrictlySorted<T>(s: seq<T>, le: (T, T) -> bool) {
    forall i, j :: 0 <= i < j < |s| ==> le(s[i], s[j]) && s[i] != s[j]
  }

  ghost predicate IsMinimum<T>(m: T, s: set<T>, le: (T, T) -> bool) {
    m in s && forall x :: x in s ==> le(m, x)
  }

  lemma {:induction false} MinimumExists<T(!new)>(s: set<T>, le: (T, T) -> bool)
    requires TotalOrder(le) && s != {}
    ensures exists m :: IsMinimum(m, s, le)
    decreases |s|
  {
    var x :| x in s;
    if s - {x} == {} {
      assert s == {x};
      assert IsMinimum(x, s, le);
    } else {
      MinimumExists(s - {x}, le);
      var m :| IsMinimum(m, s - {x}, le);
      if le(m, x) {
        assert IsMinimum(m, s, le);
      } else {
        assert IsMinimum(x, s, le);
      }
    }
  }

  lemma MinimumUnique<T(!new)>(m1: T, m2: T, s: set<T>, le: (T, T) -> bool)
    requires TotalOrder(le) && IsMinimum(m1, s, le) && IsMinimum(m2, s, le)
    ensures m1 == m2
  {
  }

  /** The elements of `s` in ascending order. */
  function Sort<T(==, !new)>(s: set<T>, le: (T, T) -> bool): (r: seq<T>)
    requires TotalOrder(le)
    ensures |r| == |s|
    ensures forall x :: x in s <==> x in r
    ensures StrictlySorted(r, le)
    decreases |s|
  {
    if s == {} then []
    else
      MinimumExists(s, le);
      var m :| m in s && forall x :: x in s ==> le(m, x);
      var rest := Sort(s - {m}, le);
      PrependMinimum(m, rest, s, le);
      [m] + rest
  }

  /** The minimum of a set followed by the rest of it in ascending order is the whole set in ascending order. */
  lemma PrependMinimum<T>(m: T, rest: seq<T>, s: set<T>, le: (T, T) -> bool)
    requires m in s && forall x :: x in s ==> le(m, x)
    requires forall x :: x in s - {m} <==> x in rest
    requires StrictlySorted(rest, le) && |rest| == |s - {m}|
    ensures StrictlySorted([m] + rest, le)
    ensures forall x :: x in s <==> x in [m] + rest
    ensures |[m] + rest| == |s|
  {
    var r := [m] + rest;
    forall i, j | 0 <= i < j < |r| ensures le(r[i], r[j]) && r[i] != r[j] {
      assert r[j] == rest[j - 1] && r[j] in rest;
      if i > 0 {
        assert r[i] == rest[i - 1];
      }
    }
  }

  /** `r` lists exactly the elements of `s`, in strictly ascending order. */
  ghost predicate Lists<T(!new)>(r: seq<T>, s: set<T>, le: (T, T) -> bool) {
    StrictlySorted(r, le) && forall x :: x in s <==> x in r
  }

  lemma ListingEmptyIff<T(!new)>(s: set<T>, r: seq<T>)
    requires forall x :: x in s <==> x in r
    ensures s == {} <==> r == []
  {
    if r != [] {
      assert r[0] in s;
    }
  }

  /** The head of a non-empty ascending listing is the minimum; its tail lists the rest. */
  lemma ListingSplits<T(!new)>(s: set<T>, r: seq<T>, le: (T, T) -> bool)
    requires TotalOrder(le) && Lists(r, s, le) && s != {}
    ensures |r| > 0 && IsMinimum(r[0], s, le) && Lists(r[1..], s - {r[0]}, le)
  {
    var y :| y in s;
    assert |r| > 0;
    forall x | x in s ensures le(r[0], x) {
      var j :| 0 <= j < |r| && r[j] == x;
    }
    forall x ensures x in s - {r[0]} <==> x in r[1..] {
      if x in r[1..] {
        var j :| 0 <= j < |r[1..]| && r[1..][j] == x;
        assert r[j + 1] == x;
      }
      if x in s - {r[0]} {
        var j :| 0 <= j < |r| && r[j] == x;
        assert r[1..][j - 1] == x;
      }
    }
  }

  /** Two strictly ascending listings of the same set are equal. */
  lemma {:induction false} ListingsAgree<T(!new)>(s: set<T>, r: seq<T>, q: seq<T>, le: (T, T) -> bool)
    requires TotalOrder(le) && Lists(r, s, le) && Lists(q, s, le)
    ensures r == q
    decreases |s|
  {
    ListingEmptyIff(s, r);
    ListingEmptyIff(s, q);
    if s != {} {
      ListingSplits(s, r, le);
      ListingSplits(s, q, le);
      MinimumUnique(r[0], q[0], s, le);
      ListingsAgree(s - {r[0]}, r[1..], q[1..], le);
      assert r == [r[0]] + r[1..];
      assert q == [q[0]] + q[1..];
    }
  }

  /** A strictly ascending listing of a set is unique: it is `Sort` of the set. */
  lemma SortUnique<T(!new)>(s: set<T>, r: seq<T>, le: (T, T) -> bool)
    requires TotalOrder(le) && Lists(r, s, le)
    ensures r == Sort(s, le)
  {
    ListingsAgree(s, r, Sort(s, le), le);
  }

  /** Keeping the elements that satisfy `p` preserves strict ascent. */
  function Filter<T(!new)>(s: seq<T>, p: T -> bool): (r: seq<T>)
    ensures forall x :: x in r <==> x in s && p(x)
    ensures |r| <= |s|
  {
    if s == [] then []
    else if p(s[0]) then [s[0]] + Filter(s[1..], p)
    else Filter(s[1..], p)
  }

  lemma {:induction false} FilterSorted<T(!new)>(s: seq<T>, p: T -> bool, le: (T, T) -> bool)
    requires TotalOrder(le) && StrictlySorted(s, le)
    ensures StrictlySorted(Filter(s, p), le)
    decreases |s|
  {
    if s != [] {
      FilterSorted(s[1..], p, le);
      var rest := Filter(s[1..], p);
      forall x | x in rest ensures le(s[0], x) && s[0] != x {
        var j :| 0 <= j < |s[1..]| && s[1..][j] == x;
        assert s[j + 1] == x;
      }
    }
  }

  /** Filtering the ascending listing of a set lists the filtered set. */
  lemma FilterOfSort<T(!new)>(s: set<T>, p: T -> bool, le: (T, T) -> bool)
    requires TotalOrder(le)
    ensures Filter(Sort(s, le), p) == Sort(set x | x in s && p(x) :: x, le)
  {
    FilterSorted(Sort(s, le), p, le);
    SortUnique(set x | x in s && p(x) :: x, Filter(Sort(s, le), p), le);
  }

  /** Filtering a listing of a set keeps one element per matching member. */
  lemma FilterOfListingCount<T(!new)>(r: seq<T>, s: set<T>, p: T -> bool, le: (T, T) -> bool, matching: set<T>)
    requires TotalOrder(le) && Lists(r, s, le)
    requires forall x :: x in matching <==> x in s && p(x)
    ensures |Filter(r, p)| == |matching|
  {
    FilterSorted(r, p, le);
    SortUnique(matching, Filter(r, p), le);
  }

  /** `order` lists every element of `keys` exactly once: an iteration order of a hash map's keys. */
  ghost predicate Enumerates<T(!new)>(order: seq<T>, keys: set<T>) {
    && (forall i, j :: 0 <= i < j < |order| ==> order[i] != order[j])
    && (forall k :: k in keys <==> k in order)
  }
}
