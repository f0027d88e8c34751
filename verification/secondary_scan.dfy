/**
  Scans by secondary key (src/transaction/query/scan/secondary_scan.rs):
  the entries of a secondary table are visited in storage order and each
  entry's primary key is looked up in the primary table to produce the
  record. Unlike primary scans, opening the range unwraps the storage result
  (a failure panics), and the three iterators react differently to a failed
  or empty lookup: the forward iterator ends quietly on either, while the
  backward and start-with iterators panic on a failed lookup.
 */
module SecondaryScans {
  import opened Bytes
  import opened Outcome
  import opened Sorting
  import opened Keys
  import opened Errors
  import opened Input
  import opened Tables
  import opened PrimaryScans
  import Batches

  /** What driving an iterator to its end produces: the items, then possibly a panic. */
  datatype Walk<T> = Walk(items: seq<Result<T, Error>>, panic: Option<Error>)

  /** The panic of `Result::unwrap` on a storage failure. */
  function UnwrapPanic(description: string): Error {
    Panic("called `Result::unwrap()` on an `Err` value: " + description)
  }

  /** Whether an entry's secondary key lies in a range. */
  function EntryIn(range: KeyRange): ((Key, Key)) -> bool {
    (p: (Key, Key)) => Contains(range, p.0)
  }

  /** The entries of a secondary table whose secondary key lies in a range, in storage order. */
  function RangeEntries(pairs: set<(Key, Key)>, range: KeyRange): (r: seq<(Key, Key)>)
    ensures forall p :: p in r <==> p in pairs && Contains(range, p.0)
    ensures StrictlySorted(r, PairLe)
  {
    PairLeIsTotalOrder();
    FilterSorted(SortedPairs(pairs), EntryIn(range), PairLe);
    Filter(SortedPairs(pairs), EntryIn(range))
  }

  /** The primary keys the entries point at, in order. */
  function PrimaryKeys(entries: seq<(Key, Key)>): (r: seq<Key>)
    ensures |r| == |entries|
    ensures forall i :: 0 <= i < |entries| ==> r[i] == entries[i].1
  {
    seq(|entries|, i requires 0 <= i < |entries| => entries[i].1)
  }

  /**
    The forward iterator (`next`) over a run of entries: a failed lookup or a
    primary key without a row ends the iteration; otherwise the row is
    decoded.
   */
  function Forward<T>(m: InputModel<T>, rows: map<Key, Bytes>, lookup: map<Key, string>, entries: seq<(Key, Key)>)
    : (r: seq<Result<T, Error>>)
    ensures |r| <= |entries|
    ensures forall i :: 0 <= i < |r| ==>
      entries[i].1 !in lookup && entries[i].1 in rows && r[i] == m.decode(rows[entries[i].1])
    ensures |r| < |entries| ==> entries[|r|].1 in lookup || entries[|r|].1 !in rows
  {
    if entries == [] then []
    else
      var pk := entries[0].1;
      if pk in lookup || pk !in rows then []
      else [m.decode(rows[pk])] + Forward(m, rows, lookup, entries[1..])
  }

  /**
    The backward iterator (`next_back`) over a run of entries, already in
    the order it visits them: a failed lookup is unwrapped and panics, a
    primary key without a row ends the iteration.
   */
  function Backward<T>(m: InputModel<T>, rows: map<Key, Bytes>, lookup: map<Key, string>, entries: seq<(Key, Key)>)
    : (r: Walk<T>)
    ensures |r.items| <= |entries|
    ensures forall i :: 0 <= i < |r.items| ==>
      entries[i].1 !in lookup && entries[i].1 in rows && r.items[i] == m.decode(rows[entries[i].1])
    ensures |r.items| < |entries| ==> entries[|r.items|].1 in lookup || entries[|r.items|].1 !in rows
    ensures r.panic.Some? <==> |r.items| < |entries| && entries[|r.items|].1 in lookup
    ensures r.panic.Some? ==> r.panic.value == UnwrapPanic(lookup[entries[|r.items|].1])
  {
    if entries == [] then Walk([], None)
    else
      var pk := entries[0].1;
      if pk in lookup then Walk([], Some(UnwrapPanic(lookup[pk])))
      else if pk !in rows then Walk([], None)
      else
        var rest := Backward(m, rows, lookup, entries[1..]);
        Walk([m.decode(rows[pk])] + rest.items, rest.panic)
  }

  /**
    The start-with iterator over a run of entries: the first secondary key
    without the prefix ends the iteration; for the others a failed lookup
    panics and a primary key without a row ends the iteration.
   */
  function PrefixWalk<T>(m: InputModel<T>, rows: map<Key, Bytes>, lookup: map<Key, string>, prefix: Key,
                         entries: seq<(Key, Key)>)
    : (r: Walk<T>)
    ensures |r.items| <= |entries|
    ensures forall i :: 0 <= i < |r.items| ==>
      && StartsWith(entries[i].0.data, prefix.data)
      && entries[i].1 !in lookup && entries[i].1 in rows
      && r.items[i] == m.decode(rows[entries[i].1])
    ensures |r.items| < |entries| ==>
      || !StartsWith(entries[|r.items|].0.data, prefix.data)
      || entries[|r.items|].1 in lookup || entries[|r.items|].1 !in rows
    ensures r.panic.Some? <==>
      |r.items| < |entries| && StartsWith(entries[|r.items|].0.data, prefix.data) && entries[|r.items|].1 in lookup
  {
    if entries == [] then Walk([], None)
    else
      var pk := entries[0].1;
      if !StartsWith(entries[0].0.data, prefix.data) then Walk([], None)
      else if pk in lookup then Walk([], Some(UnwrapPanic(lookup[pk])))
      else if pk !in rows then Walk([], None)
      else
        var rest := PrefixWalk(m, rows, lookup, prefix, entries[1..]);
        Walk([m.decode(rows[pk])] + rest.items, rest.panic)
  }

  /** `all`: every entry, forwards; the range is unwrapped. */
  function All<T>(m: InputModel<T>, rows: map<Key, Bytes>, pairs: set<(Key, Key)>, faults: Faults): (r: Walk<T>)
    ensures faults.open.Some? ==> r == Walk([], Some(UnwrapPanic(faults.open.value)))
    ensures faults.open.None? ==> r.panic.None? && |r.items| <= |pairs|
  {
    if faults.open.Some? then Walk([], Some(UnwrapPanic(faults.open.value)))
    else Walk(Forward(m, rows, faults.lookup, Visit(SortedPairs(pairs), faults.step)), None)
  }

  /** `all` driven backwards: every entry, the last one first. */
  function AllBackwards<T>(m: InputModel<T>, rows: map<Key, Bytes>, pairs: set<(Key, Key)>, faults: Faults): (r: Walk<T>)
    ensures faults.open.Some? ==> r == Walk([], Some(UnwrapPanic(faults.open.value)))
    ensures faults.open.None? ==> |r.items| <= |pairs|
  {
    if faults.open.Some? then Walk([], Some(UnwrapPanic(faults.open.value)))
    else Backward(m, rows, faults.lookup, Visit(Batches.Reverse(SortedPairs(pairs)), faults.step))
  }

  /**
    `range`: the bounds become a `KeyRange` over secondary keys, with no
    check of their key type, and the range is unwrapped.
   */
  function Range<T, B>(m: InputModel<T>, rows: map<Key, Bytes>, pairs: set<(Key, Key)>,
                       start: Bound<B>, end: Bound<B>, toKey: B -> Key, faults: Faults)
    : (r: Walk<T>)
    ensures faults.open.Some? ==> r == Walk([], Some(UnwrapPanic(faults.open.value)))
    ensures faults.open.None? ==> r.panic.None?
  {
    if faults.open.Some? then Walk([], Some(UnwrapPanic(faults.open.value)))
    else Walk(Forward(m, rows, faults.lookup, Visit(RangeEntries(pairs, NewRange(start, end, toKey)), faults.step)), None)
  }

  /**
    `range` driven from its end (`next_back` of the same iterator): the
    admitted entries, the last one first, where a failed lookup panics.
   */
  function RangeBackwards<T, B>(m: InputModel<T>, rows: map<Key, Bytes>, pairs: set<(Key, Key)>,
                                start: Bound<B>, end: Bound<B>, toKey: B -> Key, faults: Faults)
    : (r: Walk<T>)
    ensures faults.open.Some? ==> r == Walk([], Some(UnwrapPanic(faults.open.value)))
    ensures faults.open.None? ==> |r.items| <= |RangeEntries(pairs, NewRange(start, end, toKey))|
  {
    if faults.open.Some? then Walk([], Some(UnwrapPanic(faults.open.value)))
    else Backward(m, rows, faults.lookup, Visit(Batches.Reverse(RangeEntries(pairs, NewRange(start, end, toKey))), faults.step))
  }

  /** `start_with`: the entries from the prefix onwards, while their secondary key carries it. */
  function StartWith<T>(m: InputModel<T>, rows: map<Key, Bytes>, pairs: set<(Key, Key)>, prefix: Key, faults: Faults)
    : (r: Walk<T>)
    ensures faults.open.Some? ==> r == Walk([], Some(UnwrapPanic(faults.open.value)))
  {
    if faults.open.Some? then Walk([], Some(UnwrapPanic(faults.open.value)))
    else PrefixWalk(m, rows, faults.lookup, prefix, Visit(RangeEntries(pairs, RangeFrom(prefix)), faults.step))
  }

  /** Every entry of the secondary table points at a stored record. */
  ghost predicate Consistent(rows: map<Key, Bytes>, pairs: set<(Key, Key)>) {
    forall p :: p in pairs ==> p.1 in rows
  }

  /** Over entries that all point at stored records, without lookup faults, the forward iterator reads them all. */
  lemma ForwardReadsIntactEntries<T>(m: InputModel<T>, rows: map<Key, Bytes>, entries: seq<(Key, Key)>)
    requires forall i :: 0 <= i < |entries| ==> entries[i].1 in rows
    ensures Forward(m, rows, map[], entries) == Decoded(m, rows, PrimaryKeys(entries))
  {
    var r := Forward(m, rows, map[], entries);
    assert |r| == |entries|;
  }

  /**
    Without faults, over a consistent index, a range scan yields the record of
    every entry whose secondary key the translated bounds admit, in storage
    order of the entries.
   */
  lemma RangeYieldsAdmittedEntries<T, B>(m: InputModel<T>, rows: map<Key, Bytes>, pairs: set<(Key, Key)>,
                                         start: Bound<B>, end: Bound<B>, toKey: B -> Key)
    requires Consistent(rows, pairs)
    ensures var entries := RangeEntries(pairs, NewRange(start, end, toKey));
      && Range(m, rows, pairs, start, end, toKey, NoFaults) == Walk(Decoded(m, rows, PrimaryKeys(entries)), None)
      && (forall p :: p in entries <==> p in pairs && TranslatedRangeAdmits(start, end, toKey, p.0))
  {
    var entries := RangeEntries(pairs, NewRange(start, end, toKey));
    forall i | 0 <= i < |entries| ensures entries[i].1 in rows {
      assert entries[i] in pairs;
    }
    ForwardReadsIntactEntries(m, rows, entries);
  }

  /**
    An entry whose record is missing ends the forward scan without an error:
    the records of the entries after it are never yielded.
   */
  lemma DanglingEntryEndsForwardScan<T>(m: InputModel<T>, rows: map<Key, Bytes>, entries: seq<(Key, Key)>, j: nat)
    requires j < |entries| && entries[j].1 !in rows
    requires forall i :: 0 <= i < j ==> entries[i].1 in rows
    ensures Forward(m, rows, map[], entries) == Decoded(m, rows, PrimaryKeys(entries[..j]))
  {
    assert forall i :: 0 <= i < j ==> PrimaryKeys(entries[..j])[i] == entries[i].1;
  }

  /** A failed lookup during a backward scan panics instead of ending the scan. */
  lemma BackwardPanicsOnFailedLookup<T>(m: InputModel<T>, rows: map<Key, Bytes>, pairs: set<(Key, Key)>, lookup: map<Key, string>)
    requires Consistent(rows, pairs)
    requires exists p :: p in pairs && p.1 in lookup
    ensures AllBackwards(m, rows, pairs, Faults(None, None, lookup)).panic.Some?
  {
    var entries := Batches.Reverse(SortedPairs(pairs));
    var p :| p in pairs && p.1 in lookup;
    var k := ReversedEntriesInRows(rows, pairs, p);
    BackwardPanicsAt(m, rows, lookup, entries, k);
  }

  /** The reversed listing of a consistent index points only at stored records, and lists every entry. */
  lemma ReversedEntriesInRows(rows: map<Key, Bytes>, pairs: set<(Key, Key)>, p: (Key, Key)) returns (k: nat)
    requires Consistent(rows, pairs)
    requires p in pairs
    ensures k < |Batches.Reverse(SortedPairs(pairs))| && Batches.Reverse(SortedPairs(pairs))[k] == p
    ensures forall i :: 0 <= i < |Batches.Reverse(SortedPairs(pairs))| ==> Batches.Reverse(SortedPairs(pairs))[i].1 in rows
  {
    var sorted := SortedPairs(pairs);
    assert p in sorted;
    k := ReversedPosition(sorted, p);
    SortedEntriesInRows(rows, pairs);
    ReverseKeepsTargets(rows, sorted);
  }

  lemma ReversedPosition<T>(s: seq<T>, p: T) returns (k: nat)
    requires p in s
    ensures k < |Batches.Reverse(s)| && Batches.Reverse(s)[k] == p
  {
    var j :| 0 <= j < |s| && s[j] == p;
    k := |s| - 1 - j;
  }

  lemma ReverseKeepsTargets(rows: map<Key, Bytes>, entries: seq<(Key, Key)>)
    requires forall i :: 0 <= i < |entries| ==> entries[i].1 in rows
    ensures forall i :: 0 <= i < |Batches.Reverse(entries)| ==> Batches.Reverse(entries)[i].1 in rows
  {
    var reversed := Batches.Reverse(entries);
    forall i | 0 <= i < |reversed| ensures reversed[i].1 in rows {
      assert reversed[i] == entries[|entries| - 1 - i];
    }
  }

  lemma SortedEntriesInRows(rows: map<Key, Bytes>, pairs: set<(Key, Key)>)
    requires Consistent(rows, pairs)
    ensures forall i :: 0 <= i < |SortedPairs(pairs)| ==> SortedPairs(pairs)[i].1 in rows
  {
    var sorted := SortedPairs(pairs);
    forall i | 0 <= i < |sorted| ensures sorted[i].1 in rows {
      assert sorted[i] in sorted;
    }
  }

  /** A backward iterator over entries that reaches a failed lookup panics there. */
  lemma {:induction false} BackwardPanicsAt<T>(m: InputModel<T>, rows: map<Key, Bytes>, lookup: map<Key, string>,
                                               entries: seq<(Key, Key)>, k: nat)
    requires k < |entries| && entries[k].1 in lookup
    requires forall i :: 0 <= i < k ==> entries[i].1 in rows
    ensures Backward(m, rows, lookup, entries).panic.Some?
  {
    if entries[0].1 !in lookup {
      assert forall i :: 0 <= i < k - 1 ==> entries[1..][i] == entries[i + 1];
      BackwardPanicsAt(m, rows, lookup, entries[1..], k - 1);
    }
  }

  /** Over entries that all point at stored records, without lookup faults, the backward iterator reads them all. */
  lemma BackwardReadsIntactEntries<T>(m: InputModel<T>, rows: map<Key, Bytes>, entries: seq<(Key, Key)>)
    requires forall i :: 0 <= i < |entries| ==> entries[i].1 in rows
    ensures Backward(m, rows, map[], entries) == Walk(Decoded(m, rows, PrimaryKeys(entries)), None)
  {
    var r := Backward(m, rows, map[], entries);
    assert |r.items| == |entries|;
  }

  /** The primary keys of reversed entries are the reversed primary keys. */
  lemma PrimaryKeysOfReverse(entries: seq<(Key, Key)>)
    ensures PrimaryKeys(Batches.Reverse(entries)) == Batches.Reverse(PrimaryKeys(entries))
  {
    var keys := PrimaryKeys(entries);
    forall i | 0 <= i < |entries| ensures PrimaryKeys(Batches.Reverse(entries))[i] == Batches.Reverse(keys)[i] {
      assert Batches.Reverse(entries)[i] == entries[|entries| - 1 - i];
    }
  }

  /** Without faults, over a consistent index, the backward scan yields the forward scan's records reversed. */
  lemma BackwardsReversesForwards<T>(m: InputModel<T>, rows: map<Key, Bytes>, pairs: set<(Key, Key)>)
    requires Consistent(rows, pairs)
    ensures AllBackwards(m, rows, pairs, NoFaults) == Walk(Batches.Reverse(All(m, rows, pairs, NoFaults).items), None)
  {
    var sorted := SortedPairs(pairs);
    SortedEntriesInRows(rows, pairs);
    ForwardReadsIntactEntries(m, rows, sorted);
    PrimaryKeysOfReverse(sorted);
    DecodedOfReverse(m, rows, PrimaryKeys(sorted));
    BackwardReadsIntactEntries(m, rows, Batches.Reverse(sorted));
  }

  /**
    Without faults, over a consistent index, `all` yields the record of every
    entry of the secondary table, in storage order of the entries.
   */
  lemma AllYieldsEveryEntry<T>(m: InputModel<T>, rows: map<Key, Bytes>, pairs: set<(Key, Key)>)
    requires Consistent(rows, pairs)
    ensures All(m, rows, pairs, NoFaults) == Walk(Decoded(m, rows, PrimaryKeys(SortedPairs(pairs))), None)
    ensures forall p :: p in SortedPairs(pairs) <==> p in pairs
  {
    SortedEntriesInRows(rows, pairs);
    ForwardReadsIntactEntries(m, rows, SortedPairs(pairs));
  }

  /**
    Without faults, over a consistent index, a range driven backwards yields
    the forward range scan's records in reverse, without a panic.
   */
  lemma RangeBackwardsReversesRange<T, B>(m: InputModel<T>, rows: map<Key, Bytes>, pairs: set<(Key, Key)>,
                                          start: Bound<B>, end: Bound<B>, toKey: B -> Key)
    requires Consistent(rows, pairs)
    ensures RangeBackwards(m, rows, pairs, start, end, toKey, NoFaults)
         == Walk(Batches.Reverse(Range(m, rows, pairs, start, end, toKey, NoFaults).items), None)
  {
    var entries := RangeEntries(pairs, NewRange(start, end, toKey));
    forall i | 0 <= i < |entries| ensures entries[i].1 in rows {
      assert entries[i] in pairs;
    }
    ForwardReadsIntactEntries(m, rows, entries);
    PrimaryKeysOfReverse(entries);
    DecodedOfReverse(m, rows, PrimaryKeys(entries));
    ReverseKeepsTargets(rows, entries);
    BackwardReadsIntactEntries(m, rows, Batches.Reverse(entries));
  }

  /** The entries whose secondary key carries the prefix, in storage order: the reference for `start_with`. */
  function PrefixEntries(pairs: set<(Key, Key)>, prefix: Key): (r: seq<(Key, Key)>)
    ensures forall p :: p in r <==> p in pairs && StartsWith(p.0.data, prefix.data)
  {
    Filter(SortedPairs(pairs), (p: (Key, Key)) => StartsWith(p.0.data, prefix.data))
  }

  /** Ascending entries have ascending secondary keys. */
  lemma SecondaryKeysAscend(entries: seq<(Key, Key)>, i: nat, j: nat)
    requires StrictlySorted(entries, PairLe) && i <= j < |entries|
    ensures LessEq(entries[i].0.data, entries[j].0.data)
  {
    if i == j {
      LessEqReflexive(entries[i].0.data);
    } else if entries[i].0 == entries[j].0 {
      LessEqReflexive(entries[i].0.data);
    } else {
      assert PairLe(entries[i], entries[j]);
    }
  }

  /** The entries the prefix walk reads when every entry is intact and nothing fails. */
  function PrefixRun(entries: seq<(Key, Key)>, prefix: Key): (r: seq<(Key, Key)>)
    ensures |r| <= |entries| && r == entries[..|r|]
    ensures forall i :: 0 <= i < |r| ==> StartsWith(r[i].0.data, prefix.data)
    ensures |r| < |entries| ==> !StartsWith(entries[|r|].0.data, prefix.data)
  {
    if entries == [] || !StartsWith(entries[0].0.data, prefix.data) then []
    else [entries[0]] + PrefixRun(entries[1..], prefix)
  }

  /** Over intact entries without lookup faults, the prefix walk reads exactly the prefix run. */
  lemma PrefixWalkReadsRun<T>(m: InputModel<T>, rows: map<Key, Bytes>, prefix: Key, entries: seq<(Key, Key)>)
    requires forall i :: 0 <= i < |entries| ==> entries[i].1 in rows
    ensures PrefixWalk(m, rows, map[], prefix, entries) == Walk(Decoded(m, rows, PrimaryKeys(PrefixRun(entries, prefix))), None)
  {
    var r := PrefixWalk(m, rows, map[], prefix, entries);
    var run := PrefixRun(entries, prefix);
    assert |r.items| == |run|;
  }

  /** The prefix run of the entries from the prefix onwards holds every entry carrying the prefix. */
  lemma PrefixRunKeepsAllPrefixed(entries: seq<(Key, Key)>, prefix: Key)
    requires StrictlySorted(entries, PairLe)
    requires forall i :: 0 <= i < |entries| ==> LessEq(prefix.data, entries[i].0.data)
    ensures forall p :: p in PrefixRun(entries, prefix) <==> p in entries && StartsWith(p.0.data, prefix.data)
  {
    var r := PrefixRun(entries, prefix);
    forall p | p in entries && StartsWith(p.0.data, prefix.data) ensures p in r {
      var j :| 0 <= j < |entries| && entries[j] == p;
      if j >= |r| {
        var stop := entries[|r|];
        SecondaryKeysAscend(entries, |r|, j);
        PrefixRunIsContiguous(prefix.data, stop.0.data, p.0.data);
      }
      assert r[j] == p;
    }
  }

  /** The entries from a prefix on all sort at or after it. */
  lemma RangeFromBoundsEntries(pairs: set<(Key, Key)>, prefix: Key)
    ensures var from := RangeEntries(pairs, RangeFrom(prefix));
      forall i :: 0 <= i < |from| ==> LessEq(prefix.data, from[i].0.data)
  {
    var from := RangeEntries(pairs, RangeFrom(prefix));
    forall i | 0 <= i < |from| ensures LessEq(prefix.data, from[i].0.data) {
      assert from[i] in from;
    }
  }

  /** Every entry whose secondary key carries the prefix is among the entries from the prefix on. */
  lemma RangeFromHoldsPrefixed(pairs: set<(Key, Key)>, prefix: Key)
    ensures forall p :: p in pairs && StartsWith(p.0.data, prefix.data) ==> p in RangeEntries(pairs, RangeFrom(prefix))
  {
    forall p | p in pairs && StartsWith(p.0.data, prefix.data) ensures p in RangeEntries(pairs, RangeFrom(prefix)) {
      PrefixIsLowerBound(p.0.data, prefix.data);
    }
  }

  lemma PrefixRunOfRangeCovers(pairs: set<(Key, Key)>, prefix: Key)
    ensures forall p :: p in PrefixRun(RangeEntries(pairs, RangeFrom(prefix)), prefix) <==>
                        p in pairs && StartsWith(p.0.data, prefix.data)
  {
    var from := RangeEntries(pairs, RangeFrom(prefix));
    RangeFromBoundsEntries(pairs, prefix);
    PrefixRunKeepsAllPrefixed(from, prefix);
    RangeFromHoldsPrefixed(pairs, prefix);
  }

  lemma PrefixRunOfRangeAscends(pairs: set<(Key, Key)>, prefix: Key)
    ensures StrictlySorted(PrefixRun(RangeEntries(pairs, RangeFrom(prefix)), prefix), PairLe)
  {
    var from := RangeEntries(pairs, RangeFrom(prefix));
    var run := PrefixRun(from, prefix);
    forall i, j | 0 <= i < j < |run| ensures PairLe(run[i], run[j]) && run[i] != run[j] {
      assert run[i] == from[i] && run[j] == from[j];
    }
  }

  lemma PrefixRunIsPrefixEntries(pairs: set<(Key, Key)>, prefix: Key, matching: set<(Key, Key)>)
    requires forall p :: p in matching <==> p in pairs && StartsWith(p.0.data, prefix.data)
    ensures PrefixRun(RangeEntries(pairs, RangeFrom(prefix)), prefix) == PrefixEntries(pairs, prefix)
  {
    var run := PrefixRun(RangeEntries(pairs, RangeFrom(prefix)), prefix);
    PrefixRunOfRangeCovers(pairs, prefix);
    PrefixRunOfRangeAscends(pairs, prefix);
    PairLeIsTotalOrder();
    FilterSorted(SortedPairs(pairs), (p: (Key, Key)) => StartsWith(p.0.data, prefix.data), PairLe);
    ListingsAgree(matching, run, PrefixEntries(pairs, prefix), PairLe);
  }

  /**
    Without faults, over a consistent index, a start-with scan yields the
    record of every entry whose secondary key carries the prefix, in storage
    order of the entries.
   */
  lemma StartWithYieldsPrefixedEntries<T>(m: InputModel<T>, rows: map<Key, Bytes>, pairs: set<(Key, Key)>, prefix: Key)
    requires Consistent(rows, pairs)
    ensures StartWith(m, rows, pairs, prefix, NoFaults) == Walk(Decoded(m, rows, PrimaryKeys(PrefixEntries(pairs, prefix))), None)
  {
    var from := RangeEntries(pairs, RangeFrom(prefix));
    forall i | 0 <= i < |from| ensures from[i].1 in rows {
      assert from[i] in pairs;
    }
    PrefixWalkReadsRun(m, rows, prefix, from);
    var matching := set p | p in pairs && StartsWith(p.0.data, prefix.data);
    PrefixRunIsPrefixEntries(pairs, prefix, matching);
  }
}
