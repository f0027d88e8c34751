/**
  Scans of a model's primary table (src/transaction/query/scan/primary_scan.rs):
  every row, the rows of a key range, or the rows whose key starts with a
  prefix, each decoded into a record, forwards or (for `all` and `range`,
  whose iterator is double-ended) backwards. A scan is represented by the sequence of items its iterator
  yields until it returns `None`.
 */
module PrimaryScans {
  import opened Bytes
  import opened Outcome
  import opened Sorting
  import opened Keys
  import opened Errors
  import opened Input
  import opened Tables
  import Batches

  /**
    The storage faults a scan can meet: opening the range (`open`), reading
    the range at a given step (`step`, counted from 0), and looking a
    primary key up in the primary table (`lookup`, with the failure's
    description; used by secondary scans).
   */
  datatype Faults = Faults(open: Option<string>, step: Option<nat>, lookup: map<Key, string>)

  const NoFaults: Faults := Faults(None, None, map[])

  /** The keys a range iterator hands out before a failing step ends it. */
  function Visit<K>(keys: seq<K>, step: Option<nat>): (r: seq<K>)
    ensures |r| <= |keys| && r == keys[..|r|]
    ensures step.None? ==> r == keys
    ensures step.Some? && step.value < |keys| ==> |r| == step.value
    ensures step.Some? && step.value >= |keys| ==> r == keys
  {
    if step.Some? && step.value < |keys| then keys[..step.value] else keys
  }

  /** Whether a key lies in a range. */
  function InRange(range: KeyRange): Key -> bool {
    (k: Key) => Contains(range, k)
  }

  /** Whether a key starts with a prefix. */
  function HasPrefix(prefix: Key): Key -> bool {
    (k: Key) => StartsWith(k.data, prefix.data)
  }

  /** The keys of a table inside a range, in storage order. */
  function RangeKeys(rows: map<Key, Bytes>, range: KeyRange): (r: seq<Key>)
    ensures forall k :: k in r <==> k in rows && Contains(range, k)
    ensures StrictlySorted(r, KeyLe)
  {
    KeyLeIsTotalOrder();
    FilterSorted(SortedKeys(rows), InRange(range), KeyLe);
    Filter(SortedKeys(rows), InRange(range))
  }

  /** `unwrap_item` over a run of keys: each row's payload decoded into a record. */
  function Decoded<T>(m: InputModel<T>, rows: map<Key, Bytes>, keys: seq<Key>): (r: seq<Result<T, Error>>)
    requires forall k :: k in keys ==> k in rows
    ensures |r| == |keys|
    ensures forall i :: 0 <= i < |keys| ==> r[i] == m.decode(rows[keys[i]])
  {
    seq(|keys|, i requires 0 <= i < |keys| => m.decode(rows[keys[i]]))
  }

  /** `all`: every row, forwards; a failure to open the range is returned. */
  function All<T>(m: InputModel<T>, rows: map<Key, Bytes>, faults: Faults): (r: Result<seq<Result<T, Error>>, Error>)
    ensures faults.open.Some? ==> r == Err(Storage(faults.open.value))
    ensures faults.open.None? ==> r.Ok? && |r.value| <= |rows|
    ensures faults == NoFaults ==> r == Ok(Decoded(m, rows, SortedKeys(rows)))
  {
    if faults.open.Some? then Err(Storage(faults.open.value))
    else Ok(Decoded(m, rows, Visit(SortedKeys(rows), faults.step)))
  }

  /** `all` driven backwards (`next_back`): every row, last key first. */
  function AllBackwards<T>(m: InputModel<T>, rows: map<Key, Bytes>, faults: Faults): (r: Result<seq<Result<T, Error>>, Error>)
    ensures faults.open.Some? ==> r == Err(Storage(faults.open.value))
    ensures faults.open.None? ==> r.Ok? && |r.value| <= |rows|
  {
    if faults.open.Some? then Err(Storage(faults.open.value))
    else
      var backwards := Batches.Reverse(SortedKeys(rows));
      assert forall k :: k in backwards ==> k in SortedKeys(rows);
      Ok(Decoded(m, rows, Visit(backwards, faults.step)))
  }

  /** Without faults, the backward scan yields the forward scan's items in reverse. */
  lemma BackwardsReversesForwards<T>(m: InputModel<T>, rows: map<Key, Bytes>)
    ensures AllBackwards(m, rows, NoFaults).value == Batches.Reverse(All(m, rows, NoFaults).value)
  {
    var keys := SortedKeys(rows);
    DecodedOfReverse(m, rows, keys);
    assert AllBackwards(m, rows, NoFaults).value == Decoded(m, rows, Batches.Reverse(keys));
  }

  /** Decoding keys in reverse reverses the decoded records. */
  lemma DecodedOfReverse<T>(m: InputModel<T>, rows: map<Key, Bytes>, keys: seq<Key>)
    requires forall k :: k in keys ==> k in rows
    ensures forall k :: k in Batches.Reverse(keys) ==> k in rows
    ensures Decoded(m, rows, Batches.Reverse(keys)) == Batches.Reverse(Decoded(m, rows, keys))
  {
    var reversed := Batches.Reverse(keys);
    forall k | k in reversed ensures k in rows {
      var i :| 0 <= i < |reversed| && reversed[i] == k;
      assert keys[|keys| - 1 - i] == k;
    }
    var forwards := Decoded(m, rows, keys);
    var mirrored := Batches.Reverse(forwards);
    var backwards := Decoded(m, rows, reversed);
    forall i | 0 <= i < |keys| ensures backwards[i] == mirrored[i] {
      assert mirrored[i] == forwards[|keys| - 1 - i];
    }
  }

  /**
    `range`: the key type of the bounds is checked against the model first
    (`typeCheck` stands for `check_range_key_range_bounds`), then the bounds
    become a `KeyRange` and the rows inside it are visited in key order.
   */
  function Range<T, B>(m: InputModel<T>, typeCheck: Result<(), Error>, rows: map<Key, Bytes>,
                       start: Bound<B>, end: Bound<B>, toKey: B -> Key, faults: Faults)
    : (r: Result<seq<Result<T, Error>>, Error>)
    ensures typeCheck.Err? ==> r == Err(typeCheck.error)
    ensures typeCheck.Ok? && faults.open.Some? ==> r == Err(Storage(faults.open.value))
    ensures typeCheck.Ok? && faults.open.None? ==> r.Ok?
  {
    if typeCheck.Err? then Err(typeCheck.error)
    else if faults.open.Some? then Err(Storage(faults.open.value))
    else Ok(Decoded(m, rows, Visit(RangeKeys(rows, NewRange(start, end, toKey)), faults.step)))
  }

  /**
    Without faults, a range scan yields exactly the rows whose key the
    translated bounds admit, one per row, in ascending key order.
   */
  lemma RangeYieldsAdmittedRows<T, B>(m: InputModel<T>, rows: map<Key, Bytes>, start: Bound<B>, end: Bound<B>, toKey: B -> Key)
    ensures var keys := RangeKeys(rows, NewRange(start, end, toKey));
      && Range(m, Ok(()), rows, start, end, toKey, NoFaults) == Ok(Decoded(m, rows, keys))
      && (forall k :: k in keys <==> k in rows && TranslatedRangeAdmits(start, end, toKey, k))
      && (forall i, j :: 0 <= i < j < |keys| ==> Less(keys[i].data, keys[j].data))
  {
    SortedKeysAscend(RangeKeys(rows, NewRange(start, end, toKey)));
  }

  /**
    `range` driven from its end (`next_back` of the same double-ended
    iterator): the checks are those of the forward scan, and the rows inside
    the range are visited in descending key order.
   */
  function RangeBackwards<T, B>(m: InputModel<T>, typeCheck: Result<(), Error>, rows: map<Key, Bytes>,
                                start: Bound<B>, end: Bound<B>, toKey: B -> Key, faults: Faults)
    : (r: Result<seq<Result<T, Error>>, Error>)
    ensures typeCheck.Err? ==> r == Err(typeCheck.error)
    ensures typeCheck.Ok? && faults.open.Some? ==> r == Err(Storage(faults.open.value))
    ensures typeCheck.Ok? && faults.open.None? ==> r.Ok? && |r.value| <= |RangeKeys(rows, NewRange(start, end, toKey))|
  {
    if typeCheck.Err? then Err(typeCheck.error)
    else if faults.open.Some? then Err(Storage(faults.open.value))
    else
      var backwards := Batches.Reverse(RangeKeys(rows, NewRange(start, end, toKey)));
      assert forall k :: k in backwards ==> k in RangeKeys(rows, NewRange(start, end, toKey));
      Ok(Decoded(m, rows, Visit(backwards, faults.step)))
  }

  /** Without faults, a range driven backwards yields the forward range scan's items in reverse. */
  lemma RangeBackwardsReversesRange<T, B>(m: InputModel<T>, rows: map<Key, Bytes>, start: Bound<B>, end: Bound<B>, toKey: B -> Key)
    ensures RangeBackwards(m, Ok(()), rows, start, end, toKey, NoFaults).value
         == Batches.Reverse(Range(m, Ok(()), rows, start, end, toKey, NoFaults).value)
  {
    var keys := RangeKeys(rows, NewRange(start, end, toKey));
    DecodedOfReverse(m, rows, keys);
    assert RangeBackwards(m, Ok(()), rows, start, end, toKey, NoFaults).value == Decoded(m, rows, Batches.Reverse(keys));
  }

  /** The leading keys that carry the prefix: where the start-with iterator stops. */
  function TakeWhilePrefix(keys: seq<Key>, prefix: Key): (r: seq<Key>)
    ensures |r| <= |keys| && r == keys[..|r|]
    ensures forall i :: 0 <= i < |r| ==> StartsWith(r[i].data, prefix.data)
    ensures |r| < |keys| ==> !StartsWith(keys[|r|].data, prefix.data)
    ensures forall j :: 0 <= j < |keys| && !StartsWith(keys[j].data, prefix.data) ==> |r| <= j
  {
    if keys == [] || !StartsWith(keys[0].data, prefix.data) then []
    else [keys[0]] + TakeWhilePrefix(keys[1..], prefix)
  }

  /**
    `start_with`: the prefix's key type is checked first (`typeCheck` stands
    for `check_key_type`), then the rows from the prefix onwards are visited
    and the first key without the prefix ends the scan.
   */
  function StartWith<T>(m: InputModel<T>, typeCheck: Result<(), Error>, rows: map<Key, Bytes>, prefix: Key, faults: Faults)
    : (r: Result<seq<Result<T, Error>>, Error>)
    ensures typeCheck.Err? ==> r == Err(typeCheck.error)
    ensures typeCheck.Ok? && faults.open.Some? ==> r == Err(Storage(faults.open.value))
    ensures typeCheck.Ok? && faults.open.None? ==> r.Ok?
  {
    if typeCheck.Err? then Err(typeCheck.error)
    else if faults.open.Some? then Err(Storage(faults.open.value))
    else
      var visited := Visit(RangeKeys(rows, RangeFrom(prefix)), faults.step);
      Ok(Decoded(m, rows, TakeWhilePrefix(visited, prefix)))
  }

  /**
    In an ascending run of keys at or after the prefix, the keys carrying
    the prefix all come first: stopping at the first one without it misses
    none.
   */
  lemma TakeWhilePrefixKeepsAllPrefixed(keys: seq<Key>, prefix: Key)
    requires StrictlySorted(keys, KeyLe)
    requires forall i :: 0 <= i < |keys| ==> LessEq(prefix.data, keys[i].data)
    ensures forall k :: k in TakeWhilePrefix(keys, prefix) <==> k in keys && StartsWith(k.data, prefix.data)
  {
    var r := TakeWhilePrefix(keys, prefix);
    forall k | k in keys && StartsWith(k.data, prefix.data) ensures k in r {
      var j :| 0 <= j < |keys| && keys[j] == k;
      if j >= |r| {
        var stop := keys[|r|];
        if |r| < j {
          assert KeyLe(stop, k);
        }
        PrefixRunIsContiguous(prefix.data, stop.data, k.data);
        assert false;
      }
      assert r[j] == k;
    }
  }

  /** The rows whose key carries the prefix, in storage order: the reference for `start_with`. */
  function PrefixKeys(rows: map<Key, Bytes>, prefix: Key): (r: seq<Key>)
    ensures forall k :: k in r <==> k in rows && StartsWith(k.data, prefix.data)
  {
    Filter(SortedKeys(rows), HasPrefix(prefix))
  }

  /** The keys a fault-free start-with scan visits, in the order it visits them. */
  function StartWithKeys(rows: map<Key, Bytes>, prefix: Key): seq<Key> {
    TakeWhilePrefix(RangeKeys(rows, RangeFrom(prefix)), prefix)
  }

  lemma StartWithKeysAscend(rows: map<Key, Bytes>, prefix: Key)
    ensures StrictlySorted(StartWithKeys(rows, prefix), KeyLe)
  {
    var from := RangeKeys(rows, RangeFrom(prefix));
    var taken := StartWithKeys(rows, prefix);
    forall i, j | 0 <= i < j < |taken| ensures KeyLe(taken[i], taken[j]) && taken[i] != taken[j] {
      assert taken[i] == from[i] && taken[j] == from[j];
    }
  }

  lemma StartWithKeysCover(rows: map<Key, Bytes>, prefix: Key)
    ensures forall k :: k in StartWithKeys(rows, prefix) <==> k in rows && StartsWith(k.data, prefix.data)
  {
    var from := RangeKeys(rows, RangeFrom(prefix));
    forall i | 0 <= i < |from| ensures LessEq(prefix.data, from[i].data) {
      assert from[i] in from;
    }
    TakeWhilePrefixKeepsAllPrefixed(from, prefix);
    forall k | k in rows && StartsWith(k.data, prefix.data) ensures k in from {
      PrefixIsLowerBound(k.data, prefix.data);
    }
  }

  /** Without faults, a start-with scan yields exactly the rows whose key carries the prefix, in order. */
  lemma StartWithYieldsPrefixedRows<T>(m: InputModel<T>, rows: map<Key, Bytes>, prefix: Key)
    ensures StartWith(m, Ok(()), rows, prefix, NoFaults) == Ok(Decoded(m, rows, PrefixKeys(rows, prefix)))
  {
    StartWithKeysSameAsFilter(rows, prefix);
  }

  lemma StartWithKeysSameAsFilter(rows: map<Key, Bytes>, prefix: Key)
    ensures StartWithKeys(rows, prefix) == PrefixKeys(rows, prefix)
  {
    var matching := set k | k in rows && StartsWith(k.data, prefix.data);
    StartWithKeysAscend(rows, prefix);
    StartWithKeysCover(rows, prefix);
    KeyLeIsTotalOrder();
    FilterSorted(SortedKeys(rows), HasPrefix(prefix), KeyLe);
    assert Lists(StartWithKeys(rows, prefix), matching, KeyLe);
    assert Lists(PrefixKeys(rows, prefix), matching, KeyLe);
    ListingsAgree(matching, StartWithKeys(rows, prefix), PrefixKeys(rows, prefix), KeyLe);
  }

  /** Where the start-with iterator stops, the scan has handed out every key it will. */
  lemma StopIsEndOfScan(range: seq<Key>, step: Option<nat>, prefix: Key, i: nat)
    requires i <= |TakeWhilePrefix(Visit(range, step), prefix)|
    requires i == |range| || step == Some(i) || (i < |range| && !StartsWith(range[i].data, prefix.data))
    ensures i == |TakeWhilePrefix(Visit(range, step), prefix)|
  {
    var visited := Visit(range, step);
    var taken := TakeWhilePrefix(visited, prefix);
    if i == |range| {
      assert |taken| <= |visited| <= |range|;
    } else if step == Some(i) {
      assert |visited| <= i;
    } else {
      if step.Some? && step.value < |range| {
        assert |visited| == step.value != i;
      } else {
        assert visited == range;
      }
      assert visited[i] == range[i];
    }
  }

  /** A take-while that got as far as a prefixed key takes it too. */
  lemma {:induction false} TakeWhileGoesOn(keys: seq<Key>, prefix: Key, i: nat)
    requires i <= |TakeWhilePrefix(keys, prefix)|
    requires i < |keys| && StartsWith(keys[i].data, prefix.data)
    ensures i < |TakeWhilePrefix(keys, prefix)|
  {
    if i > 0 {
      TakeWhileGoesOn(keys[1..], prefix, i - 1);
    }
  }

  /** A key the loop would still take is the next key of the reference scan. */
  lemma ScanContinues(range: seq<Key>, step: Option<nat>, prefix: Key, i: nat)
    requires i <= |TakeWhilePrefix(Visit(range, step), prefix)|
    requires i < |range| && step != Some(i) && StartsWith(range[i].data, prefix.data)
    ensures i < |TakeWhilePrefix(Visit(range, step), prefix)| && TakeWhilePrefix(Visit(range, step), prefix)[i] == range[i]
  {
    var visited := Visit(range, step);
    var taken := TakeWhilePrefix(visited, prefix);
    if step.Some? && step.value < |range| {
      assert |visited| == step.value;
      assert step.value != i;
    } else {
      assert visited == range;
    }
    assert visited[i] == range[i] by {
      assert visited == range[..|visited|];
    }
    TakeWhileGoesOn(visited, prefix, i);
    assert taken[i] == visited[i] by {
      assert taken == visited[..|taken|];
    }
  }

  /**
    The start-with iterator driven to its end, as its `next` runs: each step
    takes the range's next row, stops on a failing step or a key without the
    prefix, and otherwise yields the decoded row.
   */
  method CollectStartWith<T>(m: InputModel<T>, rows: map<Key, Bytes>, prefix: Key, step: Option<nat>)
    returns (items: seq<Result<T, Error>>)
    ensures items == Decoded(m, rows, TakeWhilePrefix(Visit(RangeKeys(rows, RangeFrom(prefix)), step), prefix))
  {
    items := CollectWhilePrefix(m, rows, RangeKeys(rows, RangeFrom(prefix)), prefix, step);
  }

  /** The loop of `StartWith::next` over the keys from the prefix on. */
  method CollectWhilePrefix<T>(m: InputModel<T>, rows: map<Key, Bytes>, range: seq<Key>, prefix: Key, step: Option<nat>)
    returns (items: seq<Result<T, Error>>)
    requires forall k :: k in range ==> k in rows
    ensures items == Decoded(m, rows, TakeWhilePrefix(Visit(range, step), prefix))
  {
    ghost var expected := TakeWhilePrefix(Visit(range, step), prefix);
    items := [];
    var i := 0;
    while i < |range| && step != Some(i) && StartsWith(range[i].data, prefix.data)
      invariant i <= |expected|
      invariant |items| == i
      invariant forall j :: 0 <= j < i ==> items[j] == m.decode(rows[expected[j]])
    {
      var k := range[i];
      ScanContinues(range, step, prefix, i);
      items := items + [m.decode(rows[k])];
      i := i + 1;
    }
    StopIsEndOfScan(range, step, prefix, i);
  }
}
