/**
  The events a read-write transaction collects before commit
  (src/watch/batch.rs): a vector that `add` pushes onto and whose iterator
  pops, so events come out most recent first.
 */
module Batches {
  import opened Outcome
  import opened WatchEvents

  datatype Batch = Batch(entries: seq<(WatcherRequest, Event)>)

  /** `Batch::new` */
  function NewBatch(): (b: Batch)
    ensures |b.entries| == 0
  {
    Batch([])
  }

  /** `Batch::add`: the pair goes after every pair already added. */
  function Add(b: Batch, request: WatcherRequest, event: Event): (r: Batch)
    ensures |r.entries| == |b.entries| + 1
    ensures r.entries[..|b.entries|] == b.entries
    ensures r.entries[|b.entries|] == (request, event)
  {
    Batch(b.entries + [(request, event)])
  }

  /** `Iterator::next`: removes and returns the last pair added, or `None` once empty. */
  function Next(b: Batch): (r: (Option<(WatcherRequest, Event)>, Batch))
    ensures r.0.None? <==> |b.entries| == 0
    ensures r.0.None? ==> r.1 == b
    ensures r.0.Some? ==> |r.1.entries| == |b.entries| - 1
  {
    if |b.entries| == 0 then (None, b)
    else (Some(b.entries[|b.entries| - 1]), Batch(b.entries[..|b.entries| - 1]))
  }

  /** Popping right after pushing gives back the pushed pair and the batch as it was. */
  lemma NextUndoesAdd(b: Batch, request: WatcherRequest, event: Event)
    ensures Next(Add(b, request, event)) == (Some((request, event)), b)
  {
    assert Add(b, request, event).entries[..|b.entries|] == b.entries;
  }

  /** Everything a `for` loop over the batch receives, in order. */
  function Drain(b: Batch): (r: seq<(WatcherRequest, Event)>)
    ensures |r| == |b.entries|
    decreases |b.entries|
  {
    match Next(b)
    case (None, _) => []
    case (Some(x), rest) => [x] + Drain(rest)
  }

  /** The reverse of a sequence. */
  function Reverse<T>(s: seq<T>): (r: seq<T>)
    ensures |r| == |s|
    ensures forall i :: 0 <= i < |s| ==> r[i] == s[|s| - 1 - i]
  {
    if s == [] then [] else Reverse(s[1..]) + [s[0]]
  }

  /** Iteration yields every added pair exactly once, the most recently added first. */
  lemma {:induction false} DrainIsReverse(b: Batch)
    ensures Drain(b) == Reverse(b.entries)
    decreases |b.entries|
  {
    if |b.entries| > 0 {
      var n := |b.entries|;
      var rest := Batch(b.entries[..n - 1]);
      DrainIsReverse(rest);
      assert Drain(b) == [b.entries[n - 1]] + Reverse(rest.entries);
      assert b.entries == rest.entries + [b.entries[n - 1]];
      ReverseOfAppend(rest.entries, b.entries[n - 1]);
    }
  }

  lemma ReverseOfAppend<T>(s: seq<T>, x: T)
    ensures Reverse(s + [x]) == [x] + Reverse(s)
  {
    var expected := [x] + Reverse(s);
    forall i | 0 <= i < |s| + 1 ensures Reverse(s + [x])[i] == expected[i] {
      if i > 0 {
        assert expected[i] == Reverse(s)[i - 1] == s[|s| - i];
      }
    }
  }

  /** The pair added last is the first one drained. */
  lemma DrainOfAdds(b: Batch, request: WatcherRequest, event: Event)
    ensures Drain(Add(b, request, event)) == [(request, event)] + Drain(b)
  {
    NextUndoesAdd(b, request, event);
  }
}
