/**
  Dispatch of a committed batch to the watchers (`push_batch` in
  src/watch/mod.rs). The registry lock is tried once; then every
  (request, event) pair, in the batch's iteration order, is sent to every
  sender `find_senders` returns, and the first failed send ends dispatch.
 */
module WatchDispatch {
  import opened Outcome
  import opened WatchEvents
  import opened Batches
  import opened Watchers

  /** `WatchEventError` */
  datatype WatchEventError =
    | TryLockErrorPoisoned(batch: Batch)
    | TryLockErrorWouldBlock(batch: Batch)
    | SendError(event: Event)

  /** What `try_read` on the registry lock finds. */
  datatype LockState = Available | Poisoned | WouldBlock

  /** The sends of one event to a list of senders. */
  function SendsOf(senders: seq<Sender>, event: Event): (r: seq<(Sender, Event)>)
    ensures |r| == |senders|
    ensures forall i :: 0 <= i < |senders| ==> r[i] == (senders[i], event)
  {
    seq(|senders|, i requires 0 <= i < |senders| => (senders[i], event))
  }

  /** Reference: every send a batch calls for, pair after pair, sender after sender. */
  function Plan(w: Watchers, order: seq<WatcherId>, pairs: seq<(WatcherRequest, Event)>): seq<(Sender, Event)>
    requires forall id :: id in order ==> id in w.entries
  {
    if pairs == [] then []
    else SendsOf(FindSenders(w, order, pairs[0].0), pairs[0].1) + Plan(w, order, pairs[1..])
  }

  lemma {:induction false} PlanAppend(w: Watchers, order: seq<WatcherId>, a: seq<(WatcherRequest, Event)>, b: seq<(WatcherRequest, Event)>)
    requires forall id :: id in order ==> id in w.entries
    ensures Plan(w, order, a + b) == Plan(w, order, a) + Plan(w, order, b)
  {
    if a == [] {
      assert a + b == b;
    } else {
      assert (a + b)[1..] == a[1..] + b;
      PlanAppend(w, order, a[1..], b);
    }
  }

  /** The plan of a batch extended by one pair. */
  lemma PlanSnoc(w: Watchers, order: seq<WatcherId>, done: seq<(WatcherRequest, Event)>, pair: (WatcherRequest, Event))
    requires forall id :: id in order ==> id in w.entries
    ensures Plan(w, order, done + [pair])
         == Plan(w, order, done) + SendsOf(FindSenders(w, order, pair.0), pair.1)
  {
    assert Plan(w, order, [pair]) == SendsOf(FindSenders(w, order, pair.0), pair.1) + Plan(w, order, []);
    PlanAppend(w, order, done, [pair]);
  }

  /** The plan of a batch whose pairs split around one pair. */
  lemma PlanAround(w: Watchers, order: seq<WatcherId>, done: seq<(WatcherRequest, Event)>,
                   pair: (WatcherRequest, Event), rest: seq<(WatcherRequest, Event)>)
    requires forall id :: id in order ==> id in w.entries
    ensures Plan(w, order, done + [pair] + rest)
         == Plan(w, order, done) + SendsOf(FindSenders(w, order, pair.0), pair.1) + Plan(w, order, rest)
    ensures Plan(w, order, done + [pair])
         == Plan(w, order, done) + SendsOf(FindSenders(w, order, pair.0), pair.1)
  {
    PlanSnoc(w, order, done, pair);
    PlanAppend(w, order, done + [pair], rest);
  }

  /** Stopping inside the sends of one pair: what went out is a prefix of the plan, and the next planned send is the failed one. */
  lemma StopInPlan(w: Watchers, order: seq<WatcherId>, done: seq<(WatcherRequest, Event)>,
                   pair: (WatcherRequest, Event), rest: seq<(WatcherRequest, Event)>, sent: seq<(Sender, Event)>)
    requires forall id :: id in order ==> id in w.entries
    requires |sent| < |FindSenders(w, order, pair.0)|
    requires sent == SendsOf(FindSenders(w, order, pair.0)[..|sent|], pair.1)
    ensures var plan := Plan(w, order, done + [pair] + rest);
      var d := Plan(w, order, done) + sent;
      && |d| < |plan|
      && plan[..|d|] == d
      && plan[|d|] == (FindSenders(w, order, pair.0)[|sent|], pair.1)
  {
    var senders := FindSenders(w, order, pair.0);
    PlanAround(w, order, done, pair, rest);
    assert SendsOf(senders, pair.1)[..|sent|] == sent;
  }

  /**
    The inner loop of `push_batch`: sends `event` to each sender in turn and
    stops at the first whose receiver is closed.
   */
  method SendToAll(senders: seq<Sender>, event: Event, closed: set<Sender>) returns (ok: bool, sent: seq<(Sender, Event)>)
    ensures ok ==> sent == SendsOf(senders, event)
    ensures !ok ==> |sent| < |senders| && sent == SendsOf(senders[..|sent|], event) && senders[|sent|] in closed
    ensures forall i :: 0 <= i < |sent| ==> sent[i].0 !in closed
  {
    sent := [];
    var j := 0;
    while j < |senders|
      invariant j <= |senders|
      invariant sent == SendsOf(senders[..j], event)
      invariant forall i :: 0 <= i < |sent| ==> sent[i].0 !in closed
    {
      if senders[j] in closed {
        return false, sent;
      }
      sent := sent + [(senders[j], event)];
      j := j + 1;
    }
    assert senders[..j] == senders;
    ok := true;
  }

  /**
    `push_batch`. `lock` is what `try_read` finds, `closed` the senders
    whose receiver has been dropped (a send to them fails); `delivered` lists
    the sends that succeeded, in order.
   */
  method PushBatch(w: Watchers, order: seq<WatcherId>, lock: LockState, batch: Batch, closed: set<Sender>)
    returns (r: Result<(), WatchEventError>, delivered: seq<(Sender, Event)>)
    requires forall id :: id in order ==> id in w.entries
    ensures lock == Poisoned ==> r == Err(TryLockErrorPoisoned(batch)) && delivered == []
    ensures lock == WouldBlock ==> r == Err(TryLockErrorWouldBlock(batch)) && delivered == []
    ensures lock == Available && r.Ok? ==> delivered == Plan(w, order, Drain(batch))
    ensures lock == Available && r.Err? ==>
      var plan := Plan(w, order, Drain(batch));
      && r.error.SendError?
      && |delivered| < |plan|
      && delivered == plan[..|delivered|]
      && plan[|delivered|].0 in closed
      && r.error.event == plan[|delivered|].1
    ensures forall i :: 0 <= i < |delivered| ==> delivered[i].0 !in closed
  {
    if lock == Poisoned {
      return Err(TryLockErrorPoisoned(batch)), [];
    }
    if lock == WouldBlock {
      return Err(TryLockErrorWouldBlock(batch)), [];
    }
    delivered := [];
    var b := batch;
    ghost var done: seq<(WatcherRequest, Event)> := [];
    while |b.entries| > 0
      invariant Drain(batch) == done + Drain(b)
      invariant delivered == Plan(w, order, done)
      invariant forall i :: 0 <= i < |delivered| ==> delivered[i].0 !in closed
      decreases |b.entries|
    {
      var (next, rest) := Next(b);
      var pair := next.value;
      assert Drain(batch) == done + [pair] + Drain(rest);
      var senders := FindSenders(w, order, pair.0);
      var ok, sent := SendToAll(senders, pair.1, closed);
      if !ok {
        StopInPlan(w, order, done, pair, Drain(rest), sent);
        delivered := delivered + sent;
        return Err(SendError(pair.1)), delivered;
      }
      PlanSnoc(w, order, done, pair);
      delivered := delivered + sent;
      done := done + [pair];
      b := rest;
    }
    assert done == Drain(batch);
    r := Ok(());
  }

  /** Dispatch succeeds exactly when no send the batch calls for goes to a closed receiver. */
  lemma PushBatchSucceedsIffAllAlive(w: Watchers, order: seq<WatcherId>, batch: Batch, closed: set<Sender>,
                                     r: Result<(), WatchEventError>, delivered: seq<(Sender, Event)>)
    requires forall id :: id in order ==> id in w.entries
    requires r.Ok? ==> delivered == Plan(w, order, Drain(batch))
    requires r.Err? ==> var plan := Plan(w, order, Drain(batch)); |delivered| < |plan| && plan[|delivered|].0 in closed
    requires forall i :: 0 <= i < |delivered| ==> delivered[i].0 !in closed
    ensures r.Ok? <==> forall i :: 0 <= i < |Plan(w, order, Drain(batch))| ==> Plan(w, order, Drain(batch))[i].0 !in closed
  {
  }
}
