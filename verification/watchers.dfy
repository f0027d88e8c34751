/**
  The registry of watchers (src/watch/sender.rs): each watcher id maps to the
  filter it registered and the sending half of its channel; `find_senders`
  picks the senders whose filter matches a changed record.
 */
module Watchers {
  import opened Bytes
  import opened Outcome
  import opened Sorting
  import Keys
  import KeySerializer
  import opened KeyDefinitions
  import opened KeyValues
  import opened WatchEvents

  type WatcherId = KeySerializer.UInt64

  /** Which keys of a table a watcher follows (the shape src/watch/sender.rs matches on). */
  datatype KeyFilter =
    | Primary(key: Option<Keys.Key>)
    | PrimaryStartWith(prefix: Keys.Key)
    | Secondary(definition: SecondaryDefinition, value: Option<Keys.Key>)
    | SecondaryStartWith(definition: SecondaryDefinition, prefix: Keys.Key)

  datatype TableFilter = TableFilter(tableName: string, keyFilter: KeyFilter)

  /** The sending half of one watcher's channel, identified by its channel. */
  datatype Sender = Sender(channel: nat)

  /** `Watchers(HashMap<u64, (TableFilter, Sender)>)` */
  datatype Watchers = Watchers(entries: map<WatcherId, (TableFilter, Sender)>)

  /** `Watchers::new` */
  function NewWatchers(): (w: Watchers)
    ensures |w.entries| == 0
  {
    Watchers(map[])
  }

  /** `add_sender`: inserts the entry for `id`, replacing any previous one. */
  function AddSender(w: Watchers, id: WatcherId, filter: TableFilter, sender: Sender): (r: Watchers)
    ensures r.entries.Keys == w.entries.Keys + {id}
    ensures r.entries[id] == (filter, sender)
    ensures forall other :: other in w.entries && other != id ==> r.entries[other] == w.entries[other]
  {
    Watchers(w.entries[id := (filter, sender)])
  }

  /** `remove_sender`: removes the entry for `id`; true iff there was one. */
  function RemoveSender(w: Watchers, id: WatcherId): (r: (bool, Watchers))
    ensures r.0 <==> id in w.entries
    ensures r.1.entries.Keys == w.entries.Keys - {id}
    ensures forall other :: other in r.1.entries ==> r.1.entries[other] == w.entries[other]
  {
    (id in w.entries, Watchers(w.entries - {id}))
  }

  /** Removing a freshly added watcher restores the registry; removing it again reports false. */
  lemma RemoveUndoesAdd(w: Watchers, id: WatcherId, filter: TableFilter, sender: Sender)
    requires id !in w.entries
    ensures RemoveSender(AddSender(w, id, filter, sender), id) == (true, w)
    ensures !RemoveSender(RemoveSender(AddSender(w, id, filter, sender), id).1, id).0
  {
    assert AddSender(w, id, filter, sender).entries - {id} == w.entries;
  }

  /**
    One secondary-key entry of a request pushes the sender of a secondary
    filter: the definition must be the same (by table name); a filter value
    must equal the entry's key, a prefix must start it; an entry without key
    (`Optional(None)`) matches only a filter without value.
   */
  predicate EntryPushes(f: KeyFilter, entry: (SecondaryDefinition, KeyValue)) {
    match f
    case Primary(_) => false
    case PrimaryStartWith(_) => false
    case Secondary(d, v) =>
      SameDefinition(d, entry.0) && (v.None? || KeyOf(entry.1) == v)
    case SecondaryStartWith(d, p) =>
      SameDefinition(d, entry.0) && KeyOf(entry.1).Some? && StartsWith(KeyOf(entry.1).value.data, p.data)
  }

  /** How many of the request's entries push the sender. */
  function CountPushes(f: KeyFilter, entries: seq<(SecondaryDefinition, KeyValue)>): (n: nat)
    ensures n <= |entries|
    ensures n > 0 <==> exists i :: 0 <= i < |entries| && EntryPushes(f, entries[i])
  {
    if entries == [] then 0
    else
      var rest := CountPushes(f, entries[1..]);
      assert forall i :: 0 < i < |entries| ==> entries[i] == entries[1..][i - 1];
      if EntryPushes(f, entries[0]) then 1 + rest else rest
  }

  /** How many times `find_senders` pushes the sender of a watcher with filter `f` for `request`. */
  function Pushes(f: TableFilter, request: WatcherRequest): nat {
    if f.tableName != request.tableName then 0
    else match f.keyFilter
      case Primary(None) => 1
      case Primary(Some(k)) => if k == request.primaryKey then 1 else 0
      case PrimaryStartWith(p) => if StartsWith(request.primaryKey.data, p.data) then 1 else 0
      case _ => CountPushes(f.keyFilter, request.secondaryKeys)
  }

  /** `n` copies of `s`. */
  function Repeat(s: Sender, n: nat): (r: seq<Sender>)
    ensures |r| == n && forall i :: 0 <= i < n ==> r[i] == s
  {
    if n == 0 then [] else [s] + Repeat(s, n - 1)
  }

  /** `find_senders`: the senders of matching watchers, visiting the registry in `order`. */
  function FindSenders(w: Watchers, order: seq<WatcherId>, request: WatcherRequest): (r: seq<Sender>)
    requires forall id :: id in order ==> id in w.entries
    ensures forall s :: s in r <==> Heard(w, order, request, s)
  {
    if order == [] then []
    else
      var entry := w.entries[order[0]];
      var rest := FindSenders(w, order[1..], request);
      PushesIffMatches(entry.0, request);
      assert forall s :: s in Repeat(entry.1, Pushes(entry.0, request)) + rest <==> Heard(w, order, request, s) by {
        forall s ensures s in Repeat(entry.1, Pushes(entry.0, request)) + rest <==> Heard(w, order, request, s) {
          if s in rest {
            var i :| 0 <= i < |order[1..]| && w.entries[order[1..][i]].1 == s && Matches(w.entries[order[1..][i]].0, request);
            assert order[i + 1] == order[1..][i];
          }
          if Heard(w, order, request, s) {
            var i :| 0 <= i < |order| && w.entries[order[i]].1 == s && Matches(w.entries[order[i]].0, request);
            if i > 0 {
              assert order[1..][i - 1] == order[i];
              assert Heard(w, order[1..], request, s);
            }
          }
        }
      }
      Repeat(entry.1, Pushes(entry.0, request)) + rest
  }

  /** Some watcher visited in `order` holds sender `s` and matches the request. */
  ghost predicate Heard(w: Watchers, order: seq<WatcherId>, request: WatcherRequest, s: Sender)
    requires forall id :: id in order ==> id in w.entries
  {
    exists i :: 0 <= i < |order| && w.entries[order[i]].1 == s && Matches(w.entries[order[i]].0, request)
  }

  /**
    Reference meaning of a filter: the table names agree, and the primary key
    equals or starts with the filter's key, or some secondary-key entry of
    the request has the filter's definition and a key equal to (or starting
    with) the filter's; a secondary filter without value accepts any entry of
    its definition, including one without key.
   */
  predicate Matches(f: TableFilter, request: WatcherRequest) {
    && f.tableName == request.tableName
    && match f.keyFilter
       case Primary(k) => k.None? || k.value == request.primaryKey
       case PrimaryStartWith(p) => StartsWith(request.primaryKey.data, p.data)
       case Secondary(d, v) =>
         exists i :: 0 <= i < |request.secondaryKeys|
           && SameDefinition(d, request.secondaryKeys[i].0)
           && (v.None? || KeyOf(request.secondaryKeys[i].1) == v)
       case SecondaryStartWith(d, p) =>
         exists i :: 0 <= i < |request.secondaryKeys|
           && SameDefinition(d, request.secondaryKeys[i].0)
           && KeyOf(request.secondaryKeys[i].1).Some?
           && StartsWith(KeyOf(request.secondaryKeys[i].1).value.data, p.data)
  }

  /** A watcher's sender is pushed at least once exactly when its filter matches. */
  lemma PushesIffMatches(f: TableFilter, request: WatcherRequest)
    ensures Pushes(f, request) > 0 <==> Matches(f, request)
  {
    if f.tableName == request.tableName {
      match f.keyFilter
      case Primary(_) =>
      case PrimaryStartWith(_) =>
      case Secondary(d, v) =>
        assert CountPushes(f.keyFilter, request.secondaryKeys) > 0 <==> Matches(f, request);
      case SecondaryStartWith(d, p) =>
        assert CountPushes(f.keyFilter, request.secondaryKeys) > 0 <==> Matches(f, request);
    }
  }

  /** Over a registry listed in full, the returned senders are those of matching watchers. */
  lemma FindSendersOfRegistry(w: Watchers, order: seq<WatcherId>, request: WatcherRequest, s: Sender)
    requires Enumerates(order, w.entries.Keys)
    ensures s in FindSenders(w, order, request)
        <==> exists id :: id in w.entries && w.entries[id].1 == s && Matches(w.entries[id].0, request)
  {
    if exists id :: id in w.entries && w.entries[id].1 == s && Matches(w.entries[id].0, request) {
      var id :| id in w.entries && w.entries[id].1 == s && Matches(w.entries[id].0, request);
      var i :| 0 <= i < |order| && order[i] == id;
    }
  }

  /** With distinct definitions in the request, at most one entry matches a secondary filter. */
  lemma {:induction false} AtMostOnePush(f: KeyFilter, entries: seq<(SecondaryDefinition, KeyValue)>)
    requires DistinctDefinitions(entries)
    ensures CountPushes(f, entries) <= 1
  {
    if entries != [] {
      AtMostOnePush(f, entries[1..]);
      if EntryPushes(f, entries[0]) {
        forall i | 0 <= i < |entries[1..]| ensures !EntryPushes(f, entries[1..][i]) {
          assert entries[1..][i] == entries[i + 1];
        }
      }
    }
  }

  /** So each matching watcher's sender is returned once per watcher, never more. */
  lemma PushedAtMostOnce(f: TableFilter, request: WatcherRequest)
    requires DistinctDefinitions(request.secondaryKeys)
    ensures Pushes(f, request) <= 1
    ensures Pushes(f, request) == 1 <==> Matches(f, request)
  {
    PushesIffMatches(f, request);
    if f.tableName == request.tableName && (f.keyFilter.Secondary? || f.keyFilter.SecondaryStartWith?) {
      AtMostOnePush(f.keyFilter, request.secondaryKeys);
    }
  }

  /** A request for another table reaches no watcher of this one. */
  lemma OtherTableNeverMatches(f: TableFilter, request: WatcherRequest)
    requires f.tableName != request.tableName
    ensures Pushes(f, request) == 0 && !Matches(f, request)
  {
  }
}
