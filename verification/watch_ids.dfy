/**
  Registering watchers (src/watch/query/internal.rs): a watcher id is drawn
  from a shared 64-bit counter, the watcher's filter is built from the
  model's table name and the watched key, and the channel's sender is added
  to the registry under that id.
 */
module WatchIds {
  import opened Bytes
  import opened Outcome
  import Keys
  import opened KeyDefinitions
  import opened KeyValues
  import opened WatchEvents
  import opened Errors
  import opened ModelDefinition
  import opened Watchers

  /** The largest value of the counter, `u64::MAX`. */
  const MaxId: WatcherId := 0xFFFF_FFFF_FFFF_FFFF

  /** The database's watcher state: the registry and the next-id counter. */
  datatype Registry = Registry(watchers: Watchers, counter: WatcherId)

  /** `fetch_add(1)` on the counter, which wraps around past `u64::MAX`. */
  function Increment(counter: WatcherId): (r: WatcherId)
    ensures counter < MaxId ==> r as int == counter as int + 1
    ensures counter == MaxId ==> r == 0
  {
    ((counter as int + 1) % 0x1_0000_0000_0000_0000) as WatcherId
  }

  /**
    `generate_watcher_id`: hands out the counter's previous value, except that
    the value `u64::MAX` is refused with `MaxWatcherReached`; the counter
    advances in both cases.
   */
  function GenerateWatcherId(counter: WatcherId): (r: (WatcherId, Result<WatcherId, Error>))
    ensures r.0 == Increment(counter)
    ensures r.1.Ok? <==> counter != MaxId
    ensures r.1.Ok? ==> r.1.value == counter
    ensures r.1.Err? ==> r.1.error == MaxWatcherReached
  {
    var value := counter;
    (Increment(counter), if value == MaxId then Err(MaxWatcherReached) else Ok(value))
  }

  /**
    `watch_generic`: draws an id and registers the sender of a new channel
    under it; the caller gets the id (and the channel's receiving half,
    here the channel itself).
   */
  function WatchGeneric(reg: Registry, filter: TableFilter, sender: Sender): (r: (Registry, Result<WatcherId, Error>))
    ensures r.0.counter == Increment(reg.counter)
    ensures r.1.Ok? <==> reg.counter != MaxId
    ensures r.1.Ok? ==> r.1.value == reg.counter && r.0.watchers == AddSender(reg.watchers, reg.counter, filter, sender)
    ensures r.1.Err? ==> r.1.error == MaxWatcherReached && r.0.watchers == reg.watchers
  {
    var (counter, id) := GenerateWatcherId(reg.counter);
    match id
    case Err(e) => (Registry(reg.watchers, counter), Err(e))
    case Ok(id) => (Registry(AddSender(reg.watchers, id, filter, sender), counter), Ok(id))
  }

  /** Every registered id is below the counter: the ids still to be handed out are fresh. */
  ghost predicate IdsBelowCounter(reg: Registry) {
    forall id :: id in reg.watchers.entries ==> id < reg.counter
  }

  /**
    Until the counter reaches `u64::MAX`, registering a watcher keeps every
    registered id below the counter, adds exactly one entry and leaves the
    other watchers in place.
   */
  lemma WatchGenericAddsFreshWatcher(reg: Registry, filter: TableFilter, sender: Sender)
    requires IdsBelowCounter(reg) && reg.counter != MaxId
    ensures var (after, id) := WatchGeneric(reg, filter, sender);
      && id.Ok?
      && id.value !in reg.watchers.entries
      && IdsBelowCounter(after)
      && |after.watchers.entries| == |reg.watchers.entries| + 1
      && (forall other :: other in reg.watchers.entries ==> after.watchers.entries[other] == reg.watchers.entries[other])
  {
    var (after, id) := WatchGeneric(reg, filter, sender);
    assert after.watchers.entries.Keys == reg.watchers.entries.Keys + {reg.counter};
    assert reg.counter !in reg.watchers.entries.Keys;
  }

  /** A watcher registered while ids are fresh is removed by `unwatch` of its id, restoring the registry. */
  lemma UnwatchUndoesWatch(reg: Registry, filter: TableFilter, sender: Sender)
    requires IdsBelowCounter(reg) && reg.counter != MaxId
    ensures var (after, id) := WatchGeneric(reg, filter, sender);
      RemoveSender(after.watchers, id.value) == (true, reg.watchers)
  {
    RemoveUndoesAdd(reg.watchers, reg.counter, filter, sender);
  }

  /**
    The counter wraps: the call that meets `u64::MAX` fails, and the call
    after it is handed id 0 again, replacing any watcher still registered
    under 0.
   */
  lemma IdZeroIsReusedAfterWrap(reg: Registry, filter: TableFilter, sender: Sender)
    requires reg.counter == MaxId
    ensures var (first, failed) := WatchGeneric(reg, filter, sender);
      && failed == Err(MaxWatcherReached)
      && WatchGeneric(first, filter, sender).1 == Ok(0)
      && WatchGeneric(first, filter, sender).0.watchers.entries[0] == (filter, sender)
  {
  }

  /** The filter of `watch_primary`: one primary key of the model's table. */
  function PrimaryFilter(model: DatabaseModel, key: Keys.Key): (f: TableFilter)
    ensures forall request :: Matches(f, request) <==>
      request.tableName == model.primaryKey.uniqueTableName && request.primaryKey == key
  {
    TableFilter(model.primaryKey.uniqueTableName, Primary(Some(key)))
  }

  /** The filter of `watch_primary_all`: every record of the model's table. */
  function PrimaryAllFilter(model: DatabaseModel): (f: TableFilter)
    ensures forall request :: Matches(f, request) <==> request.tableName == model.primaryKey.uniqueTableName
  {
    TableFilter(model.primaryKey.uniqueTableName, Primary(None))
  }

  /** The filter of `watch_primary_start_with`: the records whose primary key starts with a prefix. */
  function PrimaryStartWithFilter(model: DatabaseModel, prefix: Keys.Key): (f: TableFilter)
    ensures forall request :: Matches(f, request) <==>
      request.tableName == model.primaryKey.uniqueTableName && StartsWith(request.primaryKey.data, prefix.data)
  {
    TableFilter(model.primaryKey.uniqueTableName, PrimaryStartWith(prefix))
  }

  /** The filter of `watch_secondary`: the records whose secondary key `def` has value `key`. */
  function SecondaryFilter(model: DatabaseModel, def: SecondaryDefinition, key: Keys.Key): (f: TableFilter)
    ensures forall request :: Matches(f, request) <==>
      && request.tableName == model.primaryKey.uniqueTableName
      && exists i :: 0 <= i < |request.secondaryKeys|
           && SameDefinition(def, request.secondaryKeys[i].0)
           && KeyOf(request.secondaryKeys[i].1) == Some(key)
  {
    TableFilter(model.primaryKey.uniqueTableName, Secondary(def, Some(key)))
  }

  /** The filter of `watch_secondary_all`: the records that carry an entry for `def`. */
  function SecondaryAllFilter(model: DatabaseModel, def: SecondaryDefinition): (f: TableFilter)
    ensures forall request :: Matches(f, request) <==>
      && request.tableName == model.primaryKey.uniqueTableName
      && exists i :: 0 <= i < |request.secondaryKeys| && SameDefinition(def, request.secondaryKeys[i].0)
  {
    TableFilter(model.primaryKey.uniqueTableName, Secondary(def, None))
  }

  /** The filter of `watch_secondary_start_with`: the records whose value for `def` starts with a prefix. */
  function SecondaryStartWithFilter(model: DatabaseModel, def: SecondaryDefinition, prefix: Keys.Key): (f: TableFilter)
    ensures forall request :: Matches(f, request) <==>
      && request.tableName == model.primaryKey.uniqueTableName
      && exists i :: 0 <= i < |request.secondaryKeys|
           && SameDefinition(def, request.secondaryKeys[i].0)
           && KeyOf(request.secondaryKeys[i].1).Some?
           && StartsWith(KeyOf(request.secondaryKeys[i].1).value.data, prefix.data)
  {
    TableFilter(model.primaryKey.uniqueTableName, SecondaryStartWith(def, prefix))
  }

  /**
    Watching every value of a secondary key also hears a record whose
    optional value is absent, which no watcher of a particular value or
    prefix hears.
   */
  lemma AbsentValueHeardOnlyByAll(model: DatabaseModel, def: SecondaryDefinition, request: WatcherRequest, i: nat,
                                  key: Keys.Key, prefix: Keys.Key)
    requires request.tableName == model.primaryKey.uniqueTableName
    requires DistinctDefinitions(request.secondaryKeys)
    requires i < |request.secondaryKeys| && SameDefinition(def, request.secondaryKeys[i].0)
    requires KeyOf(request.secondaryKeys[i].1).None?
    ensures Matches(SecondaryAllFilter(model, def), request)
    ensures !Matches(SecondaryFilter(model, def, key), request)
    ensures !Matches(SecondaryStartWithFilter(model, def, prefix), request)
  {
  }
}
