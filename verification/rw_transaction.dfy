/**
  The public write transaction (src/transaction/rw_transaction.rs): each
  write goes through the internal operation on the tables and, when it
  succeeds, queues its change event in the transaction's batch; `commit`
  hands the batch to the watchers once the storage commit has succeeded.
  A model type `T` is represented by its `InputModel` (keys and payload
  codec) together with its `DatabaseModel` (table names).
 */
module RwTransactions {
  import opened Outcome
  import opened Keys
  import opened Errors
  import opened Input
  import opened WatchEvents
  import opened Batches
  import opened Watchers
  import opened WatchDispatch
  import opened ModelDefinition
  import opened Tables
  import InternalRw
  import Reads

  /** The transaction's tables and the events queued for its commit. */
  datatype RwTransaction = RwTransaction(store: Store, batch: Batch)

  /** `insert`: writes the record and queues an insert event with its payload. */
  function Insert<T>(tx: RwTransaction, defs: Definitions, m: InputModel<T>, model: DatabaseModel, x: T)
    : (r: (RwTransaction, Result<(), Error>))
    ensures r.0.store == InternalRw.Insert(tx.store, defs, model, ToItem(m, x)).0
    ensures r.1.Ok? <==> InternalRw.Insert(tx.store, defs, model, ToItem(m, x)).1.Ok?
    ensures r.1.Ok? ==> r.0.batch == Add(tx.batch, InternalRw.RequestFor(model, ToItem(m, x)), Event.Insert(Output(m.encode(x))))
    ensures r.1.Err? ==> r.0.batch == tx.batch && r.1.error == InternalRw.Insert(tx.store, defs, model, ToItem(m, x)).1.error
  {
    var (s, result) := InternalRw.Insert(tx.store, defs, model, ToItem(m, x));
    match result
    case Err(e) => (tx.(store := s), Err(e))
    case Ok((request, value)) => (RwTransaction(s, Add(tx.batch, request, Event.Insert(value))), Ok(()))
  }

  /**
    A successful insert makes the record readable by its primary key and
    puts its event first in line for dispatch (the batch is drained from
    its most recent event).
   */
  lemma InsertIsVisibleAndQueued<T>(tx: RwTransaction, defs: Definitions, m: InputModel<T>, model: DatabaseModel, x: T)
    requires Insert(tx, defs, m, model, x).1.Ok?
    ensures var after := Insert(tx, defs, m, model, x).0;
      && Reads.GetByPrimaryKey(after.store, defs, model, m.primaryKeyOf(x)) == Ok(Some(Output(m.encode(x))))
      && Drain(after.batch)
         == [(InternalRw.RequestFor(model, ToItem(m, x)), Event.Insert(Output(m.encode(x))))] + Drain(tx.batch)
  {
    Reads.GetAfterInsert(tx.store, defs, model, ToItem(m, x));
    DrainOfAdds(tx.batch, InternalRw.RequestFor(model, ToItem(m, x)), Event.Insert(Output(m.encode(x))));
  }

  /** The stored record under a key, decoded and turned back into a write-side record. */
  function PreviousInput<T>(m: InputModel<T>, found: Option<Output>): (r: Result<Option<DatabaseInput>, Error>)
    ensures found.None? ==> r == Ok(None)
    ensures found.Some? ==> (r.Ok? <==> m.decode(found.value.data).Ok?)
    ensures found.Some? && r.Ok? ==> r.value == Some(ToItem(m, m.decode(found.value.data).value))
  {
    match found
    case None => Ok(None)
    case Some(o) =>
      match m.decode(o.data)
      case Err(e) => Err(e)
      case Ok(y) => Ok(Some(ToItem(m, y)))
  }

  /**
    `upsert`: the record stored under the new record's primary key, if any,
    is read and decoded; then the write is an update of that record or an
    insert. An update queues an update event and returns the old record, an
    insert queues an insert event and returns nothing.
   */
  function Upsert<T>(tx: RwTransaction, defs: Definitions, m: InputModel<T>, model: DatabaseModel, x: T)
    : (r: (RwTransaction, Result<Option<T>, Error>))
    ensures Reads.GetByPrimaryKey(tx.store, defs, model, m.primaryKeyOf(x)).Err? ==> r.0 == tx && r.1.Err?
    ensures r.1.Err? ==> r.0.batch == tx.batch || |r.0.batch.entries| == |tx.batch.entries| + 1
    ensures r.1.Ok? ==> |r.0.batch.entries| == |tx.batch.entries| + 1
                        && r.0.batch.entries[|tx.batch.entries|].0 == InternalRw.RequestFor(model, ToItem(m, x))
  {
    var item := ToItem(m, x);
    match Reads.GetByPrimaryKey(tx.store, defs, model, item.primaryKey)
    case Err(e) => (tx, Err(e))
    case Ok(found) =>
      match PreviousInput(m, found)
      case Err(e) => (tx, Err(e))
      case Ok(previous) =>
        var (s, result) := InternalRw.Upsert(tx.store, defs, model, previous, item);
        match result
        case Err(e) => (tx.(store := s), Err(e))
        case Ok((request, value, None)) => (RwTransaction(s, Add(tx.batch, request, Event.Insert(value))), Ok(None))
        case Ok((request, value, Some(oldValue))) =>
          var queued := RwTransaction(s, Add(tx.batch, request, Event.Update(oldValue, value)));
          match m.decode(oldValue.data)
          case Err(e) => (queued, Err(e))
          case Ok(y) => (queued, Ok(Some(y)))
  }

  /** The codec gives back every value it encodes. */
  ghost predicate RoundTrips<T(!new)>(m: InputModel<T>) {
    forall y :: m.decode(m.encode(y)) == Ok(y)
  }

  /**
    With a round-tripping codec, a successful upsert over a stored record
    that decodes to `y` returns `y` and queues an update from `y` to the new
    record; over an absent key it returns nothing and queues an insert.
    Either way the new record is then what the key reads.
   */
  lemma UpsertReportsPrevious<T(!new)>(tx: RwTransaction, defs: Definitions, m: InputModel<T>, model: DatabaseModel, x: T)
    requires RoundTrips(m)
    requires Upsert(tx, defs, m, model, x).1.Ok?
    ensures var table := model.primaryKey.uniqueTableName;
      var pk := m.primaryKeyOf(x);
      var (after, result) := Upsert(tx, defs, m, model, x);
      && Reads.GetByPrimaryKey(after.store, defs, model, pk) == Ok(Some(Output(m.encode(x))))
      && (pk !in Rows(tx.store, table) ==>
            && result == Ok(None)
            && after.batch == Add(tx.batch, InternalRw.RequestFor(model, ToItem(m, x)), Event.Insert(Output(m.encode(x)))))
      && (pk in Rows(tx.store, table) ==>
            && m.decode(Rows(tx.store, table)[pk]).Ok?
            && var y := m.decode(Rows(tx.store, table)[pk]).value;
               && result == Ok(Some(y))
               && after.batch == Add(tx.batch, InternalRw.RequestFor(model, ToItem(m, x)),
                                     Event.Update(Output(m.encode(y)), Output(m.encode(x)))))
  {
    var table := model.primaryKey.uniqueTableName;
    var pk := m.primaryKeyOf(x);
    var item := ToItem(m, x);
    if pk in Rows(tx.store, table) {
      var y := m.decode(Rows(tx.store, table)[pk]).value;
      var previous := ToItem(m, y);
      assert m.decode(m.encode(y)) == Ok(y);
      var updated := InternalRw.Update(tx.store, defs, model, previous, item);
      assert previous.primaryKey == item.primaryKey by {
        assert Rows(tx.store, table)[pk] == previous.value;
        var removed := InternalRw.Remove(tx.store, defs, model, previous);
        assert removed.1.Ok?;
      }
      InternalRw.UpdateInPlace(tx.store, defs, model, previous, item);
    } else {
      Reads.GetAfterInsert(tx.store, defs, model, item);
    }
  }

  /** `remove`: deletes the record, queues a delete event, and returns the record decoded from its payload. */
  function Remove<T>(tx: RwTransaction, defs: Definitions, m: InputModel<T>, model: DatabaseModel, x: T)
    : (r: (RwTransaction, Result<T, Error>))
    ensures r.0.store == InternalRw.Remove(tx.store, defs, model, ToItem(m, x)).0
    ensures InternalRw.Remove(tx.store, defs, model, ToItem(m, x)).1.Err? ==> r.0.batch == tx.batch && r.1.Err?
    ensures InternalRw.Remove(tx.store, defs, model, ToItem(m, x)).1.Ok?
        ==> r.0.batch == Add(tx.batch, InternalRw.RequestFor(model, ToItem(m, x)), Event.Delete(Output(m.encode(x))))
            && r.1 == m.decode(m.encode(x))
  {
    var (s, result) := InternalRw.Remove(tx.store, defs, model, ToItem(m, x));
    match result
    case Err(e) => (tx.(store := s), Err(e))
    case Ok((request, value)) => (RwTransaction(s, Add(tx.batch, request, Event.Delete(value))), m.decode(value.data))
  }

  /** With a round-tripping codec, removing an inserted record gives it back and leaves its key absent. */
  lemma RemoveGivesRecordBack<T(!new)>(tx: RwTransaction, defs: Definitions, m: InputModel<T>, model: DatabaseModel, x: T)
    requires RoundTrips(m)
    requires InternalRw.Remove(tx.store, defs, model, ToItem(m, x)).1.Ok?
    ensures Remove(tx, defs, m, model, x).1 == Ok(x)
    ensures Reads.GetByPrimaryKey(Remove(tx, defs, m, model, x).0.store, defs, model, m.primaryKeyOf(x)) == Ok(None)
  {
    assert m.decode(m.encode(x)) == Ok(x);
    Reads.GetAfterRemove(tx.store, defs, model, ToItem(m, x));
  }

  /** `update`: removes the old record, inserts the new one, and queues an update event from one to the other. */
  function Update<T>(tx: RwTransaction, defs: Definitions, m: InputModel<T>, model: DatabaseModel, previous: T, updated: T)
    : (r: (RwTransaction, Result<(), Error>))
    ensures r.0.store == InternalRw.Update(tx.store, defs, model, ToItem(m, previous), ToItem(m, updated)).0
    ensures r.1.Ok? <==> InternalRw.Update(tx.store, defs, model, ToItem(m, previous), ToItem(m, updated)).1.Ok?
    ensures r.1.Ok? ==> r.0.batch == Add(tx.batch, InternalRw.RequestFor(model, ToItem(m, updated)),
                                         Event.Update(Output(m.encode(previous)), Output(m.encode(updated))))
    ensures r.1.Err? ==> r.0.batch == tx.batch
  {
    var (s, result) := InternalRw.Update(tx.store, defs, model, ToItem(m, previous), ToItem(m, updated));
    match result
    case Err(e) => (tx.(store := s), Err(e))
    case Ok((request, oldValue, newValue)) => (RwTransaction(s, Add(tx.batch, request, Event.Update(oldValue, newValue))), Ok(()))
  }

  /** An update that keeps the primary key makes the key read the new record. */
  lemma UpdateIsVisible<T>(tx: RwTransaction, defs: Definitions, m: InputModel<T>, model: DatabaseModel, previous: T, updated: T)
    requires m.primaryKeyOf(previous) == m.primaryKeyOf(updated)
    requires Update(tx, defs, m, model, previous, updated).1.Ok?
    ensures Reads.GetByPrimaryKey(Update(tx, defs, m, model, previous, updated).0.store, defs, model, m.primaryKeyOf(updated))
         == Ok(Some(Output(m.encode(updated))))
  {
    InternalRw.UpdateInPlace(tx.store, defs, model, ToItem(m, previous), ToItem(m, updated));
  }

  /** The payloads of a table decoded in key order; the first failure ends the scan. */
  function DecodeAll<T>(m: InputModel<T>, payloads: seq<Bytes.Bytes>): (r: Result<seq<T>, Error>)
    ensures r.Ok? <==> forall i :: 0 <= i < |payloads| ==> m.decode(payloads[i]).Ok?
    ensures r.Ok? ==> |r.value| == |payloads| && forall i :: 0 <= i < |payloads| ==> Ok(r.value[i]) == m.decode(payloads[i])
    decreases |payloads|
  {
    if payloads == [] then Ok([])
    else
      match m.decode(payloads[0])
      case Err(e) => Err(e)
      case Ok(y) =>
        match DecodeAll(m, payloads[1..])
        case Err(e) =>
          assert exists i :: 1 <= i < |payloads| && !m.decode(payloads[i]).Ok? by {
            var j :| 0 <= j < |payloads[1..]| && !m.decode(payloads[1..][j]).Ok?;
            assert payloads[1..][j] == payloads[j + 1];
          }
          Err(e)
        case Ok(rest) =>
          assert forall i :: 1 <= i < |payloads| ==> payloads[i] == payloads[1..][i - 1];
          Ok([y] + rest)
  }

  /**
    The loop of `convert_all`: each old record, converted, is inserted under
    the new model, then the old record is removed from the old model's
    table; the first failure ends the loop.
   */
  function ConvertEach<A, B>(s: Store, defs: Definitions, ma: InputModel<A>, oldModel: DatabaseModel,
                             mb: InputModel<B>, newModel: DatabaseModel, convert: A -> B, olds: seq<A>)
    : (r: (Store, Result<(), Error>))
    ensures forall t :: t != oldModel.primaryKey.uniqueTableName && t != newModel.primaryKey.uniqueTableName ==>
      Rows(r.0, t) == Rows(s, t)
    decreases |olds|
  {
    if olds == [] then (s, Ok(()))
    else
      var (one, moved) := ConvertOne(s, defs, ma, oldModel, mb, newModel, convert, olds[0]);
      if moved.Err? then (one, moved)
      else ConvertEach(one, defs, ma, oldModel, mb, newModel, convert, olds[1..])
  }

  /**
    Between two tables, the loop never loses a row the new table had and
    never adds a row to the old table.
   */
  lemma {:induction false} ConvertEachKeeps<A, B>(s: Store, defs: Definitions, ma: InputModel<A>, oldModel: DatabaseModel,
                                                  mb: InputModel<B>, newModel: DatabaseModel, convert: A -> B, olds: seq<A>)
    requires oldModel.primaryKey.uniqueTableName != newModel.primaryKey.uniqueTableName
    ensures var r := ConvertEach(s, defs, ma, oldModel, mb, newModel, convert, olds);
      && (forall k :: k in Rows(s, newModel.primaryKey.uniqueTableName) ==>
            k in Rows(r.0, newModel.primaryKey.uniqueTableName)
            && Rows(r.0, newModel.primaryKey.uniqueTableName)[k] == Rows(s, newModel.primaryKey.uniqueTableName)[k])
      && (forall k :: k in Rows(r.0, oldModel.primaryKey.uniqueTableName) ==> k in Rows(s, oldModel.primaryKey.uniqueTableName))
    decreases |olds|
  {
    if olds != [] {
      var (one, moved) := ConvertOne(s, defs, ma, oldModel, mb, newModel, convert, olds[0]);
      if moved.Ok? {
        ConvertEachKeeps(one, defs, ma, oldModel, mb, newModel, convert, olds[1..]);
      }
    }
  }

  /**
    Between two tables, a loop that completes leaves every old record
    converted in the new table and gone from the old one.
   */
  lemma {:induction false} ConvertEachMoves<A, B>(s: Store, defs: Definitions, ma: InputModel<A>, oldModel: DatabaseModel,
                                                  mb: InputModel<B>, newModel: DatabaseModel, convert: A -> B, olds: seq<A>)
    requires oldModel.primaryKey.uniqueTableName != newModel.primaryKey.uniqueTableName
    requires ConvertEach(s, defs, ma, oldModel, mb, newModel, convert, olds).1.Ok?
    ensures var r := ConvertEach(s, defs, ma, oldModel, mb, newModel, convert, olds);
      forall i :: 0 <= i < |olds| ==>
        && mb.primaryKeyOf(convert(olds[i])) in Rows(r.0, newModel.primaryKey.uniqueTableName)
        && Rows(r.0, newModel.primaryKey.uniqueTableName)[mb.primaryKeyOf(convert(olds[i]))] == mb.encode(convert(olds[i]))
        && ma.primaryKeyOf(olds[i]) !in Rows(r.0, oldModel.primaryKey.uniqueTableName)
    decreases |olds|
  {
    if olds != [] {
      var newTable, oldTable := newModel.primaryKey.uniqueTableName, oldModel.primaryKey.uniqueTableName;
      var (one, moved) := ConvertOne(s, defs, ma, oldModel, mb, newModel, convert, olds[0]);
      var rest := olds[1..];
      var r := ConvertEach(one, defs, ma, oldModel, mb, newModel, convert, rest);
      assert r == ConvertEach(s, defs, ma, oldModel, mb, newModel, convert, olds);
      var newAfter, oldAfter := Rows(r.0, newTable), Rows(r.0, oldTable);
      ConvertEachKeeps(one, defs, ma, oldModel, mb, newModel, convert, rest);
      var first := mb.primaryKeyOf(convert(olds[0]));
      assert first in Rows(one, newTable) && Rows(one, newTable)[first] == mb.encode(convert(olds[0]));
      assert first in newAfter && newAfter[first] == mb.encode(convert(olds[0]));
      assert ma.primaryKeyOf(olds[0]) !in Rows(one, oldTable);
      assert ma.primaryKeyOf(olds[0]) !in oldAfter;
      ConvertEachMoves(one, defs, ma, oldModel, mb, newModel, convert, rest);
      forall i | 0 < i < |olds|
        ensures mb.primaryKeyOf(convert(olds[i])) in newAfter
        ensures newAfter[mb.primaryKeyOf(convert(olds[i]))] == mb.encode(convert(olds[i]))
        ensures ma.primaryKeyOf(olds[i]) !in oldAfter
      {
        assert olds[i] == rest[i - 1];
      }
    }
  }

  /** One turn of the loop of `convert_all`: insert the converted record, then remove the old one. */
  function ConvertOne<A, B>(s: Store, defs: Definitions, ma: InputModel<A>, oldModel: DatabaseModel,
                            mb: InputModel<B>, newModel: DatabaseModel, convert: A -> B, record: A)
    : (r: (Store, Result<(), Error>))
    ensures forall t :: t != oldModel.primaryKey.uniqueTableName && t != newModel.primaryKey.uniqueTableName ==>
      Rows(r.0, t) == Rows(s, t)
    ensures oldModel.primaryKey.uniqueTableName != newModel.primaryKey.uniqueTableName ==>
      forall k :: k in Rows(s, newModel.primaryKey.uniqueTableName) ==>
        k in Rows(r.0, newModel.primaryKey.uniqueTableName)
        && Rows(r.0, newModel.primaryKey.uniqueTableName)[k] == Rows(s, newModel.primaryKey.uniqueTableName)[k]
    ensures oldModel.primaryKey.uniqueTableName != newModel.primaryKey.uniqueTableName ==>
      forall k :: k in Rows(r.0, oldModel.primaryKey.uniqueTableName) ==> k in Rows(s, oldModel.primaryKey.uniqueTableName)
    ensures r.1.Ok? && oldModel.primaryKey.uniqueTableName != newModel.primaryKey.uniqueTableName ==>
      && mb.primaryKeyOf(convert(record)) in Rows(r.0, newModel.primaryKey.uniqueTableName)
      && Rows(r.0, newModel.primaryKey.uniqueTableName)[mb.primaryKeyOf(convert(record))] == mb.encode(convert(record))
      && ma.primaryKeyOf(record) !in Rows(r.0, oldModel.primaryKey.uniqueTableName)
  {
    var (inserted, insertion) := InternalRw.Insert(s, defs, newModel, ToItem(mb, convert(record)));
    if insertion.Err? then (inserted, Err(insertion.error))
    else
      var (removed, removal) := InternalRw.Remove(inserted, defs, oldModel, ToItem(ma, record));
      if removal.Err? then (removed, Err(removal.error))
      else (removed, Ok(()))
  }

  /**
    `convert_all`: every record of the old model's table is read and decoded
    in key order (a failure there changes nothing), then converted and moved
    record by record. No event is queued.
   */
  function ConvertAll<A, B>(tx: RwTransaction, defs: Definitions, ma: InputModel<A>, oldModel: DatabaseModel,
                            mb: InputModel<B>, newModel: DatabaseModel, convert: A -> B)
    : (r: (RwTransaction, Result<(), Error>))
    ensures r.0.batch == tx.batch
    ensures oldModel.primaryKey.uniqueTableName !in defs
        ==> r == (tx, Err(TableDefinitionNotFound(oldModel.primaryKey.uniqueTableName)))
  {
    match PrimaryTable(defs, oldModel)
    case Err(e) => (tx, Err(e))
    case Ok(table) =>
      match DecodeAll(ma, StoredPayloads(Rows(tx.store, table)))
      case Err(e) => (tx, Err(e))
      case Ok(olds) =>
        var (s, result) := ConvertEach(tx.store, defs, ma, oldModel, mb, newModel, convert, olds);
        (tx.(store := s), result)
  }

  /**
    A successful conversion between two tables leaves every old record
    converted in the new table and absent from the old one, and every row
    the new table had before untouched.
   */
  lemma ConvertAllMovesRecords<A, B>(tx: RwTransaction, defs: Definitions, ma: InputModel<A>, oldModel: DatabaseModel,
                                     mb: InputModel<B>, newModel: DatabaseModel, convert: A -> B)
    requires oldModel.primaryKey.uniqueTableName != newModel.primaryKey.uniqueTableName
    requires ConvertAll(tx, defs, ma, oldModel, mb, newModel, convert).1.Ok?
    ensures var after := ConvertAll(tx, defs, ma, oldModel, mb, newModel, convert).0.store;
      var rows := Rows(tx.store, oldModel.primaryKey.uniqueTableName);
      forall k :: k in rows ==>
        && ma.decode(rows[k]).Ok?
        && var y := ma.decode(rows[k]).value;
           && mb.primaryKeyOf(convert(y)) in Rows(after, newModel.primaryKey.uniqueTableName)
           && Rows(after, newModel.primaryKey.uniqueTableName)[mb.primaryKeyOf(convert(y))] == mb.encode(convert(y))
           && ma.primaryKeyOf(y) !in Rows(after, oldModel.primaryKey.uniqueTableName)
  {
    var rows := Rows(tx.store, oldModel.primaryKey.uniqueTableName);
    var payloads := StoredPayloads(rows);
    var olds := DecodeAll(ma, payloads).value;
    var after := ConvertEach(tx.store, defs, ma, oldModel, mb, newModel, convert, olds).0;
    assert after == ConvertAll(tx, defs, ma, oldModel, mb, newModel, convert).0.store;
    ConvertEachMoves(tx.store, defs, ma, oldModel, mb, newModel, convert, olds);
    forall k | k in rows
      ensures ma.decode(rows[k]).Ok?
      ensures var y := ma.decode(rows[k]).value;
        && mb.primaryKeyOf(convert(y)) in Rows(after, newModel.primaryKey.uniqueTableName)
        && Rows(after, newModel.primaryKey.uniqueTableName)[mb.primaryKeyOf(convert(y))] == mb.encode(convert(y))
        && ma.primaryKeyOf(y) !in Rows(after, oldModel.primaryKey.uniqueTableName)
    {
      var i := PayloadIndex(rows, k);
      assert Ok(olds[i]) == ma.decode(payloads[i]);
    }
  }

  /**
    `commit`: the storage commit (whose failure `fault` stands for) comes
    first and, failing, leaves the batch undelivered; then the batch is
    pushed to the watchers and a dispatch failure is reported as
    `WatchEventError`. `delivered` lists the sends that went out.
   */
  method Commit(tx: RwTransaction, fault: Option<Error>, w: Watchers, order: seq<WatcherId>, lock: LockState, closed: set<Sender>)
    returns (r: Result<(), Error>, delivered: seq<(Sender, Event)>)
    requires forall id :: id in order ==> id in w.entries
    ensures fault.Some? ==> r == Err(fault.value) && delivered == []
    ensures r.Ok? <==> fault.None? && lock == Available && delivered == Plan(w, order, Drain(tx.batch))
    ensures fault.None? && r.Err? ==> r.error.WatchEventError?
    ensures forall i :: 0 <= i < |delivered| ==> delivered[i].0 !in closed
  {
    if fault.Some? {
      return Err(fault.value), [];
    }
    var pushed;
    pushed, delivered := PushBatch(w, order, lock, tx.batch, closed);
    if pushed.Err? {
      r := Err(WatchEventError(pushed.error));
      if lock == Available {
        assert |delivered| < |Plan(w, order, Drain(tx.batch))|;
      }
    } else {
      r := Ok(());
    }
  }

  /**
    `abort`: the storage engine's abort result is returned and the event
    batch is dropped: no watcher hears of the transaction's writes.
   */
  method Abort(tx: RwTransaction, fault: Option<Error>) returns (r: Result<(), Error>, delivered: seq<(Sender, Event)>)
    ensures r.Ok? <==> fault.None?
    ensures fault.Some? ==> r == Err(fault.value)
    ensures delivered == []
  {
    delivered := [];
    if fault.Some? {
      return Err(fault.value), delivered;
    }
    r := Ok(());
  }
}
