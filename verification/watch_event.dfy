/**
  What the write path hands to the watch subsystem: the stored bytes of a
  record (src/db_type/output.rs), the change event (src/watch/event.rs) and
  the request that describes which record changed (src/watch/request.rs).
 */
module WatchEvents {
  import opened Bytes
  import Keys
  import KeyDefinitions
  import KeyValues

  /** `DatabaseOutputValue(Vec<u8>)`: the encoded payload of a record. */
  datatype Output = Output(data: Bytes)

  /** `Event`: an insertion, an update with old and new record, or a deletion. */
  datatype Event =
    | Insert(inserted: Output)
    | Update(oldValue: Output, newValue: Output)
    | Delete(deleted: Output)

  /**
    `WatcherRequest`: the primary table's name, the record's primary key and
    the record's secondary keys, in the iteration order of their map.
   */
  datatype WatcherRequest = WatcherRequest(
    tableName: string,
    primaryKey: Keys.Key,
    secondaryKeys: seq<(KeyDefinitions.SecondaryDefinition, KeyValues.KeyValue)>)
}
