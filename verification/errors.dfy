/**
  The error type of the database (src/db_type/error.rs), with the variants the
  modelled operations raise. Storage-engine, I/O and codec failures are
  carried as opaque descriptions; a `panic!` or a failed `unwrap`/`expect`
  is surfaced as `Panic` so that callers can see that the operation does not
  return.
 */
module Errors {
  import opened Bytes
  import KeyDefinitions
  import WatchDispatch

  datatype Error =
    | Storage(description: string)
    | TableDefinitionNotFound(table: string)
    | SecondaryKeyDefinitionNotFound(table: string, keyName: string)
    | SecondaryKeyConstraintMismatch(table: string, keyName: string, got: KeyDefinitions.KeyOptions)
    | NotUniqueSecondaryKey(keyName: string)
    | KeyNotFound(key: Bytes)
    | PrimaryKeyNotFound
    | DuplicateKey(keyName: string)
    | MissmatchedKeyType(keyName: string, expectedTypes: seq<string>, gotTypes: seq<string>, operation: string)
    | WatchEventError(watchError: WatchDispatch.WatchEventError)
    | MaxWatcherReached
    | MigrateLegacyModel(table: string)
    | ModelError(description: string)
    | RemoveSecondaryKeyError(table: string)
    | IncorrectInputData(value: Bytes)
    | UpgradeMigration(context: string, source: string)
    | Panic(message: string)
}
