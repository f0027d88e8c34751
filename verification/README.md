# native_db core, modelled in Dafny

This project models the core of native_db, an embedded database for Rust. The database stores serialisable structs in redb tables. Each model gets a primary table, which maps its primary key to the encoded record. Each secondary key gets a secondary table, which maps the secondary key to the primary key. The parts modelled here are:

- **the key layer**: `Key` byte strings, their order and range translation, the serde key serialiser, the legacy `InnerKeyValue` encodings, key definitions and their `{id}_{version}_{name}` table names, and composite keys for non-unique secondary indexes;
- **the tables and the write path**: insert, upsert, update, remove and the secondary-index maintenance they share, the readable transaction's lookups, drain, migrate, refresh and `convert_all`;
- **the scans**: primary and secondary `all`, `range` and `start_with`, with the iterator semantics including the early stops; `all` and `range` also driven backwards, since their iterators are double-ended;
- **the watch layer**: the batch of events a write transaction queues, the watcher registry and its filters, watcher ids, and the dispatch at commit;
- **the model registry**: `Models::define` and its legacy flags;
- **the upgrade path**: the `UpgradeRequiredError` builder and its display, the error context helpers, and the secondary-index upgrade from a plain table to a multimap.

A database is a `Store`:

- a map from table name to rows (`map<Key, Bytes>`);
- a map from table name to secondary entries (`set<(Key, Key)>`).

redb's ordered iteration is a sort of the keys under the byte order. Iteration over a Rust `HashMap`, whose order is unspecified, appears as an explicit `order` sequence that enumerates the map's keys; results that must not depend on that order are proved for every such sequence.

Three things are parameters of the model rather than code in it:

- the record codec (`native_model` with bincode), as an `InputModel<T>` of functions;
- storage faults, as a `Faults` value;
- the key type check, as a `Result`.

A panic in the source is the error `Panic`.

## Model

| member | source | states |
|---|---|---|
| Bytes.CompareMatchesLexBefore | src/db_type/key/key.rs:120-124 | Key comparison says "less" exactly when the first key is a proper prefix of the second or the first differing byte is smaller |
| Bytes.CompareEqualIff | src/db_type/key/key.rs:120-124 | Two keys compare equal exactly when their bytes are identical |
| Bytes.CompareAntisymmetric | src/db_type/key/key.rs:120-124 | Swapping the operands reverses the comparison |
| Bytes.LessTransitive | src/db_type/key/key.rs:120-124 | The strict key order is transitive |
| Bytes.LessEqTotal | src/db_type/key/key.rs:120-124 | Any two keys are comparable |
| Bytes.LessEqAntisymmetric | src/db_type/key/key.rs:120-124 | Keys that are each at most the other are equal |
| Bytes.LessEqTransitive | src/db_type/key/key.rs:120-124 | The non-strict key order is transitive |
| Bytes.LessEqReflexive | src/db_type/key/key.rs:120-124 | Every key is at most itself |
| Bytes.PrefixIsLowerBound | src/db_type/key/key.rs:120-124 | A prefix sorts at or before every key that starts with it, which is why a `start_with` scan can begin its range at the prefix |
| Bytes.PrefixRunIsContiguous | src/transaction/query/scan/primary_scan.rs:181-196 | A key that lies between a prefix and a key starting with that prefix also starts with the prefix, so the keys with a prefix form one contiguous run |
| Bytes.AppendIsGreaterOrEqual | src/db_type/key/key.rs:17-19 | Extending a key never moves it earlier in the order |
| Bytes.CompareAfterCommonPrefix | src/db_type/key/key.rs:17-19 | A shared leading part does not affect the comparison of two extended keys |
| Bytes.CompareEqualLengthAppend | src/db_type/key/key.rs:120-124 | For keys of equal length, a differing front part decides, and otherwise the next bytes decide |
| Bytes.CompareFirstDifferenceDecides | src/db_type/key/key.rs:120-124 | Two different equal-length leading parts decide the comparison whatever follows them |
| BigEndian.FromBeToBe | src/db_type/key/key_serializer.rs:87-105 | Reading back the big-endian bytes of an unsigned integer gives the integer |
| BigEndian.ToBeFromBe | src/db_type/key/key_serializer.rs:87-105 | Every byte string of a given width is the big-endian form of exactly the value it reads as |
| BigEndian.ToBeOrder | src/db_type/key/key_serializer.rs:87-105 | For one width, the byte order of big-endian forms is the numeric order |
| BigEndian.ToBeInjective | src/db_type/key/key_serializer.rs:87-105 | Distinct unsigned values of one width have distinct keys |
| BigEndian.FromBeSignedToBeSigned | src/db_type/key/key_serializer.rs:67-85 | The two's-complement bytes of a signed value read back as that value |
| BigEndian.SignedOrderNotPreserved | src/db_type/key/key_serializer.rs:67-85 | Signed keys do not sort numerically: the key of -1 sorts after the key of 0 |
| Keys.Extend | src/db_type/key/key.rs:17-19 | The extended key is the original bytes followed by the other key's bytes |
| Keys.ExtendWithDelimiter | src/db_type/key/key.rs:21-24 | The result is the key, one delimiter byte, then the other key |
| Keys.ExtendInjective | src/db_type/key/key.rs:17-19 | With the first part's length fixed, an extended key determines both parts |
| Keys.ExtendWithDelimiterIsTwoExtends | src/db_type/key/key.rs:21-24 | Extending with a delimiter is extending by the one-byte key and then by the other key |
| Keys.CompareKeys | src/db_type/key/key.rs:120-124 | Key comparison is equality on bytes for "equal" and the lexicographic order for "less" |
| Keys.NewRange | src/db_type/key/key.rs:135-176 | The translated range holds a key exactly when the translation rule admits it. The start is always inclusive. A bounded start with an inclusive end reaches up to the end key followed by 0xFF. `..=end` becomes an exclusive upper bound |
| Keys.ExcludedStartIsIncluded | src/db_type/key/key.rs:148-166 | An excluded start bound is translated exactly as an included one |
| Keys.UnboundedStartInclusiveEndExcludesEnd | src/db_type/key/key.rs:167-169 | `..=end` admits exactly the keys strictly below the end key, so the end key itself is not admitted |
| Keys.HalfOpenRange | src/db_type/key/key.rs:148-150 | `a..b` admits exactly the keys from a inclusive to b exclusive |
| Keys.FullRangeContainsEverything | src/db_type/key/key.rs:173 | The full range admits every key |
| Keys.InclusiveEndCoversExtensions | src/db_type/key/key.rs:141-147 | `a..=b` admits b extended by a tail exactly when the tail is empty, starts below 0xFF, or is the single byte 0xFF |
| Keys.InclusiveEndCoversRecordsOfEnd | src/db_type/key/key.rs:141-147 | `a..=b` admits every composite entry of b whose primary part is empty or starts below 0xFF |
| Keys.SuccessorBoundsExtensions | src/db_type/key/key.rs:141-147 | The keys below the successor of an end key are exactly the keys at most the end key or extending it; an end key with no successor is at least or a prefix of every key |
| Keys.IntendedRange | src/db_type/key/key.rs:135-176 | A bounded start with an inclusive end admits exactly the keys from the start on that are at most the end key or extend it, and every other pair of bounds admits exactly what the code's translation admits |
| Keys.IntendedInclusiveEndCoversExtensions | src/db_type/key/key.rs:141-147 | Under the corrected translation, `a..=b` admits b extended by any tail, so every composite entry of b is visited |
| KeyDefinitions.New | src/db_type/key/key_definition.rs:21-27 | The unique table name parses back to the model id, the version and the key name, and the options are kept |
| KeyDefinitions.NewNamesAreInjective | src/db_type/key/key_definition.rs:21-27 | Two definitions get the same table name exactly when id, version and name all agree |
| KeyDefinitions.SplitAfterDecimal | src/db_type/key/key_definition.rs:22 | In a generated table name, the first underscore ends the decimal id, so the name splits back into its parts |
| KeyDefinitions.FromName | src/db_type/key/key_definition.rs:40-44 | A secondary definition made from a bare name has id 0, version 0 and the default, non-unique, non-optional options |
| KeyDefinitions.PrimaryFromName | src/db_type/key/key_definition.rs:34-38 | A primary definition made from a bare name has id 0 and version 0 |
| KeyDefinitions.SameDefinitionIgnoresOptions | src/db_type/key/key_definition.rs:46-58 | Definitions are equal exactly when id, version and name agree, whatever their options |
| KeyDefinitions.CompositeKey | src/db_type/key/key_definition.rs:66-73 | A composite key starts with the secondary key and ends with the primary key |
| KeyDefinitions.CompositeKeyInjective | src/db_type/key/key_definition.rs:66-73 | For primary keys of equal length, a composite key determines both of its parts |
| KeySerializer.NewSerializer | src/db_type/key/key_serializer.rs:30-34 | A new serialiser holds the empty key |
| KeySerializer.KeyOf | src/db_type/key/key.rs:76-90 | A value that is already a `Key` converts to itself; any other value converts to the key the serialiser writes for it, starting from an empty key |
| KeySerializer.SerializeAppends | src/db_type/key/key_serializer.rs:42-370 | Serialising a value from any serialiser state appends exactly the bytes of that value's own key: what was written before never changes what is written next |
| KeySerializer.SequencesConcatenate | src/db_type/key/key_serializer.rs:238-290 | A sequence or tuple serialises to its elements' keys, concatenated with no length or separator |
| KeySerializer.MapsConcatenate | src/db_type/key/key_serializer.rs:310-334 | A map serialises to its keys and values, concatenated in iteration order |
| KeySerializer.StructsConcatenate | src/db_type/key/key_serializer.rs:336-370 | A struct serialises to its field values concatenated; field names write nothing |
| KeySerializer.VariantsLeadWithIndex | src/db_type/key/key_serializer.rs:152-235 | Every enum variant starts with its 4-byte variant index, followed by the payload's bytes |
| KeySerializer.EmptyValuesWriteNothing | src/db_type/key/key_serializer.rs:133-150 | `None`, `()` and unit structs add no bytes |
| KeySerializer.WrappersAreTransparent | src/db_type/key/key_serializer.rs:137-170 | `Some(x)` and a newtype struct around x serialise exactly as x |
| KeySerializer.BoolAndCharAreU32 | src/db_type/key/key_serializer.rs:61-121 | A bool is the u32 0 or 1, and a char is the u32 of its code point |
| KeySerializer.StringsAndBytesAreRaw | src/db_type/key/key_serializer.rs:123-131 | A string is its UTF-8 bytes, which decode back to it, and a byte slice is itself |
| KeySerializer.UnsignedIsBigEndian | src/db_type/key/key_serializer.rs:87-105 | Every unsigned integer serialises to its big-endian bytes at its own width |
| KeySerializer.UnsignedKeyOrder | src/db_type/key/key_serializer.rs:87-105 | For one unsigned type, key order is numeric order |
| KeySerializer.U32PairOrder | src/db_type/key/key_serializer.rs:187-201 | A tuple of two u32 sorts lexicographically by its components |
| KeySerializer.StringTuplesCanCollide | src/db_type/key/key_serializer.rs:123-126 | Two different string tuples can serialise to the same key, because strings carry no length |
| KeySerializer.TuplePrefixIsKeyPrefix | src/db_type/key/key_serializer.rs:187-201 | The key of a tuple starts with the key of any leading part of it, which is what makes prefix scans on tuple keys work |
| InnerKeyValue.PrimitiveBytes | src/db_type/key/inner_key_value.rs:196-218 | Each primitive integer encodes to exactly its type's width in bytes |
| InnerKeyValue.UnsignedIsBigEndian | src/db_type/key/inner_key_value.rs:196-218 | An unsigned value's legacy encoding is its big-endian form |
| InnerKeyValue.SignedIsTwosComplement | src/db_type/key/inner_key_value.rs:207-216 | A signed value's legacy encoding reads back as the value in two's complement |
| InnerKeyValue.UnsignedKeyOrder | src/db_type/key/inner_key_value.rs:196-218 | For unsigned values of one width, legacy key order is numeric order |
| InnerKeyValue.CharIsCodePoint | src/db_type/key/inner_key_value.rs:26-31 | A char encodes as the 4-byte big-endian code point, the same as its u32 |
| InnerKeyValue.StringIsUtf8 | src/db_type/key/inner_key_value.rs:33-45 | A string encodes as its UTF-8 bytes, which decode back to it |
| InnerKeyValue.ContainersConcatenate | src/db_type/key/inner_key_value.rs:55-181 | Tuples, slices and vectors encode as their elements concatenated, and concatenating lists concatenates encodings |
| InnerKeyValue.OptionAndUnitAreTransparent | src/db_type/key/inner_key_value.rs:47-74 | `()` and `None` encode as nothing, `Some(x)` as x, and a raw key as its own bytes |
| InnerKeyValue.FromBytesIsIdentity | src/db_type/key/inner_key_value.rs:266-271 | A key built from a byte slice holds exactly those bytes |
| InnerKeyValue.NewRange | src/db_type/key/inner_key_value.rs:301-336 | The legacy range translation admits a key exactly when the legacy rule does; an inclusive end is the end key itself |
| InnerKeyValue.AgreesWithCurrentTranslation | src/db_type/key/inner_key_value.rs:301-336 | The current translation differs from the legacy one only for a bounded start with an inclusive end, where it adds the 0xFF suffix |
| InnerKeyValue.InclusiveEndStopsAtEnd | src/db_type/key/inner_key_value.rs:301-336 | A legacy `a..=b` admits no proper extension of b |
| InnerKeyValue.RangeOverSingleRow | src/db_type/key/inner_key_value.rs:371-403 | A table holding only the key of u32 0, scanned with `0..2`, yields that single row |
| InnerKeyValue.Encode | src/db_type/key/inner_key_value.rs:22-218 | Every legacy value that has a serde counterpart encodes to the same bytes as the key serialiser writes for that counterpart |
| InnerKeyValue.EncodeAll | src/db_type/key/inner_key_value.rs:56-181 | A list of such values encodes to the concatenation of the serialiser's keys for their counterparts |
| InnerKeyValueRedb1.Extend | src/db_type/key/inner_key_value_redb1.rs:17-19 | The redb1 key extension appends the other key's bytes |
| InnerKeyValueRedb1.IntoKey | src/db_type/key/inner_key_value_redb1.rs:26-30 | Converting a redb1 key to the current key keeps its bytes |
| InnerKeyValueRedb1.IntoKeyPreservesStructure | src/db_type/key/inner_key_value_redb1.rs:26-30 | The conversion is injective and commutes with key extension |
| InnerKeyValueRedb1.Encode | src/db_type/key/inner_key_value_redb1.rs:36-228 | Every redb1 encoding produces the same bytes as the current legacy encoding of the value |
| InnerKeyValueRedb1.EncodeAll | src/db_type/key/inner_key_value_redb1.rs:36-228 | A list encodes to the same bytes as the current legacy encoding of the list |
| InnerKeyValueRedb1.IntoKeyOfEncode | src/db_type/key/inner_key_value_redb1.rs:26-30 | Converting a redb1-encoded value gives the current legacy key of that value |
| InnerKeyValueRedb1.CompareKeys | src/db_type/key/inner_key_value_redb1.rs:261-265 | redb1 key comparison is the byte order, and agrees with the current key comparison after conversion |
| InnerKeyValueRedb1.NewRange | src/db_type/key/inner_key_value_redb1.rs:276-321 | The redb1 range translation admits a key exactly when the legacy rule admits its conversion |
| InnerKeyValueRedb1.NewRangeMatchesLegacy | src/db_type/key/inner_key_value_redb1.rs:276-321 | Converted to current keys, the redb1 range is the legacy range |
| Text.Decimal | src/db_type/key/key_definition.rs:22 | The decimal rendering of a number is a non-empty run of digits with no leading zero |
| Text.ParseDecimalOfDecimal | src/db_type/key/key_definition.rs:22 | Reading a rendered decimal gives back the number |
| Text.DecimalInjective | src/db_type/key/key_definition.rs:22 | Distinct numbers render differently |
| Text.DecodeEncodeChar | src/db_type/key/key_serializer.rs:123-126 | Decoding a character's UTF-8 bytes, whatever follows, gives the character and its byte count |
| Text.DecodeUtf8OfUtf8 | src/db_type/key/key_serializer.rs:123-126 | Decoding a string's UTF-8 bytes gives back the string |
| Text.Utf8Injective | src/db_type/key/key_serializer.rs:123-126 | Distinct strings have distinct UTF-8 bytes |
| Text.Utf8Append | src/db_type/key/key_serializer.rs:123-126 | The bytes of a concatenation are the concatenated bytes |
| KeyValues.KeyOf | src/db_type/key/key_value.rs:4-7 | A key value carries no key exactly when it is an optional key that is absent |
| KeyValues.MapKey | src/db_type/input.rs:27-38 | Mapping a key value keeps its kind and its absence, and transforms the key when there is one |
| Input.Lookup | src/db_type/input.rs:21 | Finds the value of a definition equal to the one asked for, and finds nothing exactly when no such definition exists |
| Input.SecondaryKeyValue | src/db_type/input.rs:17-43 | A missing definition is `SecondaryKeyDefinitionNotFound` with an empty table name. A unique key yields the stored value. A non-unique key yields the composite of the stored key and the primary key, with the same kind and absence |
| Input.ToItem | src/db_type/input.rs:60-66 | The item carries the record's primary and secondary keys and the record's encoding as its payload, which decodes back to the record whenever the codec round-trips |
| Input.NonUniqueKeysSeparateRecords | src/db_type/input.rs:27-38 | Two records with equal-length primary keys share a non-unique index entry only when they are the same record with the same secondary key |
| ModelDefinition.CheckSecondaryOptions | src/model.rs:11-35 | An unknown key is `SecondaryKeyDefinitionNotFound`. A registered key passes exactly when its registered options satisfy the check, and otherwise fails with `SecondaryKeyConstraintMismatch` carrying those options |
| ModelDefinition.CheckIgnoresCallerOptions | src/model.rs:11-35 | The check uses the model's registered options, never the options on the caller's definition |
| ModelDefinition.RegisteredUniqueKeyPasses | src/model.rs:11-35 | A key registered as unique passes the uniqueness check even when the caller's definition carries default options |
| ModelRegistry.NewModels | src/models.rs:256-301 | A new registry holds no models |
| ModelRegistry.SetLegacyFlags | src/models.rs:266-289 | The legacy-flag pass keeps the set of registered tables |
| ModelRegistry.SetLegacyFlagsPanics | src/models.rs:277-288 | The pass panics exactly when a visited model has the new model's id and version |
| ModelRegistry.SetLegacyFlagsSets | src/models.rs:266-275 | Each visited model becomes legacy exactly when its version is at most the new one. The new model's flag is decided by the last model visited |
| ModelRegistry.SetLegacyFlagsSpec | src/models.rs:266-289 | The panic condition and the flags together, for every visiting order |
| ModelRegistry.Define | src/models.rs:256-301 | `define` panics exactly when a registered model has the same id and version. Otherwise the registry gains the new table name with the new model, id and version, and keeps all other names |
| ModelRegistry.FirstModelIsCurrent | src/models.rs:256-301 | The first model defined is not legacy |
| ModelRegistry.DefineSetsEarlierFlags | src/models.rs:267-275 | After `define`, every other model is legacy exactly when its version is at most the new version, whatever its id, and keeps its model |
| ModelRegistry.DefineNewModelFlag | src/models.rs:267-275 | The new model is legacy exactly when the last model visited has a higher version; it is current when no registered version is higher |
| ModelRegistry.DefineReplacesSameName | src/models.rs:291-298 | Defining a table name already registered replaces that entry, leaving the count unchanged |
| ModelRegistry.ExampleTablesDiffer | src/models.rs:234-248 | The two example models, with different ids, get different table names |
| ModelRegistry.UnrelatedModelBecomesLegacy | src/models.rs:266-275 | Defining a model with a different id marks an earlier, unrelated model as legacy |
| ModelRegistry.NewModelFlagDependsOnOrder | src/models.rs:266-275 | With versions 1 and 3 of one id registered, whether a new version 2 is legacy depends on map iteration order |
| ModelRegistry.RecomputeLegacy | src/models.rs:256-301 | Corrected flags: a model is legacy exactly when a model of the same id has a higher version, and nothing else changes |
| ModelRegistry.RecomputeIsStable | src/models.rs:256-301 | Recomputing the corrected flags does not change which models are superseded |
| ModelRegistry.DefineIntended | src/models.rs:256-301 | Corrected `define`: the same panic condition and tables, with every flag meaning "superseded by a higher version of the same id" |
| ModelRegistry.WithIntendedFlags | src/models.rs:291-298 | The registry with the new model added has every flag equal to "superseded", and keeps the new model's id and version |
| ModelRegistry.IntendedKeepsOtherIdsCurrent | src/models.rs:266-275 | Under the corrected rule, a current model of another id stays current |
| ModelRegistry.IntendedKeepsUnrelatedModelCurrent | src/models.rs:266-275 | Under the corrected rule, defining an unrelated model leaves the earlier model current |
| ModelRegistry.FirstIntendedDefinition | src/models.rs:256-301 | The corrected first definition registers exactly one current model with its id and version |
| Tables.PrimaryTable | src/transaction/internal/rw_transaction.rs:32-41 | Opening a primary table succeeds exactly when the model's table is defined, and otherwise reports `TableDefinitionNotFound` for it |
| Tables.SecondaryTable | src/transaction/internal/rw_transaction.rs:43-64 | Opening a secondary table needs the primary table defined and the key registered on it. Either failure is `TableDefinitionNotFound`, naming the missing table |
| Tables.SortedKeys | src/db_type/key/key.rs:120-124 | A table's keys listed in key order: each key exactly once, ascending |
| Tables.SortedKeysAscend | src/db_type/key/key.rs:120-124 | Listed keys ascend strictly in the byte order |
| Tables.StoredPayloads | src/transaction/query/scan/primary_scan.rs:56-62 | The payloads a full scan reads: one per row, in key order |
| Tables.PayloadIndex | src/transaction/query/scan/primary_scan.rs:56-62 | Every stored row's payload appears at some position of the key-ordered listing |
| Tables.SortedPairs | src/transaction/query/scan/secondary_scan.rs:68-75 | Secondary entries listed in (secondary key, primary key) order, each once |
| Tables.FilteredPairsCount | src/transaction/internal/rw_transaction.rs:253-283 | Filtering the ordered entries keeps exactly as many as there are matching entries |
| Tables.KeyLeIsTotalOrder | src/db_type/key/key.rs:120-124 | The key order is a total order |
| Tables.PairLeIsTotalOrder | src/db_type/key/key.rs:120-124 | The entry order, by secondary key then primary key, is a total order |
| IndexMaintenance.IndexEntry | src/transaction/internal/rw_transaction.rs:125-155 | A record contributes an index entry exactly when it has a key for the definition; the entry pairs that key with the primary key |
| IndexMaintenance.EntriesFor | src/transaction/internal/rw_transaction.rs:125-155 | Every entry a record contributes points at its primary key |
| IndexMaintenance.InsertSecondaryKeys | src/transaction/internal/rw_transaction.rs:125-155 | Indexing leaves the rows alone and adds at most the record's entries. On success it adds exactly them |
| IndexMaintenance.InsertSecondaryKeysSucceedsIff | src/transaction/internal/rw_transaction.rs:125-155 | Indexing succeeds exactly when every key's table exists and no unique key is already taken |
| IndexMaintenance.RemoveSecondaryKeys | src/transaction/internal/rw_transaction.rs:185-205 | Unindexing leaves the rows alone and removes at most the record's entries. On success it removes exactly them |
| IndexMaintenance.RemoveSecondaryKeysSucceedsIff | src/transaction/internal/rw_transaction.rs:185-205 | Unindexing succeeds exactly when every key's table exists and every key the record has is found |
| InternalRw.Insert | src/transaction/internal/rw_transaction.rs:73-96 | An undefined table gives `TableDefinitionNotFound`, and an existing primary key gives `DuplicateKey`, both with the store unchanged. Otherwise the row is written and then the secondary keys are indexed |
| InternalRw.InsertSucceedsIff | src/transaction/internal/rw_transaction.rs:73-96 | Insert succeeds exactly when the table is defined, the primary key is new, and every secondary key can be indexed |
| InternalRw.InsertConflictKeepsRow | src/transaction/internal/rw_transaction.rs:84-86 | When a secondary key conflicts, insert fails but the row it already wrote stays in the table |
| InternalRw.Remove | src/transaction/internal/rw_transaction.rs:157-215 | A missing row gives `KeyNotFound`, and a stored payload that differs gives `IncorrectInputData` with the stored bytes. Both leave the store unchanged. Otherwise the row is deleted and the secondary keys are unindexed |
| InternalRw.RemoveSucceedsIff | src/transaction/internal/rw_transaction.rs:157-215 | Remove succeeds exactly when the row exists with the given payload and every secondary key can be unindexed |
| InternalRw.EntryIsAmongEntries | src/transaction/internal/rw_transaction.rs:185-205 | A key the record has yields an entry among those removal takes out |
| InternalRw.RemoveUndoesInsert | src/transaction/internal/rw_transaction.rs:73-215 | Removing a record just inserted succeeds and restores every table and every index |
| InternalRw.Update | src/transaction/internal/rw_transaction.rs:217-226 | Update is remove of the old record then insert of the new one. A failed remove is reported as is, and success returns the watch request with both payloads |
| InternalRw.UpdateInPlace | src/transaction/internal/rw_transaction.rs:217-226 | A successful update under the same primary key replaces exactly that row's payload |
| InternalRw.Upsert | src/transaction/internal/rw_transaction.rs:98-121 | Upsert is insert when there is no previous record and update of it otherwise, and reports the previous payload exactly when there was one |
| Reads.GetByPrimaryKey | src/transaction/internal/private_readable_transaction.rs:28-37 | A lookup fails only for an undefined table, and finds a payload exactly when the key is stored, returning the stored bytes |
| Reads.GetAfterInsert | src/transaction/internal/private_readable_transaction.rs:28-37 | After a successful insert the record is found under its primary key |
| Reads.GetAfterRemove | src/transaction/internal/private_readable_transaction.rs:28-37 | After a successful remove nothing is found under the primary key |
| Reads.PrimaryKeyFor | src/transaction/internal/private_readable_transaction.rs:49-55 | Finds an index entry for the secondary key, and nothing exactly when there is none |
| Reads.GetBySecondaryKey | src/transaction/internal/private_readable_transaction.rs:39-61 | The key must be registered as unique and its table must exist. The lookup finds nothing exactly when no entry has the key, and otherwise returns the record its entry points at |
| Reads.GetBySecondaryKeyFindsRecord | src/transaction/internal/private_readable_transaction.rs:39-61 | A unique entry pointing at a stored row returns that row |
| Reads.GetBySecondaryKeyDanglingEntry | src/transaction/internal/private_readable_transaction.rs:39-61 | An entry pointing at a missing row gives `PrimaryKeyNotFound` |
| Reads.PrimaryLen | src/transaction/internal/private_readable_transaction.rs:63-67 | Counting fails exactly for an undefined table; otherwise the count is the number of rows stored in the model's primary table |
| Reads.PrimaryLenCountsWrites | src/transaction/internal/private_readable_transaction.rs:63-67 | A successful insert adds one row and a successful remove takes one away |
| RwTransactions.Insert | src/transaction/rw_transaction.rs:133-140 | Insert writes through the internal insert. On success it queues one insert event with the encoded record, and on failure it queues nothing |
| RwTransactions.InsertIsVisibleAndQueued | src/transaction/rw_transaction.rs:133-140 | After a successful insert the record is readable, and its event is the next one the batch yields |
| RwTransactions.PreviousInput | src/transaction/rw_transaction.rs:186-192 | No stored row means no previous record. A stored row is decoded, and decoding failures are reported |
| RwTransactions.Upsert | src/transaction/rw_transaction.rs:184-208 | A failed read leaves the transaction unchanged. A success queues exactly one event, for the record's watch request |
| RwTransactions.UpsertReportsPrevious | src/transaction/rw_transaction.rs:184-208 | After upsert the new record is readable. A fresh key reports no previous record and queues an insert; an existing key reports the decoded previous record and queues an update |
| RwTransactions.Remove | src/transaction/rw_transaction.rs:249-256 | A successful remove queues a delete event and returns the decoded record; a failed one queues nothing |
| RwTransactions.RemoveGivesRecordBack | src/transaction/rw_transaction.rs:249-256 | With a round-tripping codec, remove returns the very record and it is no longer readable |
| RwTransactions.Update | src/transaction/rw_transaction.rs:299-308 | Update succeeds exactly when the internal update does, and then queues an update event with both payloads |
| RwTransactions.UpdateIsVisible | src/transaction/rw_transaction.rs:299-308 | After an update under one primary key, the new record is what is read |
| RwTransactions.DecodeAll | src/transaction/rw_transaction.rs:370-371 | Decoding all payloads succeeds exactly when each one decodes, and keeps their order |
| RwTransactions.ConvertEach | src/transaction/rw_transaction.rs:372-378 | Converting records touches no table other than the old and the new model's |
| RwTransactions.ConvertEachKeeps | src/transaction/rw_transaction.rs:372-378 | Rows already in the new table are kept, and the old table gains no row |
| RwTransactions.ConvertEachMoves | src/transaction/rw_transaction.rs:372-378 | After a successful conversion, each converted record is in the new table and its old key is gone from the old table |
| RwTransactions.ConvertOne | src/transaction/rw_transaction.rs:372-378 | One conversion step keeps other tables and the new table's existing rows |
| RwTransactions.ConvertAll | src/transaction/rw_transaction.rs:365-380 | `convert_all` queues no events, and an undefined old table is `TableDefinitionNotFound` with nothing changed |
| RwTransactions.ConvertAllMovesRecords | src/transaction/rw_transaction.rs:365-380 | After a successful `convert_all`, every old row decodes and its converted record is stored in the new table |
| RwTransactions.Commit | src/transaction/rw_transaction.rs:83-89 | A storage fault fails the commit and delivers nothing. Otherwise commit succeeds exactly when the watcher lock is free and every planned event is delivered, and no event goes to a closed receiver |
| RwTransactions.Abort | src/transaction/rw_transaction.rs:92-94 | Abort fails exactly on a storage fault and never delivers events |
| DrainMigrate.DrainPairs | src/transaction/internal/rw_transaction.rs:253-283 | Cleaning an index removes only entries of drained records, and keeps every entry of a record that was not drained |
| DrainMigrate.DrainBudgetSuffices | src/transaction/internal/rw_transaction.rs:259-275 | When each drained record has at most one entry, the walk capped at the number of drained records reaches all of them |
| DrainMigrate.DrainPairsRemovesAll | src/transaction/internal/rw_transaction.rs:253-283 | When each drained record has at most one entry, cleaning removes exactly the entries of drained records |
| DrainMigrate.DrainPairsBoundCanLeaveEntries | src/transaction/internal/rw_transaction.rs:259-275 | One drained record with two index entries keeps its second entry, because the walk stops after one removal |
| DrainMigrate.PayloadsInKeyOrder | src/transaction/internal/rw_transaction.rs:233-241 | The drained payloads: one per row, in primary key order |
| DrainMigrate.Drain | src/transaction/internal/rw_transaction.rs:228-286 | An undefined table is `TableDefinitionNotFound`. Otherwise drain returns every payload in key order, empties the table, and touches no other table |
| DrainMigrate.CleanIndexes | src/transaction/internal/rw_transaction.rs:253-283 | Only the model's index tables are cleaned, and the rows are not touched |
| DrainMigrate.PayloadsFollowKeyOrder | src/transaction/internal/rw_transaction.rs:233-241 | Every row's payload appears at its key's position, and the keys ascend |
| DrainMigrate.PayloadsCoverRows | src/transaction/internal/rw_transaction.rs:233-241 | Every stored row is among the drained payloads |
| DrainMigrate.KeysAscend | src/transaction/internal/rw_transaction.rs:233-241 | The drained keys ascend strictly |
| DrainMigrate.DrainYieldsRowsInOrder | src/transaction/internal/rw_transaction.rs:228-286 | Drain returns exactly one payload per row, in ascending key order |
| DrainMigrate.DrainClearsIndexes | src/transaction/internal/rw_transaction.rs:253-283 | When each record has at most one entry per index, drain leaves no index entry of a drained record |
| DrainMigrate.InsertAll | src/transaction/internal/rw_transaction.rs:354-358 | Re-inserting decoded records keeps other tables and every existing row; on success each decoded record is stored |
| DrainMigrate.Holding | src/transaction/internal/rw_transaction.rs:305-336 | The tables, among those visited, whose model has the id and holds data |
| DrainMigrate.HoldingCountsTables | src/transaction/internal/rw_transaction.rs:305-336 | Over a repetition-free order, that list has one entry per such table |
| DrainMigrate.FindSource | src/transaction/internal/rw_transaction.rs:305-336 | The search for the table to migrate from panics only with `Panic`, and a found source is a defined table |
| DrainMigrate.FindSourceSpec | src/transaction/internal/rw_transaction.rs:305-336 | The search panics exactly when two or more tables of the id hold data, and otherwise returns the single one or none |
| DrainMigrate.FindSourceOverDefinitions | src/transaction/internal/rw_transaction.rs:305-336 | Over all definitions, the search panics exactly when two or more tables of the id hold data. It finds none when no table does, and the one when exactly one does |
| DrainMigrate.Migrate | src/transaction/internal/rw_transaction.rs:288-361 | Migrating an undefined model panics (the `expect` at 289-292). Migrating a legacy model is `MigrateLegacyModel`. Both leave the store unchanged |
| DrainMigrate.MigrateWithoutOtherSourceIsNoOp | src/transaction/internal/rw_transaction.rs:338-351 | With no other table of the id holding data, migration succeeds and changes nothing |
| DrainMigrate.MigratePanicsOnTwoSources | src/transaction/internal/rw_transaction.rs:326-332 | Migration panics exactly when two or more tables of the id hold data |
| DrainMigrate.MigrateMovesRecords | src/transaction/internal/rw_transaction.rs:288-361 | A successful migration from the single other table of the id empties that table and stores every one of its records, decoded, in the target |
| DrainMigrate.MigrateDrainsSource | src/transaction/internal/rw_transaction.rs:288-361 | Migration from a source with no table definition fails. Otherwise migration is the source drained, then its payloads inserted into the target in key order |
| DrainMigrate.InsertAllHoldsEveryRow | src/transaction/internal/rw_transaction.rs:353-358 | After re-inserting drained payloads, every row's decoded record is stored |
| DrainMigrate.Refresh | src/transaction/internal/rw_transaction.rs:363-370 | Refreshing an undefined table is `TableDefinitionNotFound` with nothing changed |
| DrainMigrate.RefreshKeepsRows | src/transaction/internal/rw_transaction.rs:363-370 | A successful refresh, with a codec that re-encodes rows to themselves, leaves the table's rows as they were |
| DrainMigrate.InsertAllRestoresRows | src/transaction/internal/rw_transaction.rs:364-368 | Re-inserting the drained payloads into the emptied table rebuilds exactly the rows |
| DrainMigrate.InsertAllRestoresEachRow | src/transaction/internal/rw_transaction.rs:364-368 | Every drained row is back with its payload |
| DrainMigrate.InsertAllAddsNoOtherRow | src/transaction/internal/rw_transaction.rs:364-368 | Re-insertion into an empty table adds no key that was not drained |
| DrainMigrate.InsertAllAddsOnlyDecoded | src/transaction/internal/rw_transaction.rs:354-358 | Re-insertion adds only keys of decoded records |
| PrimaryScans.All | src/transaction/query/scan/primary_scan.rs:56-62 | A faulty open is a storage error. Otherwise the scan yields at most one item per row, and with no faults it yields every row decoded, in key order |
| PrimaryScans.AllBackwards | src/transaction/query/scan/primary_scan.rs:166-173 | The backward scan has the same error and bound |
| PrimaryScans.BackwardsReversesForwards | src/transaction/query/scan/primary_scan.rs:159-173 | With no faults, the backward scan yields the forward scan reversed |
| PrimaryScans.DecodedOfReverse | src/db_type/output.rs:18-27 | Decoding reversed keys is reversing the decoded items |
| PrimaryScans.Visit | src/transaction/query/scan/primary_scan.rs:159-164 | The keys a scan visits are a leading part of the range, cut where a read fails |
| PrimaryScans.RangeKeys | src/transaction/query/scan/primary_scan.rs:94-105 | The keys of a range scan are exactly the stored keys the range admits, ascending |
| PrimaryScans.Decoded | src/db_type/output.rs:18-27 | Each yielded item is the decoding of the row under the matching key |
| PrimaryScans.Range | src/transaction/query/scan/primary_scan.rs:94-105 | A failed key type check is reported first, then a storage error; otherwise the scan opens |
| PrimaryScans.RangeYieldsAdmittedRows | src/transaction/query/scan/primary_scan.rs:94-105 | With no faults, a range scan yields, decoded and in ascending key order, exactly the rows whose keys the translated range admits |
| PrimaryScans.RangeBackwards | src/transaction/query/scan/primary_scan.rs:94-105 | A range driven backwards fails exactly as the forward range does (key type check first, then the storage error) and otherwise yields at most one item per admitted row |
| PrimaryScans.RangeBackwardsReversesRange | src/transaction/query/scan/primary_scan.rs:166-173 | With no faults, a range driven backwards yields the forward range scan's items in reverse order |
| PrimaryScans.TakeWhilePrefix | src/transaction/query/scan/primary_scan.rs:181-196 | The prefix iterator yields a leading run of keys that start with the prefix, and stops at the first key that does not |
| PrimaryScans.StartWith | src/transaction/query/scan/primary_scan.rs:137-148 | A failed key type check is reported first, then a storage error; otherwise the scan opens |
| PrimaryScans.TakeWhilePrefixKeepsAllPrefixed | src/transaction/query/scan/primary_scan.rs:181-196 | Over ascending keys at or after the prefix, the run holds exactly the keys that start with it |
| PrimaryScans.PrefixKeys | src/transaction/query/scan/primary_scan.rs:137-148 | The reference set: exactly the stored keys that start with the prefix |
| PrimaryScans.StartWithKeysAscend | src/transaction/query/scan/primary_scan.rs:137-148 | A prefix scan visits keys in ascending order |
| PrimaryScans.StartWithKeysCover | src/transaction/query/scan/primary_scan.rs:137-196 | A prefix scan visits exactly the stored keys that start with the prefix |
| PrimaryScans.StartWithKeysSameAsFilter | src/transaction/query/scan/primary_scan.rs:137-196 | The range-then-stop scan equals filtering all keys by the prefix |
| PrimaryScans.StartWithYieldsPrefixedRows | src/transaction/query/scan/primary_scan.rs:137-196 | With no faults, a prefix scan yields exactly the prefixed rows, decoded, in key order |
| PrimaryScans.StopIsEndOfScan | src/transaction/query/scan/primary_scan.rs:184-196 | The scan ends where the range ends, where a read fails, or at the first unprefixed key |
| PrimaryScans.TakeWhileGoesOn | src/transaction/query/scan/primary_scan.rs:184-196 | A prefixed key right after the run so far continues the run |
| PrimaryScans.ScanContinues | src/transaction/query/scan/primary_scan.rs:184-196 | A readable, prefixed key continues the scan and is the next key yielded |
| PrimaryScans.CollectStartWith | src/transaction/query/scan/primary_scan.rs:137-196 | Collecting the prefix iterator yields the decoded rows of the prefixed run of the range from the prefix |
| PrimaryScans.CollectWhilePrefix | src/transaction/query/scan/primary_scan.rs:184-196 | The iterator loop yields exactly the decoded prefixed run before the first stop |
| SecondaryScans.RangeEntries | src/transaction/query/scan/secondary_scan.rs:111-125 | The entries a range visits are exactly those whose secondary key it admits, in entry order |
| SecondaryScans.PrimaryKeys | src/transaction/query/scan/secondary_scan.rs:194-205 | The primary keys the entries point at, in order |
| SecondaryScans.Forward | src/transaction/query/scan/secondary_scan.rs:194-205 | The forward iterator yields each entry's row while the row can be read, and ends silently at the first failed or missing lookup |
| SecondaryScans.Backward | src/transaction/query/scan/secondary_scan.rs:212-217 | The backward iterator yields rows until a lookup fails, and then panics. A missing row ends it silently |
| SecondaryScans.PrefixWalk | src/transaction/query/scan/secondary_scan.rs:238-253 | The prefix iterator yields rows while the secondary key has the prefix. A failed lookup panics; the first unprefixed key or a missing row ends it |
| SecondaryScans.All | src/transaction/query/scan/secondary_scan.rs:68-75 | A failed open panics; otherwise the scan yields at most one item per entry, without a panic; what it yields without faults is stated by SecondaryScans.AllYieldsEveryEntry |
| SecondaryScans.AllBackwards | src/transaction/query/scan/secondary_scan.rs:208-217 | A failed open panics; otherwise at most one item per entry; what it yields without faults is stated by SecondaryScans.BackwardsReversesForwards with SecondaryScans.AllYieldsEveryEntry |
| SecondaryScans.Range | src/transaction/query/scan/secondary_scan.rs:111-125 | A failed open panics; otherwise the forward range scan never panics |
| SecondaryScans.RangeBackwards | src/transaction/query/scan/secondary_scan.rs:208-217 | A range driven backwards panics on a failed open; otherwise it yields at most one item per admitted entry |
| SecondaryScans.StartWith | src/transaction/query/scan/secondary_scan.rs:161-176 | A failed open panics |
| SecondaryScans.ForwardReadsIntactEntries | src/transaction/query/scan/secondary_scan.rs:194-205 | When every entry's row exists and reads succeed, the forward iterator yields every row in entry order |
| SecondaryScans.DanglingEntryEndsForwardScan | src/transaction/query/scan/secondary_scan.rs:194-205 | The first entry whose row is missing ends the forward scan there |
| SecondaryScans.BackwardPanicsOnFailedLookup | src/transaction/query/scan/secondary_scan.rs:212-217 | In a consistent index, a failing lookup of any entry makes the backward scan panic |
| SecondaryScans.BackwardPanicsAt | src/transaction/query/scan/secondary_scan.rs:212-217 | A failing lookup reached before any missing row makes the backward iterator panic |
| SecondaryScans.BackwardReadsIntactEntries | src/transaction/query/scan/secondary_scan.rs:212-217 | With intact entries and no faults, the backward iterator yields every row without a panic |
| SecondaryScans.BackwardsReversesForwards | src/transaction/query/scan/secondary_scan.rs:194-217 | In a consistent index, the backward scan yields the forward scan reversed |
| SecondaryScans.AllYieldsEveryEntry | src/transaction/query/scan/secondary_scan.rs:68-75 | In a consistent index with no faults, `all` yields, without a panic, the decoded record of every entry of the secondary table, in entry order |
| SecondaryScans.RangeBackwardsReversesRange | src/transaction/query/scan/secondary_scan.rs:111-125 | In a consistent index with no faults, a range driven backwards yields the forward range scan's records in reverse, without a panic |
| SecondaryScans.PrimaryKeysOfReverse | src/transaction/query/scan/secondary_scan.rs:212-217 | Reversing the entries reverses their primary keys |
| SecondaryScans.RangeYieldsAdmittedEntries | src/transaction/query/scan/secondary_scan.rs:111-125 | In a consistent index, a range scan yields the rows of exactly the entries whose secondary key the translated range admits |
| SecondaryScans.PrefixEntries | src/transaction/query/scan/secondary_scan.rs:161-176 | The reference set: exactly the entries whose secondary key starts with the prefix |
| SecondaryScans.PrefixRun | src/transaction/query/scan/secondary_scan.rs:238-253 | The leading run of entries whose secondary key has the prefix, stopping at the first that does not |
| SecondaryScans.PrefixWalkReadsRun | src/transaction/query/scan/secondary_scan.rs:238-253 | With intact entries, the prefix iterator yields the rows of exactly that run |
| SecondaryScans.PrefixRunKeepsAllPrefixed | src/transaction/query/scan/secondary_scan.rs:238-253 | Over ordered entries at or after the prefix, the run holds every prefixed entry |
| SecondaryScans.RangeFromBoundsEntries | src/transaction/query/scan/secondary_scan.rs:166-169 | The range from the prefix visits only entries at or after the prefix |
| SecondaryScans.RangeFromHoldsPrefixed | src/transaction/query/scan/secondary_scan.rs:166-169 | The range from the prefix visits every prefixed entry |
| SecondaryScans.PrefixRunOfRangeCovers | src/transaction/query/scan/secondary_scan.rs:161-253 | The prefix run of that range is exactly the set of prefixed entries |
| SecondaryScans.PrefixRunOfRangeAscends | src/transaction/query/scan/secondary_scan.rs:161-253 | That run is in entry order |
| SecondaryScans.PrefixRunIsPrefixEntries | src/transaction/query/scan/secondary_scan.rs:161-253 | The run is the ordered listing of the prefixed entries |
| SecondaryScans.StartWithYieldsPrefixedEntries | src/transaction/query/scan/secondary_scan.rs:161-253 | In a consistent index with no faults, a prefix scan yields the rows of exactly the prefixed entries, in entry order |
| SecondaryIndexUpgrade.StripPrimaryKey | src/upgrade/secondary_index_table_multimap.rs:50-52 | Cutting the primary key's length off the end of the old composite key. A primary key longer than the composite key is a panic, `SubtractOverflow` |
| SecondaryIndexUpgrade.StripUndoesComposite | src/upgrade/secondary_index_table_multimap.rs:50-52 | Stripping the primary key from a composite key gives back the secondary key |
| SecondaryIndexUpgrade.StripThenExtend | src/upgrade/secondary_index_table_multimap.rs:50-52 | Re-extending the stripped key rebuilds the composite exactly when the composite really ends with the primary key |
| SecondaryIndexUpgrade.Rekeyed | src/upgrade/secondary_index_table_multimap.rs:38-55 | Every old entry becomes an entry of its stripped secondary key and its primary key |
| SecondaryIndexUpgrade.RekeyedListMembers | src/upgrade/secondary_index_table_multimap.rs:38-55 | Re-keying in a visiting order produces exactly the re-keyed visited entries |
| SecondaryIndexUpgrade.ListedRekeyed | src/upgrade/secondary_index_table_multimap.rs:38-55 | Visiting every old key gives the same entries in any order |
| SecondaryIndexUpgrade.DrainOrder | src/upgrade/secondary_index_table_multimap.rs:38-43 | `pop_first` visits the old keys once each, in key order |
| SecondaryIndexUpgrade.PopEach | src/upgrade/secondary_index_table_multimap.rs:38-55 | The pop loop fails with `SubtractOverflow` exactly when some visited entry cannot be stripped. Otherwise it adds the re-keyed entries to the temporary table |
| SecondaryIndexUpgrade.DrainToTemporary | src/upgrade/secondary_index_table_multimap.rs:36-58 | Draining the old table succeeds exactly when every entry can be stripped, and fills the temporary table with the re-keyed entries |
| SecondaryIndexUpgrade.UpgradeTable | src/upgrade/secondary_index_table_multimap.rs:31-75 | A name already holding a multimap is skipped. Any other name, including one with no table at all, loses its old table, and its new multimap gains its earlier entries, its temporary table's entries and the re-keyed old entries; the temporary table is deleted and no other table changes. A failure happens only on an old table that cannot be stripped, and leaves everything unchanged |
| SecondaryIndexUpgrade.UpgradeAll | src/upgrade/secondary_index_table_multimap.rs:15-80 | Tables are upgraded in turn until the first failure, which names a table that cannot be stripped. Over distinct tables, none of which is another's temporary table, each upgraded table holds its earlier entries, its temporary table's and its re-keyed old entries, and its temporary table is gone. A listed name that already holds a multimap is unchanged, unnamed tables never change, and the primary tables stay as they were |
| SecondaryIndexUpgrade.RekeyedIsOldIndex | src/upgrade/secondary_index_table_multimap.rs:38-55 | In a well-formed old index, an upgraded entry exists exactly when the old table mapped its composite key to its primary key |
| UpgradeErrors.NewError | src/db_type/upgrade_required_error.rs:22-36 | A new error has no detail and no version |
| UpgradeErrors.WithNativeDbVersion | src/db_type/upgrade_required_error.rs:38-43 | Records the native_db versions and appends their detail line, leaving the other versions |
| UpgradeErrors.WithNativeModelVersion | src/db_type/upgrade_required_error.rs:45-50 | Records the native_model versions and appends their detail line, leaving the other versions |
| UpgradeErrors.WithRedbVersion | src/db_type/upgrade_required_error.rs:52-57 | Records the file format version and appends its detail line, from that version to v2, leaving the other versions |
| UpgradeErrors.Build | src/db_type/upgrade_required_error.rs:59-69 | Building gives `Ok` exactly when no detail was recorded, and the error itself otherwise |
| UpgradeErrors.ApplyStep | src/db_type/upgrade_required_error.rs:38-57 | Each builder call appends its own detail line |
| UpgradeErrors.Apply | src/db_type/upgrade_required_error.rs:22-57 | A chain of builder calls records one detail per call |
| UpgradeErrors.ApplyListsDetails | src/db_type/upgrade_required_error.rs:38-57 | The details are the calls' own lines, in call order |
| UpgradeErrors.ApplyRecordsLastRedbVersion | src/db_type/upgrade_required_error.rs:52-57 | The last file format call decides the recorded version, leaving the native_db pair |
| UpgradeErrors.BuildOkIffNoSteps | src/db_type/upgrade_required_error.rs:59-69 | A built chain is `Ok` exactly when no builder call was made |
| UpgradeErrors.Display | src/db_type/upgrade_required_error.rs:12-20 | The display is the header followed, for each detail in order, by a line break and the detail, as a front-to-back reference text builds it |
| UpgradeErrors.DisplayHasOneLinePerDetail | src/db_type/upgrade_required_error.rs:12-20 | With single-line details, the display has exactly one line break per detail |
| UpgradeErrors.DisplayOfRedbVersionOne | src/db_type/upgrade_required_error.rs:12-57 | The display of an error with only file format version 1 is the header and "  - redb format: v1 → v2" |
| UpgradeErrors.UpgradeContext | src/upgrade.rs:54-59 | A success passes through; a failure becomes `UpgradeMigration` with the context and the original error |
| UpgradeErrors.UpgradeWithItem | src/upgrade.rs:61-66 | As the plain variant, with " item: " and the item's rendering added to the context |
| UpgradeErrors.WithItemExtendsContext | src/upgrade.rs:54-66 | The item variant is the plain one with the longer context |
| Batches.NewBatch | src/watch/batch.rs:8-10 | A new batch is empty |
| Batches.Add | src/watch/batch.rs:12-14 | Adding appends the event at the end and keeps the earlier ones |
| Batches.Next | src/watch/batch.rs:20-22 | `next` yields nothing exactly when the batch is empty, and otherwise removes one event |
| Batches.NextUndoesAdd | src/watch/batch.rs:12-22 | `next` yields the most recently added event and gives back the batch before it |
| Batches.Drain | src/watch/batch.rs:20-22 | Draining yields one event per entry |
| Batches.DrainIsReverse | src/watch/batch.rs:12-22 | Events come out in the reverse of the order they were added |
| Batches.DrainOfAdds | src/watch/batch.rs:12-22 | The event added last is drained first |
| Watchers.NewWatchers | src/watch/sender.rs:11-13 | A new registry has no watcher |
| Watchers.AddSender | src/watch/sender.rs:15-22 | Adding registers the filter and sender under the id and keeps every other watcher |
| Watchers.RemoveSender | src/watch/sender.rs:24-26 | Removing reports whether the id was registered, and drops only that id |
| Watchers.RemoveUndoesAdd | src/watch/sender.rs:15-26 | Removing a freshly added id restores the registry, and removing it again reports nothing |
| Watchers.CountPushes | src/watch/sender.rs:54-103 | The secondary-key loop pushes at least once exactly when some key of the event matches |
| Watchers.PushesIffMatches | src/watch/sender.rs:28-108 | A watcher receives the event exactly when its filter matches the event |
| Watchers.FindSenders | src/watch/sender.rs:28-108 | A sender is returned exactly when some visited watcher holds it and its filter matches the request |
| Watchers.FindSendersOfRegistry | src/watch/sender.rs:28-108 | Over the whole registry, the senders found are exactly the matching watchers' senders, whatever the order |
| Watchers.AtMostOnePush | src/watch/sender.rs:54-103 | With distinct key definitions on the event, the loop pushes a watcher at most once |
| Watchers.PushedAtMostOnce | src/watch/sender.rs:28-108 | A matching watcher is pushed exactly once and a non-matching one never |
| Watchers.OtherTableNeverMatches | src/watch/sender.rs:34 | A watcher of another table never receives the event |
| WatchIds.Increment | src/watch/query/internal.rs:31-40 | The counter goes up by one and wraps to 0 after the largest u64 |
| WatchIds.GenerateWatcherId | src/watch/query/internal.rs:31-40 | The id is the counter before the increment. `MaxWatcherReached` occurs exactly when the counter was at its maximum, and the counter wraps anyway |
| WatchIds.WatchGeneric | src/watch/query/internal.rs:15-29 | On success the watcher is registered under the new id. On `MaxWatcherReached` the registry is unchanged |
| WatchIds.WatchGenericAddsFreshWatcher | src/watch/query/internal.rs:15-40 | Below the maximum, the new id is unused, the registry grows by exactly one, and all ids stay below the counter |
| WatchIds.UnwatchUndoesWatch | src/watch/query/internal.rs:15-40 | Unwatching the id just returned restores the registry |
| WatchIds.IdZeroIsReusedAfterWrap | src/watch/query/internal.rs:31-40 | After the failure at the maximum the counter has wrapped, so the next watch gets id 0 |
| WatchIds.PrimaryFilter | src/watch/query/internal.rs:42-50 | The filter matches exactly the events of the model's table with that primary key |
| WatchIds.PrimaryAllFilter | src/watch/query/internal.rs:52-56 | The filter matches exactly the events of the model's table |
| WatchIds.PrimaryStartWithFilter | src/watch/query/internal.rs:58-67 | The filter matches exactly the events of the table whose primary key starts with the prefix |
| WatchIds.SecondaryFilter | src/watch/query/internal.rs:69-79 | The filter matches exactly the requests for the model's table that carry an entry of the watched definition whose key is the watched value |
| WatchIds.SecondaryAllFilter | src/watch/query/internal.rs:81-88 | The filter matches exactly the requests for the model's table that carry any entry of the watched definition, an absent optional value included |
| WatchIds.SecondaryStartWithFilter | src/watch/query/internal.rs:90-103 | The filter matches exactly the requests for the model's table that carry an entry of the watched definition with a key that starts with the prefix |
| WatchIds.AbsentValueHeardOnlyByAll | src/watch/sender.rs:54-103 | An event whose optional key is absent reaches the "all" watcher of that key, but neither the value watchers nor the prefix watchers |
| WatchDispatch.SendsOf | src/watch/mod.rs:50-53 | One send per sender, each carrying the event |
| WatchDispatch.SendToAll | src/watch/mod.rs:50-53 | Sending stops at the first closed receiver. What was sent is the sends to the senders before it, none of them closed |
| WatchDispatch.PushBatch | src/watch/mod.rs:40-57 | A poisoned or busy lock is the matching error with nothing delivered. A success delivers every planned send, newest event first |
| WatchDispatch.PushBatchSucceedsIffAllAlive | src/watch/mod.rs:40-57 | A dispatch succeeds exactly when no planned send goes to a closed receiver |

## Left out

- Floating-point keys (`f32`, `f64`) and the `uuid`, `chrono` and `ulid` key impls: the model has no floating point or foreign types.
- 128-bit integers in the serde key serialiser: only the legacy `InnerKeyValue` encoding models `u128`/`i128`.
- The record codec (native_model with bincode) is an `InputModel` parameter; its encoding is not modelled.
- `check_key_type` and `check_range_key_range_bounds` are a result parameter of the scans; the model-key type metadata they consult is not part of this model.
- redb itself: storage faults are a `Faults` parameter, and opening, reading and removing fail only where it says so.
- Locks and threads: the watcher lock is a three-valued parameter, and concurrent transactions are not modelled.
- The tokio channel variant of the watch layer, and `Debug` formatting of batches and events.
- The `begin_write` and `commit` failures inside the secondary-index upgrade: the upgrade is modelled as one atomic step that fails only on the subtraction.
- The metadata, snapshot, compaction and builder files.
- DrainMigrate.Refresh: its contract states only the undefined-table error; what a successful refresh does is stated by DrainMigrate.RefreshKeepsRows under a codec that re-encodes rows to themselves.
- PrimaryScans.AllBackwards: under faults only the bound is stated; the contents without faults are stated by PrimaryScans.BackwardsReversesForwards.
- SecondaryScans.All: its contract states only the open panic and a bound; what it yields without faults is stated by SecondaryScans.AllYieldsEveryEntry.
- SecondaryScans.AllBackwards: its contract states only the open panic and a bound; without faults it yields the reverse of SecondaryScans.All (SecondaryScans.BackwardsReversesForwards).
- SecondaryScans.RangeBackwards: its contract states only the open panic and a bound; without faults it yields the reverse of SecondaryScans.Range (SecondaryScans.RangeBackwardsReversesRange).
- PrimaryScans.RangeBackwards: under faults only the bound is stated; without faults it yields the reverse of PrimaryScans.Range (PrimaryScans.RangeBackwardsReversesRange).
- SecondaryIndexUpgrade.StripPrimaryKey: the panic carries the text of a debug build's overflow check. A release build wraps the `usize` subtraction at line 52 instead, and the slice then panics with an index-out-of-range message. The model has one panic value for both.
- SecondaryIndexUpgrade.UpgradeAll: the contents of the upgraded tables are stated only when the listed tables are distinct and none is another's temporary table; otherwise one table's upgrade can overwrite another's entries.
- Reads.PrimaryKeyFor: the lookup is written against a plain table with at most one primary key per secondary key, while the store keeps secondary tables in the multimap layout a write transaction opens (src/transaction/internal/rw_transaction.rs:24). The two agree on a unique index; should a key hold several entries, the model returns the least.
- SecondaryScans.StartWith: under faults only the open failure is stated; the contents without faults are stated by SecondaryScans.StartWithYieldsPrefixedEntries.
- UpgradeErrors.Apply: states only the number of details; their contents are stated by UpgradeErrors.ApplyListsDetails.
- `..=end` with an unbounded start becomes an exclusive upper bound (Keys.UnboundedStartInclusiveEndExcludesEnd). The model keeps this behaviour because the code has it on purpose in a separate branch. It is not listed as a finding.
- The scans keep the code's range translation, `Keys.NewRange`. The corrected translation of the finding below, `Keys.IntendedRange`, is stated next to it and not used by the scans.

## Findings

| source | as written | input that shows it | evidently intended | confidence | as-written member | corrected member |
|---|---|---|---|---|---|---|
| src/models.rs:266-275 | Each registered model becomes legacy exactly when its version is at most the new model's version, whatever its id. The new model's flag is decided by the last model the `HashMap` iteration visits | Define model A (id 1, version 1), then an unrelated model B (id 2, version 1): A is marked legacy | A model is legacy exactly when a model with the same id and a higher version is registered | not executed | ModelRegistry.UnrelatedModelBecomesLegacy | ModelRegistry.IntendedKeepsUnrelatedModelCurrent |
| src/db_type/key/key.rs:141-147 | A bounded start with an inclusive end `b` becomes an inclusive end `b` followed by the byte 255 | A non-unique secondary index, value `b`, records with u32 primary keys 1 and 0xFF000000: the composite entry of the second key sorts after `b` + [255], so `a..=b` yields only the first record | Every composite entry of `b` is kept, as the comment "include the last key" says | medium, not executed; it depends on primary keys whose first byte is 255 | Keys.InclusiveEndCoversExtensions | Keys.IntendedInclusiveEndCoversExtensions |
