# OxiSQL: a verified model of its storage, query and text layers

OxiSQL puts a SQL front end on key-value stores, offers its tables to DataFusion, and carries an
SQLite-compatible core. This project models the parts whose correctness rests on an argument over
all inputs or all runs, and proves that argument:

- **Ordered key-value storage** (redb and fjall). Every table lives in one byte-ordered map under
  `table ++ 0x00 ++ encoded key`. Modules `Integers`, `Lex`, `BigEndian`, `KeyCodec`, `KeyText`,
  `RowLayout`, `Tables`, `RedbStorage`, `RedbRefinement`, `RedbReads`, `RedbTheorems`, `FjallStorage`,
  `FjallRefinement`.
- **Filter pushdown, LIKE and partitions** (the DataFusion table provider). A two-valued evaluator
  stands in for SQL's three-valued logic. Modules `Like`, `SqlValues`, `Filter`,
  `FilterSoundness`, `FilterTypes`, `Partition`, `PartitionTheorems`, and, for the exact conditions
  leaf by leaf, `FilterShapes`, `FilterLeaves`, `FilterLists`, `FilterRanges`, `FilterPatterns`,
  `FilterExact`.
- **The multi-database registry**: attach, detach, temp, per-database transactions, the resumable
  commit, and the merged catalog. Modules `MultiDb`, `Registry`, `RegistryTheorems`,
  `RegistryLaws`, `AuxTxn`, `CatalogOverlay`, `AttachOrder`, and `AsciiCase` for names.
- **Parameters**: the named-parameter rewriter, the `$N` binder, and the two in sequence. Modules
  `Decimal`, `NamedParams`, `NamedParamsTheorems`, `NamedParamsRegions`, `NamedParamsBytes`,
  `SqlBinding`, `BinderLaws`, `LiteralReader`, `ParamPipeline`.
- **CSV and full-text search**. Modules `Csv`, `CsvReference`, `Tokenizer`, `FullText`,
  `FullTextTheorems`, `FullTextHistory`, `FtsLiterals`, `FtsLaws`, `FtsReadBack`.
- **The spin lock**, as an interleaving system. Module `SpinLock`.

Code that changes state step by step is a class or a method with loops, proved against a
specification function; code that only computes is a function. The theorems are about the
specification functions, so they hold of the methods.

## What the theorems say, in short

- Every run of redb or fjall operations on well-named tables behaves like a map from table and key to
  row; scans list exactly one table, in key order. For redb the naming condition is exact.
- In every run whose keyed inserts bring in no id above the counter and whose appends do not pass the
  largest id, every append assigns ids above all live ones and overwrites nothing, with redb's stored
  counter and with fjall's rebuilt one. Inserts under that condition, and no others, keep live ids at
  or below the counters.
- Every offered leaf, plain or negated, may be pushed down exactly if a condition on the
  filter and the column types holds; filters built from safe leaves, pushed down over any
  partitioning, return the rows SQL selects.
- The one-pass rewriter replaces exactly the names that a fold over the characters finds outside quotes,
  comments and casts.
- Rewriting named parameters, resolving them and binding the values is direct substitution exactly
  when no copied `$` stands before a `$`, a digit or a placeholder.
- The merged catalog resolves qualified and unqualified names as documented, in any hash order, and
  attached databases in attach order exactly over runs whose attaches find no hole.
- The commit walk closes every open database once, in slot order, and ends; a failing flush stops it
  at the first database that has one.
- The CSV parser gives, of every text, the rows that cutting it into fields and taking off quotes gives,
  and written CSV reads back.
- A full-text search finds exactly the rows that the history of operations says, in any case; a written
  VALUES list reads back exactly when no text has a backslash before a quote or at its end.
- The spin lock excludes, its flag is right, and every fair schedule of `n` adders ends at `n`.

## Where the code and its documentation disagree

The model follows the code, and the named members say exactly when the two agree.

- **Rolling back auxiliary transactions releases no lock.** `rollback_aux_txns` records "no
  transaction", but `Pager::rollback` prunes the cache and the log and leaves the log's locks as they
  are (crates/oxisqlite-core/storage/pager/pager_caching_2.rs:279-303,
  crates/oxisqlite-core/storage/wal.rs:971-982). The record is true at the end of a run exactly when no
  rollback met an open transaction (`AuxTxn.RunIsTruthfulIff`), and after rolling back a write no
  later write on that database begins (`AuxTxn.RollbackBlocksWrites`).
- **An alias in two layers of quotes can be attached twice.** `attach_db` normalizes once, and
  `db_index_by_name` again (`RegistryTheorems.AttachKeepsDistinctIff`).
- **A refused DETACH of a locked database has already dropped it**, and `DETACH sqlite_temp` drops
  temp (`RegistryTheorems.DetachAllOrNothingIff`, `RegistryTheorems.DetachDropsTempIff`, and the
  examples `RegistryTheorems.LockedDetachExample`, `RegistryTheorems.DetachTempExample`).
- **Some ATTACH and DETACH statements panic**: a lone quote as alias, in either layer, and a DETACH of
  `sqlite_temp`, or of main or temp in two layers of quotes, while the slot vector does not reach it
  (`RegistryTheorems.AttachPanicsIff`, `RegistryTheorems.DetachPanicsIff`,
  `RegistryTheorems.FreshDetachExample`).
- **Attached databases are searched in slot order**, documented as attach order. Over a run the two
  agree exactly when no successful attach finds a free slot below a live one
  (`AttachOrder.AttachOrderIff`, `AttachOrder.YoungerFirstExample`).
- **An append can overwrite a row**: after a keyed insert above the counter it assigns the inserted id
  again (`RedbTheorems.OverwritingAppendExample`, `FjallStorage.OverwritingAppendExample`). Inserts that
  keep the counters above live ids are characterized by `InsertKeepsIdsIff`, appends that overwrite
  nothing by `AppendSafeIff`, in `RedbTheorems` and `FjallStorage`.
- **A table name with a NUL byte, or the name `\x01counter`, breaks redb's isolation**
  (`RedbTheorems.IsolatedIffGoodName`).
- **Some filters offered for pushdown lose rows**: negated comparisons of two columns or with an
  unknown literal, a float in an IN list over integers, a float bound of NOT BETWEEN over integers
  (`FilterExact.LeafPushableIff`, `FilterExact.NegatedLeafPushableIff`, and the examples
  `FilterSoundness.NegatedColumnPairExample`, `FilterExact.UnknownLiteralExample`,
  `FilterExact.FloatInExample`, `FilterExact.FloatBoundExample`).
- **The two float zeros are equal but hash apart**, so equal keys share a bucket under every hash
  exactly when the column does not hold both (`PartitionTheorems.EqualKeysShareIff`).
- **A target batch size of zero divides by zero** (`PartitionTheorems.AutoPartitionFailsIff`), and
  range partitioning can yield fewer chunks than documented
  (`PartitionTheorems.RangePartitionCountIff`).
- **The meaning of `sqlite_temp_schema` depends on hash order** when temp has its own table of that
  name (`CatalogOverlay.AliasIsOrderFreeIff`).
- **A CSV row of no fields reads back as one empty field** (`Csv.RoundTripIff`), a last line that is one
  empty field is no row unless a line break ends it (`CsvReference.LastBreakIsOptionalIff`), and of white space at
  the edge of a field only the space is quoted, so a reader that trims keeps a field exactly when it
  was quoted or has no white space at an edge (`Csv.TrimmingReaderIff`, `Csv.TabExample`).
- **The rewriter copies bytes as characters**, so a statement is rewritten as text exactly when it is
  ASCII (`NamedParamsBytes.RewriteSurvivesIff`, `NamedParamsBytes.AccentExample`).

## Model

| member | source | states |
|---|---|---|
| `Lex.PrefixContiguous` | crates/oxisql-embedded/src/redb_storage.rs:535-541 | In byte order the keys with a given prefix are contiguous: past the first key without it, none has it. This is why a range read may stop there. |
| `Lex.PrefixIsLowerBound` | crates/oxisql-embedded/src/redb_storage.rs:535-536 | No key with a prefix sorts below the prefix, so the range read misses none. |
| `BigEndian.DecodeEncode` | crates/oxisql-embedded/src/redb_storage.rs:84-120 | Reading a big-endian integer back gives the integer. |
| `BigEndian.EncodeDecode` | crates/oxisql-embedded/src/redb_storage.rs:183-283 | Every byte string of a width is that of the integer it reads as. |
| `BigEndian.EncodeOrder` | crates/oxisql-embedded/src/redb_storage.rs:84-120 | Byte order of big-endian integers of one width is numeric order, both ways. |
| `KeyCodec.FlippedIsShifted` | crates/oxisql-embedded/src/redb_storage.rs:84-106 | Flipping the sign bit of the two's complement shifts the number by half the range and undoes itself. |
| `KeyCodec.DecodeEncodeKey` | crates/oxisql-embedded/src/redb_storage.rs:76-283 | Decoding an encoded key returns it, a Uuid as the U128 with its value, for both back ends. |
| `KeyCodec.EncodeInjective` | crates/oxisql-embedded/src/fjall_storage.rs:69-141 | Two keys encode alike exactly when they are the same key up to Uuid and U128. |
| `KeyCodec.EncodeOrder` | crates/oxisql-embedded/src/redb_storage.rs:76-180 | Byte order of encoded keys is key order: by type tag, and within Bool, each integer width, Str and Bytea by value. |
| `KeyCodec.KeyRanges` | crates/oxisql-embedded/src/redb_storage.rs:76-180 | Every integer of its width is a key, and no other, in plain numbers. |
| `KeyCodec.TagTable` | crates/oxisql-embedded/src/fjall_storage.rs:69-141 | The type tag of every key, byte for byte, for both back ends. |
| `KeyText.ValidIff` | crates/oxisql-embedded/src/redb_storage.rs:183-283 | The bytes a text key may hold are exactly the UTF-8 encodings of strings. |
| `RowLayout.PrefixDeterminesName` | crates/oxisql-embedded/src/redb_storage.rs:287-302 | A row key of one NUL-free table has the prefix of another only if the tables are the same. |
| `RowLayout.DataKeyInjective` | crates/oxisql-embedded/src/redb_storage.rs:287-294 | Row keys of NUL-free tables collide only for the same table and key. |
| `RowLayout.DataKeyOrder` | crates/oxisql-embedded/src/fjall_storage.rs:197-203 | Within a table, byte order of row keys is key order. |
| `RowLayout.CounterKeyIsNoRow` | crates/oxisql-embedded/src/redb_storage.rs:304-317 | A counter is never taken for a row, nor a row for a counter. |
| `RowLayout.CounterKeyIs` | crates/oxisql-embedded/src/redb_storage.rs:304-317 | The bytes of a counter key. |
| `RowLayout.AdvanceCounts` | crates/oxisql-embedded/src/redb_storage.rs:623-632 | The wrapping counter counts by addition short of the maximum. |
| `RowLayout.RemoveAll` | crates/oxisql-embedded/src/fjall_storage.rs:335-339 | The removal loop of a drop, in both stores, removes exactly the keys collected. |
| `Tables.InsertMeans` | crates/oxisql-embedded/src/redb_storage.rs:557-573 | After an insert a key of the table holds the last row given for it, and every other row is as before. |
| `Tables.DeleteMeans` | crates/oxisql-embedded/src/redb_storage.rs:575-589 | After a delete exactly the keys given are gone from the table. |
| `RedbStorage.RedbGlueStorage.constructor` | crates/oxisql-embedded/src/redb_storage.rs:388-416 | A new store has no schemas and no data. |
| `RedbStorage.RedbGlueStorage.WriteSchema` | crates/oxisql-embedded/src/redb_storage.rs:458-469 | Sets one schema and changes nothing else. |
| `RedbStorage.RedbGlueStorage.InsertData` | crates/oxisql-embedded/src/redb_storage.rs:557-573 | The loop over rows writes each under its row key, later ones winning. |
| `RedbStorage.RedbGlueStorage.DeleteData` | crates/oxisql-embedded/src/redb_storage.rs:575-589 | The loop over keys removes exactly their row keys. |
| `RedbStorage.RedbGlueStorage.FetchData` | crates/oxisql-embedded/src/redb_storage.rs:510-523 | Returns the bytes under the row key, or nothing. |
| `RedbStorage.RedbGlueStorage.ScanRows` | crates/oxisql-embedded/src/redb_storage.rs:525-555 | The range read that stops at the first key without the prefix, skips counters and fails on an undecodable key. |
| `RedbStorage.DoomedAreAll` | crates/oxisql-embedded/src/redb_storage.rs:485-497 | The keys read before the first without the prefix are all keys that have it. |
| `RedbStorage.RedbGlueStorage.CollectPrefix` | crates/oxisql-embedded/src/redb_storage.rs:485-497 | Collects exactly the stored keys with the prefix. |
| `RedbStorage.RedbGlueStorage.DeleteSchemaAndData` | crates/oxisql-embedded/src/redb_storage.rs:471-506 | Removes the schema, every key with the table's prefix and its counter, and nothing else. |
| `RedbStorage.RedbGlueStorage.ReadCounterOf` | crates/oxisql-embedded/src/redb_storage.rs:593-612 | Zero when absent, an error unless 8 bytes, else the signed number. |
| `RedbStorage.RedbGlueStorage.AppendData` | crates/oxisql-embedded/src/redb_storage.rs:614-641 | Writes the rows under consecutive ids and stores the counter; fails, changing nothing, exactly on a corrupted counter. |
| `RedbRefinement.StepRefines` | crates/oxisql-embedded/src/redb_storage.rs:458-641 | Every operation on the byte map does to the represented tables what the abstract operation does. |
| `RedbRefinement.RunRefines` | crates/oxisql-embedded/src/redb_storage.rs:458-641 | So does every run of operations on well-named tables. |
| `RedbRefinement.ScanLists` | crates/oxisql-embedded/src/redb_storage.rs:525-555 | A scan succeeds and lists exactly the rows of its table, in key order. |
| `RedbRefinement.FetchFinds` | crates/oxisql-embedded/src/redb_storage.rs:510-523 | A fetch returns the represented row, or nothing if there is none. |
| `RedbRefinement.CounterReadsBack` | crates/oxisql-embedded/src/redb_storage.rs:593-612 | The stored counter always reads back. |
| `RedbRefinement.HoldsDropped` | crates/oxisql-embedded/src/redb_storage.rs:471-506 | A drop removes the rows and the counter of its table from the representation and keeps those of every other. |
| `RedbRefinement.EveryRunReads` | crates/oxisql-embedded/src/redb_storage.rs:458-641 | After every run from an empty store, schemas, scans, fetches and counters are those of the abstract tables. |
| `RedbReads.ScanMeans` | crates/oxisql-embedded/src/redb_storage.rs:525-555 | Of any stored bytes, a scan fails exactly if a key of the table that is no counter does not decode, and else lists exactly the rows under those keys. |
| `RedbReads.CounterReadsIff` | crates/oxisql-embedded/src/redb_storage.rs:593-612 | A stored counter reads as a number exactly if its bytes are those of the number, and as corrupted exactly if they are those of none. |
| `RedbTheorems.IsolatedIffGoodName` | crates/oxisql-embedded/src/redb_storage.rs:288-317 | A row of a table shows in its own scan and in that of no other well-named table exactly when the name has no NUL and is not the counter name. |
| `RedbTheorems.BadNameLeaks` | crates/oxisql-embedded/src/redb_storage.rs:288-317 | For every bad name, a table in whose scan a row of it is wrongly present or missing. |
| `Tables.AppendAssigns` | crates/oxisql-embedded/src/redb_storage.rs:623-632 | An append of any length, a wrapping one included, leaves under each id it assigns the last row given that id, and every other row alone. |
| `Tables.AppendAssignsBelowMax` | crates/oxisql-embedded/src/redb_storage.rs:623-632 | Short of the largest id, row `i` is stored under the counter plus `i + 1`. |
| `RedbTheorems.InsertKeepsIdsIff` | crates/oxisql-embedded/src/redb_storage.rs:713-725 | A keyed insert keeps live ids at or below the counters exactly when it brings in no id above its table's counter. |
| `RedbTheorems.StepKeepsIds` | crates/oxisql-embedded/src/redb_storage.rs:614-641 | Every operation under that discipline keeps live ids at or below the counters. |
| `RedbTheorems.RunKeepsIds` | crates/oxisql-embedded/src/redb_storage.rs:614-641 | So does every run. |
| `RedbTheorems.EveryAppendIsFresh` | crates/oxisql-embedded/src/redb_storage.rs:593-641 | After every such run, an append assigns ids above all live ones, stores its rows there and keeps every earlier row. |
| `RedbTheorems.EveryStoredAppendIsFresh` | crates/oxisql-embedded/src/redb_storage.rs:593-641 | The same of the bytes on disk: whatever could be fetched still can, and the new rows are fetched under ids that fetched nothing before. |
| `RedbTheorems.AppendSafeIff` | crates/oxisql-embedded/src/redb_storage.rs:614-641 | In any state and for any number of rows, an append overwrites nothing exactly when no live id is among those it assigns, wrapped ones included. |
| `RedbTheorems.OverwritingAppendExample` | crates/oxisql-embedded/src/redb_storage.rs:557-641 | On an empty store, a row inserted under id 1 is fetched, and after an append the appended row is fetched in its place. |
| `FjallStorage.FjallGlueStorage.Open` | crates/oxisql-embedded/src/fjall_storage.rs:183-193 | Opening keeps what is stored and forgets the counters. |
| `FjallStorage.FjallGlueStorage.InsertSchema` | crates/oxisql-embedded/src/fjall_storage.rs:309-315 | Sets one schema and changes nothing else. |
| `FjallStorage.FjallGlueStorage.InsertData` | crates/oxisql-embedded/src/fjall_storage.rs:373-382 | The loop over rows writes each under its row key, later ones winning. |
| `FjallStorage.FjallGlueStorage.DeleteData` | crates/oxisql-embedded/src/fjall_storage.rs:384-392 | The loop over keys removes exactly their row keys. |
| `FjallStorage.FjallGlueStorage.FetchData` | crates/oxisql-embedded/src/fjall_storage.rs:276-283 | Returns the bytes under the row key, or nothing. |
| `FjallStorage.FjallGlueStorage.ScanData` | crates/oxisql-embedded/src/fjall_storage.rs:285-304 | The rows under the keys with the prefix, those that do not decode passed over. |
| `FjallStorage.FjallGlueStorage.SyncCounterFor` | crates/oxisql-embedded/src/fjall_storage.rs:222-248 | The counter becomes the larger of the one in memory, zero if absent, and the largest stored id. |
| `FjallStorage.FjallGlueStorage.MaxStoredId` | crates/oxisql-embedded/src/fjall_storage.rs:224-241 | The loop over the table's keys finds the largest 64-bit id among them. |
| `FjallStorage.FjallGlueStorage.NextId` | crates/oxisql-embedded/src/fjall_storage.rs:213-218 | Counts up, wrapping, and returns the new count. |
| `FjallStorage.FjallGlueStorage.AppendData` | crates/oxisql-embedded/src/fjall_storage.rs:349-371 | Rebuilds the counter if it is not in memory and stores the rows under consecutive ids. |
| `FjallStorage.FjallGlueStorage.DeleteSchema` | crates/oxisql-embedded/src/fjall_storage.rs:317-347 | Removes the schema, every key with the prefix, and the counter in memory. |
| `FjallStorage.StoredIdOfRow` | crates/oxisql-embedded/src/fjall_storage.rs:425-483 | The id of a stored row key reads back. |
| `FjallRefinement.StoredIdIff` | crates/oxisql-embedded/src/fjall_storage.rs:229-238 | A stored key carries an id exactly if it is the row key of that id. |
| `FjallRefinement.CounterIsStart` | crates/oxisql-embedded/src/fjall_storage.rs:222-248 | An append starts from the counter in memory, and after a reopen from exactly the largest id of the table, or zero. |
| `FjallRefinement.SyncedIs` | crates/oxisql-embedded/src/fjall_storage.rs:222-248 | Rebuilding a counter raises it, zero if absent, to the largest id of the table if that is above it. |
| `FjallRefinement.HoldsDropped` | crates/oxisql-embedded/src/fjall_storage.rs:317-347 | A drop removes the rows of its table from the representation and keeps those of every other. |
| `FjallRefinement.DropMeans` | crates/oxisql-embedded/src/fjall_storage.rs:317-347 | After a drop no row, schema or counter of the table is left, and every row, schema and counter of another is as before. |
| `FjallRefinement.StepRefines` | crates/oxisql-embedded/src/fjall_storage.rs:309-392 | Every operation on the byte map, a reopen included, does to the represented tables what the abstract operation does. |
| `FjallRefinement.RunRefines` | crates/oxisql-embedded/src/fjall_storage.rs:309-392 | So does every run on NUL-free names. |
| `FjallRefinement.ScanLists` | crates/oxisql-embedded/src/fjall_storage.rs:285-304 | A scan lists exactly the rows of its table, in key order. |
| `FjallRefinement.FetchFinds` | crates/oxisql-embedded/src/fjall_storage.rs:276-283 | A fetch returns the represented row, or nothing if there is none. |
| `FjallRefinement.EveryRunReads` | crates/oxisql-embedded/src/fjall_storage.rs:255-392 | After every run from an empty store, schemas, scans, fetches and the start of an append are those of the abstract tables. |
| `FjallStorage.CounterCoversIds` | crates/oxisql-embedded/src/fjall_storage.rs:222-248 | In memory or rebuilt, the counter is at or above every live id. |
| `FjallStorage.InsertKeepsIdsIff` | crates/oxisql-embedded/src/fjall_storage.rs:373-382 | A keyed insert keeps live ids at or below the counters in memory exactly when it brings in no id above its table's counter. |
| `FjallStorage.StepKeepsIds` | crates/oxisql-embedded/src/fjall_storage.rs:317-392 | Every disciplined operation, a reopen included, keeps live ids at or below the counters in memory. |
| `FjallStorage.RunKeepsIds` | crates/oxisql-embedded/src/fjall_storage.rs:317-392 | So does every run. |
| `FjallStorage.EveryAppendIsFresh` | crates/oxisql-embedded/src/fjall_storage.rs:349-371 | From any stored data and after every such run, an append assigns ids above all live ones, stores its rows there and keeps every earlier entry. |
| `FjallStorage.AppendSafeIff` | crates/oxisql-embedded/src/fjall_storage.rs:349-371 | In any state, with the counter in memory or rebuilt, an append overwrites nothing exactly when no live id is among those it assigns. |
| `FjallStorage.OverwritingAppendExample` | crates/oxisql-embedded/src/fjall_storage.rs:349-382 | With the counter in memory, a row inserted above it is overwritten by the next append. |
| `Like.LikeMatchIff` | crates/oxisql-datafusion/src/provider.rs:370-390 | A text matches exactly when it splits into one piece for each pattern symbol: any piece for a percent sign, one character for an underscore, itself for any other. |
| `SqlValues.PartialCmpAgrees` | crates/oxisql-core/src/value.rs:217-240 | The computed order of two non-null values is the order they stand in. |
| `FilterSoundness.CompareAgrees` | crates/oxisql-datafusion/src/provider.rs:558-588 | A comparison the evaluator makes of a value and a literal is the true one. |
| `FilterSoundness.ComparisonIsRight` | crates/oxisql-datafusion/src/provider.rs:414-457 | A comparison in either order never answers false where SQL says TRUE, nor, where decided, true where SQL says FALSE. |
| `FilterSoundness.UnknownIsKept` | crates/oxisql-datafusion/src/provider.rs:414-457 | A row on which an operand of a comparison is NULL or unknown is kept, except that NULL against a NULL literal counts as equal. |
| `FilterSoundness.InListIsRight` | crates/oxisql-datafusion/src/provider.rs:480-497 | The same of IN and NOT IN against a disjunction of equalities. |
| `FilterSoundness.BetweenIsRight` | crates/oxisql-datafusion/src/provider.rs:499-527 | The same of BETWEEN and NOT BETWEEN against two comparisons. |
| `FilterSoundness.LikeIsRight` | crates/oxisql-datafusion/src/provider.rs:529-549 | The same of LIKE, ILIKE and their negations against the existence of a split, of the lower-cased texts for ILIKE. |
| `FilterSoundness.UntoldIsKept` | crates/oxisql-datafusion/src/provider.rs:480-549 | A row on which the operands of IN, BETWEEN or LIKE cannot be told is kept. |
| `FilterSoundness.EvaluatorIsRight` | crates/oxisql-datafusion/src/provider.rs:398-552 | For every filter and row covered in a direction, the evaluator does not err in it, against three-valued logic with any meaning, row by row, of what it does not cover; NOT swaps the directions. |
| `FilterSoundness.ScanRows` | crates/oxisql-datafusion/src/provider.rs:663-677 | The row loop keeps, in order, the rows on which every filter answers true. |
| `FilterSoundness.PushdownPreserves` | crates/oxisql-datafusion/src/provider.rs:663-704 | Filtering in the scan and again by SQL gives the rows of SQL alone, in the same order. |
| `FilterSoundness.NegatedColumnPairDropsAll` | crates/oxisql-datafusion/src/provider.rs:274-303 | A negated comparison of two columns is offered for pushdown and keeps no row, so the result stands exactly when SQL selects none. |
| `FilterSoundness.NegatedColumnPairExample` | crates/oxisql-datafusion/src/provider.rs:274-303 | A one-row table on which it loses the row. |
| `FilterTypes.SupportedIsRight` | crates/oxisql-datafusion/src/provider.rs:398-588 | For filters over AND, OR, NOT, column and literal comparisons, IS NULL, non-empty IN, BETWEEN, LIKE and ILIKE with matching column types, on full-width rows: never drops TRUE, never keeps FALSE. |
| `FilterTypes.SupportedPushdownPreserves` | crates/oxisql-datafusion/src/provider.rs:663-704 | Pushing such filters down preserves the result and its order. |
| `FilterShapes.PositionIsFirst` | crates/oxisql-datafusion/src/provider.rs:398-412 | A column name means the first column so named, and nothing if there is none. |
| `FilterLeaves.ComparisonIff` | crates/oxisql-datafusion/src/provider.rs:414-457 | A comparison never loses a TRUE row. It never keeps a FALSE one, on all rows fitting the column types and in all meanings, exactly if a side is always NULL, or it is a column against a literal of its type, or an integer column against a float, or a column against itself under a reflexive operator, or two literals of which it holds. |
| `FilterLeaves.NullTestIff` | crates/oxisql-datafusion/src/provider.rs:458-477 | IS NULL and IS NOT NULL never keep a FALSE row exactly for a known column, or an operand whose answer is fixed. |
| `FilterLists.InKeepsIff` | crates/oxisql-datafusion/src/provider.rs:480-497 | IN loses a TRUE row exactly if the operand can have a value that is not found anyway and an item is unknown or of another type, or is an equal number of the other numeric type. |
| `FilterLists.InRejectsIff` | crates/oxisql-datafusion/src/provider.rs:480-497 | IN keeps a FALSE row exactly if the list is empty and the operand no literal with a value, or if the operand is unknown and no item is always NULL. |
| `FilterLists.NotInRejectsIff` | crates/oxisql-datafusion/src/provider.rs:480-497 | NOT IN keeps a FALSE row exactly where IN loses a TRUE one, or if the operand is unknown and some item is not always NULL. |
| `FilterRanges.NotBetweenKeepsIff` | crates/oxisql-datafusion/src/provider.rs:499-527 | NOT BETWEEN loses a TRUE row exactly if the operand and a bound differ in type and, by types and constants, a value can lie outside that bound and not outside the other. |
| `FilterRanges.BetweenRejectsIff` | crates/oxisql-datafusion/src/provider.rs:499-527 | BETWEEN keeps a FALSE row exactly in that case, or if the operand or a bound is unknown and the whole is not always NULL. |
| `FilterRanges.NotBetweenRejectsIff` | crates/oxisql-datafusion/src/provider.rs:499-527 | NOT BETWEEN keeps a FALSE row exactly if the operand or a bound is unknown and both bounds can be met. |
| `FilterPatterns.LikeIff` | crates/oxisql-datafusion/src/provider.rs:529-549 | In each direction, LIKE and ILIKE, plain and negated, are right exactly if both sides are text and, with an escape character, the match cannot give the answer in question; or, not both text, nothing can be lost or one side is always NULL. |
| `FilterExact.OfferedIff` | crates/oxisql-datafusion/src/provider.rs:274-303 | A filter is offered exactly if each leaf under its ANDs, ORs and NOTs is a comparison, NULL test, IN, BETWEEN or LIKE over columns and literals. |
| `FilterExact.LeafIff` | crates/oxisql-datafusion/src/provider.rs:274-303 | For every offered leaf and in each direction: it is answered rightly on all rows that fit the column types, in all meanings, exactly if the condition on the filter and the types holds. |
| `FilterExact.LeafPushableIff` | crates/oxisql-datafusion/src/provider.rs:663-704 | Pushing an offered leaf down changes no query on tables of these types exactly if that condition holds. |
| `FilterExact.NegatedLeafPushableIff` | crates/oxisql-datafusion/src/provider.rs:663-704 | Pushing down a negated leaf, which is always offered, changes no query exactly if the condition holds in the other direction. |
| `FilterExact.SafeFilterIsRight` | crates/oxisql-datafusion/src/provider.rs:398-552 | Filters of any depth over AND, OR and NOT are right if their leaves are, each in the direction its NOTs leave it in. |
| `FilterExact.SafePushdownPreserves` | crates/oxisql-datafusion/src/provider.rs:663-704 | Pushing such filters down preserves every result and its order. |
| `FilterExact.SafePartitionedQuery` | crates/oxisql-datafusion/src/provider.rs:639-681 | It preserves the rows selected over any partitions that keep the rows. |
| `FilterExact.FloatInExample` | crates/oxisql-datafusion/src/provider.rs:480-497 | `a IN (1.0)` over an integer column loses the row with 1. |
| `FilterExact.FloatBoundExample` | crates/oxisql-datafusion/src/provider.rs:499-527 | `a NOT BETWEEN 2.5 AND 3` over an integer column loses the row with 1. |
| `FilterExact.UnknownLiteralExample` | crates/oxisql-datafusion/src/provider.rs:558-588 | The negation of an equality with a literal the evaluator does not know loses a row. |
| `Partition.WithHashPartition` | crates/oxisql-datafusion/src/provider.rs:235-261 | Fails exactly for zero buckets or an unknown column; else each of the `n` buckets is the rows with its number, in order. |
| `Partition.Scan` | crates/oxisql-datafusion/src/provider.rs:639-681 | One batch of kept rows for each partition, or for the whole snapshot if there are none. |
| `PartitionTheorems.LeqTransitive` | crates/oxisql-datafusion/src/provider.rs:158-167 | On comparable keys the sort's comparison is transitive, and so is sameness of keys. |
| `PartitionTheorems.UncomparedIsAlike` | crates/oxisql-datafusion/src/provider.rs:158-167 | Keys of types that are not compared count as equal. |
| `PartitionTheorems.StableSortIsUnique` | crates/oxisql-datafusion/src/provider.rs:157-167 | Comparable rows have one stable sorted arrangement, so the sorting algorithm does not matter. |
| `PartitionTheorems.RangePartitionIsRight` | crates/oxisql-datafusion/src/provider.rs:146-180 | Range partitioning keeps every row, keeps the order of equal keys, concatenates to the sorted rows, puts every key at or below those of later partitions, and yields at most `n` partitions, all but the last of exactly the rounded-up share; with no partitions asked or no such column nothing changes. |
| `PartitionTheorems.RangePartitionCountIff` | crates/oxisql-datafusion/src/provider.rs:169-175 | There are exactly `n` partitions exactly when `n - 1` full ones leave a row over. |
| `PartitionTheorems.FewerPartitionsExample` | crates/oxisql-datafusion/src/provider.rs:169-175 | Four rows in three partitions give two. |
| `PartitionTheorems.AutoPartitionFailsIff` | crates/oxisql-datafusion/src/provider.rs:207-212 | Fails exactly on a zero batch size with rows and more than one thread. |
| `PartitionTheorems.AutoPartitionIsRight` | crates/oxisql-datafusion/src/provider.rs:207-218 | Changes nothing for one batch of rows, one thread or no columns; else is a range partition by the first column into the documented number of partitions. |
| `PartitionTheorems.AutoPartitionFillsBatches` | crates/oxisql-datafusion/src/provider.rs:207-218 | Then there are at most `n_parallel` partitions, all but the last with at least the target number of rows. |
| `PartitionTheorems.HashPartitionIsRight` | crates/oxisql-datafusion/src/provider.rs:251-259 | The buckets hold every row once, each row in the bucket of its key, so the same key means the same bucket; a missing key counts as NULL. |
| `PartitionTheorems.EqualKeysShareIff` | crates/oxisql-datafusion/src/provider.rs:594-625 | Rows with equal keys share a bucket, for every hash function and number of buckets, exactly when the column does not hold both float zeros. |
| `PartitionTheorems.BothZerosExample` | crates/oxisql-datafusion/src/provider.rs:594-625 | Two rows with equal keys that some hash function puts into different buckets. |
| `PartitionTheorems.PartitionedQueryIsRight` | crates/oxisql-datafusion/src/provider.rs:639-681 | Scanning any partitions that keep the rows, with filters pushed down, and filtering again selects the rows SQL selects from the table. |
| `PartitionTheorems.ScannedQueryIsRight` | crates/oxisql-datafusion/src/provider.rs:639-681 | The batches of a scan, filtered again, select from the provider's rows what SQL selects, with or without partitions. |
| `MultiDb.RetagSchemaDbIndex` | crates/oxisqlite-core/multidb.rs:101-128 | The loop over the tables tags each B-tree table and leaves the others. |
| `AsciiCase.LowerIff` | crates/oxisqlite-core/util/mod.rs:30-43 | Two strings have the same lower case exactly if they are the same but for the case of letters, by a table of the letters. |
| `AsciiCase.LowerIsLower` | crates/oxisql-embedded/src/fts.rs:149-154 | The lower case is the same string but for case and has no capital letter. |
| `RegistryLaws.NormalizeMeans` | crates/oxisqlite-core/util/mod.rs:30-43 | One pair of double quotes, brackets or backticks comes off a name, and the rest is taken in lower case; a lone quote has no meaning. |
| `RegistryLaws.LookupMeans` | crates/oxisqlite-core/multidb.rs:215-236 | A name in any case and at most one pair of quotes is main, or temp under its two names, or else the first attached database so called. |
| `RegistryLaws.LookupIgnoresCase` | crates/oxisqlite-core/multidb.rs:215-236 | Names that differ only in case look up the same database. |
| `Registry.Connection.IndexByName` | crates/oxisqlite-core/multidb.rs:215-236 | The slot of a name: main, temp under both names, else the first attached database so named. |
| `Registry.Connection.EnsureTempDb` | crates/oxisqlite-core/multidb.rs:255-281 | Opens temp in slot 1 once; a failure changes nothing. |
| `Registry.Connection.AttachDb` | crates/oxisqlite-core/multidb.rs:292-348 | The checks in order, then the first free slot from 2 on. |
| `Registry.Connection.DetachDb` | crates/oxisqlite-core/multidb.rs:357-388 | The checks in order; the slot is emptied before the lock check. |
| `RegistryTheorems.EnsureTempKeeps` | crates/oxisqlite-core/multidb.rs:255-281 | Ensuring temp keeps the registry well formed and names distinct, and succeeds exactly if temp is live after. |
| `RegistryLaws.EnsureTempIs` | crates/oxisqlite-core/multidb.rs:255-281 | A live temp is left alone with everything else. Otherwise, if the file opens, slot 1 holds exactly the opened tables by name, kind and id, without transaction or lock, and every other slot is as before; if not, nothing changes. |
| `RegistryTheorems.AttachSucceedsIff` | crates/oxisqlite-core/multidb.rs:292-348 | An attach succeeds exactly outside a transaction, if the file opens, the alias names neither main nor temp once stripped, does not strip to nothing, is neither reserved nor taken as looked up, and one of ten slots is free; a failed attach leaves every database in place. |
| `RegistryTheorems.AttachPanicsIff` | crates/oxisqlite-core/util/mod.rs:30-43 | An attach panics exactly on a lone quote, plain or within quotes. |
| `RegistryTheorems.AttachFillsOneSlot` | crates/oxisqlite-core/multidb.rs:292-348 | A successful attach fills the lowest empty slot from 2 on with tagged tables under the normalized alias, and changes no other slot. |
| `RegistryLaws.AttachIs` | crates/oxisqlite-core/multidb.rs:292-348 | The new database holds exactly the opened tables by name, kind and id, without transaction or lock; every other slot is as before. |
| `RegistryLaws.AttachRefusals` | crates/oxisqlite-core/multidb.rs:292-348 | Why an attach is refused: in use, in a transaction, too many, or the file does not open, in that order. |
| `RegistryTheorems.AttachKeepsForm` | crates/oxisqlite-core/multidb.rs:292-348 | Attach keeps the registry well formed: slot 0 empty, slot 1 empty or temp, attached ones with lower-case unreserved names from 2 on, at most 12 slots. |
| `RegistryTheorems.AttachKeepsDistinctIff` | crates/oxisqlite-core/multidb.rs:292-305 | An alias keeps names distinct in every registry exactly when it is not quoted in two layers. |
| `RegistryTheorems.DoublyQuotedExample` | crates/oxisqlite-core/util/mod.rs:30-43 | Such an alias. |
| `RegistryTheorems.DetachKeeps` | crates/oxisqlite-core/multidb.rs:357-388 | Detach keeps the registry well formed and names distinct. |
| `RegistryLaws.DetachIs` | crates/oxisqlite-core/multidb.rs:357-388 | A detach empties exactly the slot the alias is looked up as, also when it then reports a lock; any other refusal changes nothing. |
| `RegistryLaws.DetachRefusals` | crates/oxisqlite-core/multidb.rs:357-388 | Why a detach is refused: main or temp, no such database, or in a transaction, in that order. |
| `RegistryTheorems.NameIndexInverseIff` | crates/oxisqlite-core/multidb.rs:215-251 | The name of an attached slot leads back to the slot exactly when normalizing leaves it unchanged. |
| `RegistryTheorems.DetachAllOrNothingIff` | crates/oxisqlite-core/multidb.rs:357-388 | A detach succeeds or is refused without effect exactly unless it panics or, in autocommit mode, the alias names a database with an open transaction. |
| `RegistryTheorems.LockedDetachExample` | crates/oxisqlite-core/multidb.rs:376-388 | A detach of a database with an open transaction answers that it is locked, and the database is gone. |
| `RegistryTheorems.DetachPanicsIff` | crates/oxisqlite-core/multidb.rs:357-388 | A detach panics exactly on a lone quote, plain or within quotes, or, in autocommit mode, on an alias that passes the reserved-name check and is looked up as main or temp while the slot vector is too short for it. |
| `RegistryTheorems.FreshDetachExample` | crates/oxisqlite-core/multidb.rs:369-376 | `DETACH sqlite_temp` on a fresh connection panics. |
| `RegistryTheorems.DetachDropsTempIff` | crates/oxisqlite-core/multidb.rs:357-382 | Which aliases detach temp: its second name, or either name under a second layer of quotes. |
| `RegistryTheorems.DetachTempExample` | crates/oxisqlite-core/multidb.rs:357-388 | `DETACH sqlite_temp` succeeds and drops a live temp. |
| `RegistryTheorems.AtMostTenAttached` | crates/oxisqlite-core/multidb.rs:311-322 | A well-formed registry has at most ten attached databases. |
| `RegistryTheorems.RunKeeps` | crates/oxisqlite-core/multidb.rs:215-388 | Every run of ensure-temp, attach and detach keeps the form, and distinct names if no alias is doubly quoted. |
| `AttachOrder.StepTracks` | crates/oxisqlite-core/multidb.rs:292-388 | Every operation keeps the recorded attach order a list of exactly the live attached slots, each once. |
| `AttachOrder.AttachInOrderIff` | crates/oxisqlite-core/multidb.rs:326-347 | A successful attach keeps slot order equal to attach order exactly when no free slot lies below a live one. |
| `AttachOrder.AttachOrderIff` | crates/oxisqlite-core/multidb.rs:292-388 | Over every run, slot order is attach order throughout exactly when no successful attach finds such a hole. |
| `AttachOrder.OldestIsFound` | crates/oxisqlite-core/multidb.rs:571-597 | After every run of a new connection whose attaches find no hole, in any hash order, an unqualified name of neither main nor temp means in the merged catalog the table of the database attached first among those that have it, and nothing if none has. |
| `AttachOrder.YoungerFirstExample` | crates/oxisqlite-core/multidb.rs:571-597 | Attach a, attach b, detach a, attach c: a table of both b and c is found in c, the younger. |
| `AuxTxn.AuxTransactions.BeginAuxTxn` | crates/oxisqlite-core/multidb.rs:398-424 | Takes a read and then a write transaction as far as the log grants them, recording each as it is granted. |
| `AuxTxn.AuxTransactions.RollbackAuxTxns` | crates/oxisqlite-core/multidb.rs:506-514 | Rolls back every open database and records no transaction. |
| `AuxTxn.AuxTransactions.NextAuxDbWithTxn` | crates/oxisqlite-core/multidb.rs:451-458 | The first open database at or after a slot, never main. |
| `AuxTxn.AuxTransactions.StepEndAuxTxn` | crates/oxisqlite-core/multidb.rs:465-488 | Ends the transaction of a slot, whatever the slot holds; reports I/O, or the error, and changes nothing while the flush is not done or if it fails. |
| `AuxTxn.OpenFromIsExact` | crates/oxisqlite-core/multidb.rs:451-458 | The list of open databases has each once, in slot order. |
| `AuxTxn.AuxTransactions.CommitAuxDbs` | crates/oxisqlite-core/vdbe/mod.rs:443-455 | One call of the walk needs I/O, with less of it left, or stops at a database whose flush fails, or finishes, and then no flush failed. |
| `AuxTxn.AuxTransactions.RunCommit` | crates/oxisqlite-core/vdbe/mod.rs:443-455 | Called again after each I/O, the walk ends. It is done exactly if no open write has a failing flush: every auxiliary transaction released, each once, in slot order, every other slot as before. Else it stops at the first such slot, those before released, it and those after as they were. |
| `AuxTxn.ReleasedMeansClosed` | crates/oxisqlite-core/multidb.rs:449-488 | After it no auxiliary transaction is open, and slots without one are unchanged. |
| `AuxTxn.CommitReleasesLocks` | crates/oxisqlite-core/multidb.rs:465-488 | After it no pager of a truthful registry holds a lock. |
| `AuxTxn.BeginIsTruthful` | crates/oxisqlite-core/multidb.rs:398-424 | Whatever the log answers, begin keeps the record equal to the locks held, takes no second read lock, never lowers the state, proceeds exactly if the wanted state is reached, and a busy upgrade leaves a true Read. |
| `AuxTxn.BeginAnswers` | crates/oxisqlite-core/multidb.rs:398-424 | Which locks a begin asks for, that a busy one yields and a broken one is an error, and the state it leaves. |
| `AuxTxn.BeginTouchesOne` | crates/oxisqlite-core/multidb.rs:398-424 | A begin changes no other slot; main always proceeds, and a missing database is an error. |
| `AuxTxn.StepEndTouchesOne` | crates/oxisqlite-core/multidb.rs:465-488 | Ending changes no other slot; an empty one is done, and only an open write depends on the flush. |
| `AuxTxn.StepEndIsTruthful` | crates/oxisqlite-core/multidb.rs:465-488 | So does ending; it is done exactly if nothing is open after. |
| `AuxTxn.RollbackIsTruthfulIff` | crates/oxisqlite-core/multidb.rs:506-514 | A rollback keeps the record true exactly when nothing was open. |
| `AuxTxn.RunIsTruthfulIff` | crates/oxisqlite-core/multidb.rs:398-514 | Over every run with any answers, the record ends true exactly when no rollback met an open transaction. |
| `AuxTxn.RollbackSticks` | crates/oxisqlite-core/storage/pager/pager_caching_2.rs:279-303 | After a rollback the write lock is held unknown to the registry exactly where a write was open. |
| `AuxTxn.StuckForever` | crates/oxisqlite-core/storage/wal.rs:547-632 | A database in that state never grants a write again, however the run goes on. |
| `AuxTxn.RollbackBlocksWrites` | crates/oxisqlite-core/multidb.rs:506-514 | So no run after rolling back an open write lets a write through. |
| `AuxTxn.RolledBackWriteExample` | crates/oxisqlite-core/multidb.rs:398-514 | From a fresh slot, a granted write and a rollback leave a record that is not true and a database that grants no write. |
| `CatalogOverlay.OverlaySchema` | crates/oxisqlite-core/multidb.rs:625-655 | The loop over a catalog's tables, in any order given, merges them one by one. |
| `CatalogOverlay.ResolvedSchema` | crates/oxisqlite-core/multidb.rs:571-597 | The merge of main, the attached slots in order, and temp last; nothing without auxiliary databases. |
| `CatalogOverlay.QualifiedInjective` | crates/oxisqlite-core/multidb.rs:628-634 | Qualified keys of undotted names are distinct from unqualified ones and from each other. |
| `CatalogOverlay.UnqualifiedResolves` | crates/oxisqlite-core/multidb.rs:571-597 | In any hash order an undotted name means temp's table, else main's, else that of the lowest attached slot; `sqlite_schema` stays main's. |
| `CatalogOverlay.QualifiedResolves` | crates/oxisqlite-core/multidb.rs:627-634 | In any hash order `db.name` means that database's own table. |
| `CatalogOverlay.SchemaTablesMean` | crates/oxisqlite-core/multidb.rs:635-650 | `sqlite_schema` is main's, and `sqlite_temp_schema` is temp's. |
| `CatalogOverlay.ResolvedIsTagged` | crates/oxisqlite-core/multidb.rs:101-138 | B-tree tables reached in the merged catalog by an unqualified or a qualified name carry the tag of the slot the name resolves to. |
| `CatalogOverlay.FirstWithIsLowest` | crates/oxisqlite-core/multidb.rs:586-590 | The attached slot chosen is the lowest that has the table. |
| `CatalogOverlay.MainAloneIsTheSame` | crates/oxisqlite-core/multidb.rs:552-569 | Without auxiliary databases the merged view gives the answers of main alone. |
| `CatalogOverlay.AliasIsOrderFreeIff` | crates/oxisqlite-core/multidb.rs:625-655 | What temp's schema alias means is independent of hash order exactly when temp has no table of that name. |
| `NamedParams.AdvanceIdentifier` | crates/oxisql-core/src/params.rs:268-277 | The end of the identifier at a position. |
| `NamedParams.AdvanceDigits` | crates/oxisql-core/src/params.rs:282-288 | The end of the digits at a position. |
| `NamedParams.AssignIndex` | crates/oxisql-core/src/params.rs:293-301 | The 1-based position of a name, appended if new. |
| `NamedParams.RewriteNamedParams` | crates/oxisql-core/src/params.rs:46-217 | The one-pass loop over characters and scan states computes the piecewise rewriting. |
| `NamedParamsTheorems.PiecesCoverInput` | crates/oxisql-core/src/params.rs:46-217 | Verbatim pieces and placeholders together are the statement. |
| `NamedParamsTheorems.OutputReplacesPlaceholders` | crates/oxisql-core/src/params.rs:46-217 | The output is the statement with each placeholder replaced by the final 1-based position of its name and everything else copied. |
| `NamedParamsTheorems.NamesInOrderOfAppearance` | crates/oxisql-core/src/params.rs:293-301 | Names are distinct, are exactly those mentioned, and stand in order of first appearance. |
| `NamedParamsTheorems.RewriteIsIdempotent` | crates/oxisql-core/src/params.rs:46-217 | A second rewrite changes nothing and finds no names. |
| `NamedParamsTheorems.VerbatimStable` | crates/oxisql-core/src/params.rs:58-213 | A quoted, commented or plain piece is scanned alike in the output. |
| `NamedParamsRegions.WalkPiece` | crates/oxisql-core/src/params.rs:46-217 | Where a piece starts, a fold over the characters before it sees a placeholder exactly if the piece is one, and none up to the next piece. |
| `NamedParamsRegions.RewriteIsReplacement` | crates/oxisql-core/src/params.rs:46-217 | On every statement the output is the statement with exactly those names replaced that stand after a sigil outside literals, quoted identifiers, comments and casts, by a fold over the characters; the names are those, in order of first appearance. |
| `NamedParamsRegions.NameTable` | crates/oxisql-core/src/params.rs:252-266 | The characters of names, one by one. |
| `NamedParamsBytes.RewriteOfBytes` | crates/oxisql-core/src/params.rs:46-217 | Rewriting the UTF-8 bytes of a statement taken as characters gives the bytes of its rewriting, and the same names. |
| `NamedParamsBytes.RewriteSurvivesIff` | crates/oxisql-core/src/params.rs:46-217 | So the output is the rewriting of the text exactly when the statement is ASCII; the names always are. |
| `NamedParamsBytes.AccentExample` | crates/oxisql-core/src/params.rs:55-61 | A literal with an accented letter is changed. |
| `SqlBinding.BindParamsString` | crates/oxisql-embedded/src/params.rs:255-298 | The loop over the statement computes the substitution of `$N`, with the literals of null, booleans, integers and text and given literals of other values. |
| `BinderLaws.PlainIsCopied` | crates/oxisql-embedded/src/params.rs:255-298 | Text without a dollar is copied. |
| `BinderLaws.PairsAreHalved` | crates/oxisql-embedded/src/params.rs:255-298 | Of a run of dollars each pair gives one. |
| `BinderLaws.OddRunRefers` | crates/oxisql-embedded/src/params.rs:255-298 | A dollar left over before digits gives the literal of the parameter of that number, and the statement is refused if there is none. |
| `BinderLaws.OddRunIsCopied` | crates/oxisql-embedded/src/params.rs:255-298 | Before anything else, or at the end, it is copied. |
| `LiteralReader.LiteralReadsBack` | crates/oxisql-embedded/src/params.rs:66-86 | A reader of literals gives back every null, boolean, integer and text from what is written for it. |
| `LiteralReader.LiteralsDiffer` | crates/oxisql-embedded/src/params.rs:66-86 | No two of them are written alike. |
| `SqlBinding.FindParam` | crates/oxisql-core/src/params.rs:242-245 | Finds the first value of a name, or fails. |
| `BinderLaws.LookupIsFirst` | crates/oxisql-core/src/params.rs:242-245 | A name stands for the first value given for it. |
| `SqlBinding.BindNamedParams` | crates/oxisql-core/src/params.rs:236-248 | Succeeds exactly if every name is bound, with the values in the order of the names. |
| `ParamPipeline.RewriteAndBind` | crates/oxisql-core/src/params.rs:236-248 | The three steps in sequence fail if a placeholder is unbound, and for inert text give direct substitution. |
| `ParamPipeline.NoDollarIsInert` | crates/oxisql-embedded/src/params.rs:255-298 | A statement without a dollar is inert. |
| `ParamPipeline.PipelineSubstitutes` | crates/oxisql-embedded/src/params.rs:255-298 | For inert statements the pipeline never fails and is direct substitution: indices are read whole and inserted text is not scanned again. |
| `ParamPipeline.PipelineSubstitutesIff` | crates/oxisql-embedded/src/params.rs:255-298 | It is direct substitution for all bindings exactly when every copied `$` is followed by neither a dollar, a digit nor a placeholder. |
| `ParamPipeline.LiteralIsOnePiece` | crates/oxisql-embedded/src/params.rs:86 | An escaped text is one literal to the scanner, whatever it holds. |
| `Csv.ParseCsv` | crates/oxisql-embedded/src/csv.rs:62-217 | The four-state loop computes the rows, or the error of a quote left open at the end. |
| `CsvReference.ParseIsRows` | crates/oxisql-embedded/src/csv.rs:62-217 | On every text, well formed or not, the parser gives the rows that cutting the text into fields and then taking off quotes gives. |
| `CsvReference.ParseFailsIff` | crates/oxisql-embedded/src/csv.rs:190-217 | Parsing fails exactly if the text ends inside a quoted field, by a fold over the characters. |
| `CsvReference.LastBreakIsOptionalIff` | crates/oxisql-embedded/src/csv.rs:200-213 | Leaving off the last line break of written rows loses no row, exactly unless the last is one empty field. |
| `Csv.BuildCsvOutput` | crates/oxisql-embedded/src/csv.rs:354-373 | The loop writes the header and every row, each ended by CRLF. |
| `Csv.QuotedIff` | crates/oxisql-embedded/src/csv.rs:336-349 | A field is put in quotes exactly if it has a comma, quote or line break, or a space at an edge. |
| `Csv.FieldReads` | crates/oxisql-embedded/src/csv.rs:336-349 | A written field, whatever it holds, is read back whole up to its delimiter. |
| `Csv.LineReads` | crates/oxisql-embedded/src/csv.rs:336-373 | A written line is read back as its fields. |
| `Csv.ParseOfBuild` | crates/oxisql-embedded/src/csv.rs:62-217 | Parsing written rows, with CRLF or LF, succeeds and gives them back, a row of no fields as one empty field. |
| `Csv.RoundTripIff` | crates/oxisql-embedded/src/csv.rs:354-373 | Writing and reading is the identity exactly when the header and every row have a field. |
| `Csv.EdgesAreQuoted` | crates/oxisql-embedded/src/csv.rs:336-349 | A written field is empty exactly if the field is, and never starts or ends with a space. |
| `Csv.TrimmingReaderIff` | crates/oxisql-embedded/src/csv.rs:331-349 | A reader that trims white space off unquoted fields gets the field back exactly when it was quoted or has no white space at an edge. |
| `Csv.TabExample` | crates/oxisql-embedded/src/csv.rs:331-349 | A leading tab is not quoted, so such a reader drops it. |
| `Csv.WritingIsInjective` | crates/oxisql-embedded/src/csv.rs:354-373 | Tables written alike read back alike, so no two tables of rows with fields are written alike. |
| `Tokenizer.TokensAreRuns` | crates/oxisql-embedded/src/fts.rs:149-154 | The tokens of a text are its maximal runs without white space or ASCII punctuation, lower-cased. |
| `Tokenizer.TokensInOrder` | crates/oxisql-embedded/src/fts.rs:149-154 | The list of tokens is the lower-cased texts of exactly those runs, each once, from left to right. |
| `FtsLaws.SeparatorTable` | crates/oxisql-embedded/src/fts.rs:149-154 | The separators, one by one. |
| `FullText.FtsIndex.constructor` | crates/oxisql-embedded/src/fts.rs:44-46 | A new index is empty. |
| `FullText.FtsIndex.RegisterTable` | crates/oxisql-embedded/src/fts.rs:53-57 | Clears the table's postings and sets its columns. |
| `FullText.FtsIndex.IndexRow` | crates/oxisql-embedded/src/fts.rs:65-73 | The loops post the row under every token of every text. |
| `FullText.FtsIndex.DeleteRow` | crates/oxisql-embedded/src/fts.rs:84-91 | The loop takes the row out of every posting set of the table. |
| `FullText.FtsIndex.Search` | crates/oxisql-embedded/src/fts.rs:98-130 | A strictly ascending list of exactly the hits: rows under every term, or under any token for no terms. |
| `FullText.AscendingIsUnique` | crates/oxisql-embedded/src/fts.rs:127-129 | A strictly ascending list is determined by its members, so the result of a search is. |
| `FullTextTheorems.StepReflects` | crates/oxisql-embedded/src/fts.rs:53-91 | Every operation keeps the postings equal to the tokens of the recorded texts. |
| `FullTextTheorems.RunReflects` | crates/oxisql-embedded/src/fts.rs:53-91 | So does every run. |
| `FullTextTheorems.SearchAgreesWithScan` | crates/oxisql-embedded/src/fts.rs:98-130 | After every run a row is a hit exactly if its texts, indexed since registration or its last deletion, together have every term. |
| `FullTextHistory.RecordedAreStanding` | crates/oxisql-embedded/src/fts.rs:53-91 | The recorded texts are those of the index operations that no later registration of the table or deletion of the row voids. |
| `FullTextHistory.SearchFinds` | crates/oxisql-embedded/src/fts.rs:98-130 | After every run a search finds a row exactly if, for each word of the query in any case, such an operation on the table in any case has a text with the word; for no words, if one has any word. |
| `FtsLiterals.FindClosingParen` | crates/oxisql-embedded/src/fts.rs:336-362 | The loop computes the first unquoted parenthesis at depth zero. |
| `FtsLaws.FindIff` | crates/oxisql-embedded/src/fts.rs:336-362 | The finder stops at the first parenthesis outside literals before which as many were closed as opened. |
| `FtsLiterals.SplitValues` | crates/oxisql-embedded/src/fts.rs:367-395 | The loop computes the trimmed fields between unquoted commas. |
| `FtsLaws.FieldsAre` | crates/oxisql-embedded/src/fts.rs:367-395 | The fields are the trimmed texts between consecutive commas outside literals, a blank last one left out. |
| `FtsLaws.TrimIs` | crates/oxisql-embedded/src/fts.rs:383-393 | Trimming takes off the white space at both ends and no more. |
| `FtsLiterals.StripUndoesEscape` | crates/oxisql-embedded/src/fts.rs:400-407 | Stripping an escaped literal gives back the text, whatever it holds. |
| `FtsLiterals.BodyFromInside` | crates/oxisql-embedded/src/fts.rs:341-344 | The scan leaves a literal at its closing quote exactly for texts without a backslash before a quote or at the end. |
| `FtsLiterals.FindStopsOutside` | crates/oxisql-embedded/src/fts.rs:336-362 | The finder stops only outside literals. |
| `FtsLiterals.FinderStopsIff` | crates/oxisql-embedded/src/fts.rs:336-362 | On a rendered row the finder stops at the closing parenthesis exactly when every text is of that kind. |
| `FtsLiterals.SplitterSplits` | crates/oxisql-embedded/src/fts.rs:367-407 | For such texts the splitter gives the row id and one literal for each text, and each strips to its text. |
| `FtsLiterals.NoBackslashIsClean` | crates/oxisql-embedded/src/fts.rs:341-344 | Texts without a backslash are of that kind. |
| `FtsLiterals.TrailingBackslashExample` | crates/oxisql-embedded/src/fts.rs:341-344 | A text ending in a backslash on which the finder misses the parenthesis. |
| `FtsLiterals.HandleFtsInsert` | crates/oxisql-embedded/src/fts.rs:257-288 | From the opening parenthesis on: refuses a row id that is no 64-bit integer, else indexes the row read, and changes nothing else. |
| `FtsLaws.ReadRowRefuses` | crates/oxisql-embedded/src/fts.rs:257-288 | A row is passed over exactly without a closing parenthesis or with only blanks before it, and refused exactly if its first field is no 64-bit numeral. |
| `FtsLaws.ParseI64Iff` | crates/oxisql-embedded/src/fts.rs:264-274 | The row id is read exactly from an optional sign and digits, within 64 bits. |
| `FtsLiterals.RenderedRowReads` | crates/oxisql-embedded/src/fts.rs:257-288 | A rendered row with such texts is read back whole. |
| `FtsReadBack.ReadBackIff` | crates/oxisql-embedded/src/fts.rs:257-288 | A rendered row with a 64-bit id is read back whole, whatever follows it, exactly when every text is of that kind. |
| `SpinLock.StepKeepsExclusion` | crates/oxisqlite-core/fast_lock.rs:17-53 | Every atomic step keeps at most one holder and the flag right. |
| `SpinLock.StepKeepsValue` | crates/oxisqlite-core/fast_lock.rs:67-82 | Every step keeps the value at the number of threads that have added, and a value read up to date until written. |
| `SpinLock.RunKeeps` | crates/oxisqlite-core/fast_lock.rs:48-53 | So does every schedule. |
| `SpinLock.EveryInterleaving` | crates/oxisqlite-core/fast_lock.rs:67-82 | In every interleaving of `n` threads: one holder at most, the flag set exactly when there is one, and once all are done the value is `n` and the lock free. |
| `SpinLock.RoundWorks` | crates/oxisqlite-core/fast_lock.rs:48-53 | No deadlock: while a thread is not done, every round of turns makes progress. |
| `SpinLock.FairRunsFinish` | crates/oxisqlite-core/fast_lock.rs:67-82 | After `4 * n` rounds, in any order within each, all threads are done and the value is `n`. |

## Left out

- KeyCodec.DecodeEncodeKey: no float, decimal, date, time, interval, inet, point or JSON keys, whose encodings lose precision, and no timestamp keys, which are cut to microseconds.
- KeyCodec.EncodeInjective: the same key types, which fjall encodes as JSON.
- KeyCodec.EncodeOrder: the same key types, whose encodings do not keep the order.
- Row and schema serialization, I/O errors and transactions of redb and fjall: the stores are ordered maps, and rows are byte strings.
- The in-memory caches, custom functions and metadata of both stores.
- SqlValues.PartialCmpAgrees: no value variants other than null, boolean, integer, float, text, blob and timestamp, and no NaN.
- FilterSoundness.CompareAgrees: floats are reals with a sign of zero, so comparing an integer with a float does not round.
- The lower-casing of ILIKE: a parameter, the same for the evaluator as for SQL.
- FilterExact.SafeFilterIsRight: one direction, because a leaf that errs can be made harmless by the rest of the filter.
- Escape characters of LIKE: what SQL makes of one is a parameter of the meaning of a filter.
- Sorting rows whose keys are not comparable: the order is then unspecified.
- The hash function of hash partitions: a parameter, as are its collisions.
- Refreshing a provider after partitioning, projections and record batches.
- Overflow checks of debug builds: the counters wrap, as in release builds.
- Integer widths of row counts and partition numbers: they do not overflow here.
- Registry.Connection.IndexByName: case is mapped for ASCII letters only, here as in all names and tokens.
- CatalogOverlay.OverlaySchema: tables only, no indexes, triggers or views.
- The pager and the log beyond their locks: the answers to a request for a lock are inputs.
- AuxTxn.AuxTransactions.RunCommit: each flush yields a given finite number of times and then ends or fails as given.
- SqlBinding.BindParamsString: the literals of floats, blobs, dates, times and UUIDs are given, as any text; so is that of a decimal, which is its text as it stands.
- The syntax-tree path of parameter binding.
- Text of values in CSV: a parameter; column-name cleaning and the statements built on import.
- FtsLiterals.FindClosingParen: the index counts characters, not bytes.
- FtsLiterals.HandleFtsInsert: starts at the opening parenthesis, because recognizing the statement and its SQL around the VALUES list is not modelled.
- Weak memory ordering of the spin lock: its steps are sequentially consistent.
