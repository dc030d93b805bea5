# Sweep candidates and log-safe names in AtlasDB, modelled in Dafny

This project models three pieces of AtlasDB.

**Which cells a sweep should look at** (`getCandidateCellsForSweeping` of a key-value
service).
- A table's history maps each cell (row bytes, column bytes) to its versions: start
  timestamp to value bytes. An empty value is a deletion marker.
- A request names:
  - a start row;
  - a sweep timestamp;
  - a minimum uncommitted start timestamp;
  - whether to check for empty latest values;
  - timestamps to ignore;
  - a batch size hint.
- The scan walks the stored cells from the start row on, in (row, column) order. Names
  are compared as unsigned bytes, lexicographically.
- It produces one candidate per cell, handed out in batches.
- A cell's candidate carries the timestamps below the sweep timestamp, ascending, when
  the cell needs sweeping. A cell needs sweeping when any of these holds:
  - it has two or more eligible versions;
  - its newest eligible version is at or above the minimum uncommitted start timestamp,
    so that version's writer may not have committed;
  - the request checks for empty values and the newest eligible value is empty.
- Otherwise the cell's candidate carries no timestamps.
- A caller reads the concatenation of the batches, without the candidates that carry no
  timestamps.
- The implementation of the scan lives in each key-value service and is not part of this
  model. The model is the reference behaviour that the shared test suite
  `AbstractGetCandidateCellsForSweepingTest` pins down. Each test of that suite is
  proved as a lemma, with rows and columns named by Guava's 4-byte big-endian
  `Ints.toByteArray`.

**`SafeLoggableDataUtils`.** From each table's metadata it collects the names that may
be written to logs:
- the table reference, when the table name is loggable;
- the names of the loggable row components, always recorded for the reference;
- the long names of the loggable named columns, when the table has named columns.

`fromTableMetadata` folds this over a map of tables into one builder.

**Name component descriptions.** The log safety of a row-name component:
- it is `UNSAFE` unless given;
- it is kept by `withPartitioners`;
- it survives persisting to and hydrating from the protobuf message, where it is an
  optional field.

The Dafny modules are:
- `Wrappers`: `Option` and `Result`.
- `Sequences`: filter, map and flatten.
- `Ordering`: strict total orders; the sorted enumeration of a finite set and its
  uniqueness.
- `Bytes`: unsigned lexicographic order; big-endian and Java `int` encodings.
- `Cells`: cells and their order.
- `Scanner`: the candidate rule, the scan, batching, and the declarative description of
  the result.
- `ScannerProperties`: start row, resumption, batch size, one- and two-version cells.
- `SweepTests`: the test builder and the suite's scenarios.
- `NameComponents`: the name component description.
- `SafeLoggable`: the log-safe name utility.

Paths below are relative to the repository root. `AbstractGetCandidateCellsForSweepingTest.java` stands for
`atlasdb-tests-shared/src/main/java/com/palantir/atlasdb/keyvalue/impl/AbstractGetCandidateCellsForSweepingTest.java` in prose; the table spells paths out.

## Model

| member | source | states |
|---|---|---|
| Scanner.SweepNeededMeansNeedsSweeping | atlasdb-tests-shared/src/main/java/com/palantir/atlasdb/keyvalue/impl/AbstractGetCandidateCellsForSweepingTest.java:71-116 | Whether the rule selects the version the scanner computes as newest agrees, in both directions, with whether it selects some version that is the largest eligible one. The rule is: two eligible versions, or a version possibly uncommitted, or emptiness checked and the value empty. So the result does not depend on how the newest version is found |
| Scanner.CandidateFor | atlasdb-tests-shared/src/main/java/com/palantir/atlasdb/keyvalue/impl/AbstractGetCandidateCellsForSweepingTest.java:71-116 | A cell's candidate names the cell and counts its versions below the sweep timestamp. It carries timestamps exactly when the cell needs sweeping; they are then strictly ascending and are exactly the eligible timestamps. Its latest-value-empty flag says whether the value at the last of them is empty |
| Scanner.ScanOrder | atlasdb-tests-shared/src/main/java/com/palantir/atlasdb/keyvalue/impl/AbstractGetCandidateCellsForSweepingTest.java:118-146 | The scanned cells are exactly the stored cells whose row is at or after the start row, in strictly increasing (row, column) order, so each appears once |
| Scanner.Batches | atlasdb-tests-shared/src/main/java/com/palantir/atlasdb/keyvalue/impl/AbstractGetCandidateCellsForSweepingTest.java:148-181 | Cutting the candidates into batches loses, duplicates and reorders nothing: the batches concatenate back to the input. No batch is empty. Every batch but the last reached the hint, and none reached it before its last candidate. Without a hint there is at most one batch |
| Scanner.Batch | atlasdb-tests-shared/src/main/java/com/palantir/atlasdb/keyvalue/impl/AbstractGetCandidateCellsForSweepingTest.java:148-181 | One pass over the candidates computes exactly the batches `Scanner.Batches` describes |
| Scanner.GetCandidateCellsForSweeping | atlasdb-tests-shared/src/main/java/com/palantir/atlasdb/keyvalue/impl/AbstractGetCandidateCellsForSweepingTest.java:175-181 | The scan returns the batches of its candidates under the request's hint. They are non-empty and concatenate to one candidate per scanned cell |
| Scanner.GetAllCandidatesForSweeping | atlasdb-tests-shared/src/main/java/com/palantir/atlasdb/keyvalue/impl/AbstractGetCandidateCellsForSweepingTest.java:175-183 | Concatenating the batches and dropping candidates without timestamps gives exactly the visible candidates. That result is a sweep result: strictly increasing cells; only scanned cells that need sweeping, each with its candidate; and every such cell present |
| Scanner.ReadAllIsSweepResult | atlasdb-tests-shared/src/main/java/com/palantir/atlasdb/keyvalue/impl/AbstractGetCandidateCellsForSweepingTest.java:175-183 | What a caller reads from the batches, cut under the request's hint, is the visible candidates, a sweep result |
| Scanner.VisibleCandidatesIsSweepResult | atlasdb-tests-shared/src/main/java/com/palantir/atlasdb/keyvalue/impl/AbstractGetCandidateCellsForSweepingTest.java:175-183 | Concatenating the batches and dropping the candidates without timestamps yields a sweep result |
| Scanner.VisibleCandidatesAscending | atlasdb-tests-shared/src/main/java/com/palantir/atlasdb/keyvalue/impl/AbstractGetCandidateCellsForSweepingTest.java:118-131 | The candidates a caller reads are in strictly increasing cell order |
| Scanner.VisibleCandidatesSound | atlasdb-tests-shared/src/main/java/com/palantir/atlasdb/keyvalue/impl/AbstractGetCandidateCellsForSweepingTest.java:82-86 | Every candidate a caller reads is for a scanned cell that needs sweeping, and is that cell's candidate |
| Scanner.VisibleCandidatesComplete | atlasdb-tests-shared/src/main/java/com/palantir/atlasdb/keyvalue/impl/AbstractGetCandidateCellsForSweepingTest.java:148-173 | Every scanned cell that needs sweeping is among the candidates a caller reads |
| Scanner.SweepResultCells | atlasdb-tests-shared/src/main/java/com/palantir/atlasdb/keyvalue/impl/AbstractGetCandidateCellsForSweepingTest.java:118-131 | The cells of a sweep result are strictly ascending and are exactly the scanned cells that need sweeping |
| Scanner.SweepResultUnique | atlasdb-tests-shared/src/main/java/com/palantir/atlasdb/keyvalue/impl/AbstractGetCandidateCellsForSweepingTest.java:148-173 | Two sweep results of the same table and request are equal, so the description fixes what a caller reads |
| ScannerProperties.StartRowIsRowGranular | atlasdb-tests-shared/src/main/java/com/palantir/atlasdb/keyvalue/impl/AbstractGetCandidateCellsForSweepingTest.java:133-146 | Starting at a later row yields exactly the candidates of the earlier scan whose row is at or after it. Every column of the start row is included; earlier rows are excluded |
| ScannerProperties.ResumeAtRow | atlasdb-tests-shared/src/main/java/com/palantir/atlasdb/keyvalue/impl/AbstractGetCandidateCellsForSweepingTest.java:133-146 | A scan equals its candidates before a row followed by the scan started at that row, so resuming from a row loses and repeats nothing |
| ScannerProperties.BatchSizeHintIsAdvisory | atlasdb-tests-shared/src/main/java/com/palantir/atlasdb/keyvalue/impl/AbstractGetCandidateCellsForSweepingTest.java:148-173 | For any hint, batching the candidates under it and reading the batches gives the visible candidates. A request read under any other hint reads the same |
| ScannerProperties.EveryCellInRangeNeedsSweeping | atlasdb-tests-shared/src/main/java/com/palantir/atlasdb/keyvalue/impl/AbstractGetCandidateCellsForSweepingTest.java:118-131 | When every scanned cell needs sweeping, the cells a caller reads are the scanned cells in scan order |
| ScannerProperties.SingleCellScan | atlasdb-tests-shared/src/main/java/com/palantir/atlasdb/keyvalue/impl/AbstractGetCandidateCellsForSweepingTest.java:71-116 | A table of one cell in range yields that cell's candidate when it carries timestamps, and nothing otherwise. This holds both for the visible candidates and for what a caller reads from the batches |
| ScannerProperties.SingleRecentVersionIsCandidate | atlasdb-tests-shared/src/main/java/com/palantir/atlasdb/keyvalue/impl/AbstractGetCandidateCellsForSweepingTest.java:71-80 | A lone eligible version at or above the minimum uncommitted timestamp gives the candidate with just that timestamp and one pair examined, whatever the policy |
| ScannerProperties.SingleOldVersion | atlasdb-tests-shared/src/main/java/com/palantir/atlasdb/keyvalue/impl/AbstractGetCandidateCellsForSweepingTest.java:82-116 | A lone eligible version below the minimum uncommitted timestamp is handed out exactly when the policy checks emptiness and the value is empty. It then comes out as that one timestamp, marked empty, with one pair examined |
| ScannerProperties.SingleVersionTimestamps | atlasdb-tests-shared/src/main/java/com/palantir/atlasdb/keyvalue/impl/AbstractGetCandidateCellsForSweepingTest.java:71-80 | A handed-out cell whose only examined and eligible version is `ts` has the candidate `[ts]`, with one pair examined |
| ScannerProperties.TwoVersionsAreCandidate | atlasdb-tests-shared/src/main/java/com/palantir/atlasdb/keyvalue/impl/AbstractGetCandidateCellsForSweepingTest.java:88-98 | Two eligible versions are always handed out, oldest first, with two pairs examined and the newer value's emptiness |
| SweepTests.StoreCells | atlasdb-tests-shared/src/main/java/com/palantir/atlasdb/keyvalue/impl/AbstractGetCandidateCellsForSweepingTest.java:209-231 | After `store()`, a cell is in the table exactly when some write went to it |
| SweepTests.StoreVersions | atlasdb-tests-shared/src/main/java/com/palantir/atlasdb/keyvalue/impl/AbstractGetCandidateCellsForSweepingTest.java:209-231 | After `store()`, a cell has a version at a timestamp exactly when some write went to that cell at that timestamp |
| SweepTests.StoreKeepsLastWrite | atlasdb-tests-shared/src/main/java/com/palantir/atlasdb/keyvalue/impl/AbstractGetCandidateCellsForSweepingTest.java:216-220 | Every stored version holds the value of the last write to its cell and timestamp |
| SweepTests.ReturnCandidateIfPossiblyUncommittedTimestamp | atlasdb-tests-shared/src/main/java/com/palantir/atlasdb/keyvalue/impl/AbstractGetCandidateCellsForSweepingTest.java:71-80 | One value at 10, read with minimum uncommitted 5, gives exactly the candidate (1,1) with `[10]`, not empty, one pair examined |
| SweepTests.DoNotReturnCandidateIfOnlyCommittedTimestamp | atlasdb-tests-shared/src/main/java/com/palantir/atlasdb/keyvalue/impl/AbstractGetCandidateCellsForSweepingTest.java:82-86 | One value at 10, read conservatively with minimum uncommitted 30, gives nothing |
| SweepTests.ReturnCandidateIfTwoCommittedTimestamps | atlasdb-tests-shared/src/main/java/com/palantir/atlasdb/keyvalue/impl/AbstractGetCandidateCellsForSweepingTest.java:88-98 | Values at 10 and 20, with minimum uncommitted 30, give exactly the candidate with `[10, 20]`, not empty, two pairs examined |
| SweepTests.DoNotReturnCandidateWithCommittedEmptyValueIfConservative | atlasdb-tests-shared/src/main/java/com/palantir/atlasdb/keyvalue/impl/AbstractGetCandidateCellsForSweepingTest.java:100-104 | A deletion at 10, read conservatively with minimum uncommitted 30, gives nothing |
| SweepTests.ReturnCandidateWithCommittedEmptyValueIfThorough | atlasdb-tests-shared/src/main/java/com/palantir/atlasdb/keyvalue/impl/AbstractGetCandidateCellsForSweepingTest.java:106-116 | A deletion at 10, read thoroughly, gives exactly the candidate with `[10]`, marked empty, one pair examined |
| SweepTests.CellsAtSorted | atlasdb-tests-shared/src/main/java/com/palantir/atlasdb/keyvalue/impl/AbstractGetCandidateCellsForSweepingTest.java:233-239 | Non-negative (row, column) numbers in ascending numeric order name cells in ascending cell order |
| SweepTests.ScanOfRecentWrites | atlasdb-tests-shared/src/main/java/com/palantir/atlasdb/keyvalue/impl/AbstractGetCandidateCellsForSweepingTest.java:118-173 | A table whose writes may all be uncommitted is read as exactly its cells from the start row on, in numeric (row, column) order |
| SweepTests.ReturnCellsInOrder | atlasdb-tests-shared/src/main/java/com/palantir/atlasdb/keyvalue/impl/AbstractGetCandidateCellsForSweepingTest.java:118-131 | Deletions in (1,1), (1,2), (2,2), (3,1), (3,2) and (3,3) are read as exactly those cells, in that order |
| SweepTests.StartFromGivenRow | atlasdb-tests-shared/src/main/java/com/palantir/atlasdb/keyvalue/impl/AbstractGetCandidateCellsForSweepingTest.java:133-146 | Starting from the row of (2,2) gives (2,1), (2,2), (3,1) and (3,2), in that order |
| SweepTests.ScanFromRow | atlasdb-tests-shared/src/main/java/com/palantir/atlasdb/keyvalue/impl/AbstractGetCandidateCellsForSweepingTest.java:133-146 | Over ascending numbered cells split at a row number, a scan from that row's name reads exactly the cells from the split on |
| SweepTests.CellsFromRow | atlasdb-tests-shared/src/main/java/com/palantir/atlasdb/keyvalue/impl/AbstractGetCandidateCellsForSweepingTest.java:143-145 | The numbered cells from the split on are exactly those whose row name is at or after the start row's name |
| SweepTests.LargerTableWithSmallBatchSizeReturnsCorrectResults | atlasdb-tests-shared/src/main/java/com/palantir/atlasdb/keyvalue/impl/AbstractGetCandidateCellsForSweepingTest.java:148-173 | For every n, the triangle of n rows with 1 to 4 versions per cell is batched with hint 1 and read back. That yields its (1+n)n/2 cells row by row and column by column, each once (the test takes n = 50) |
| SweepTests.TriangleCellsShape | atlasdb-tests-shared/src/main/java/com/palantir/atlasdb/keyvalue/impl/AbstractGetCandidateCellsForSweepingTest.java:150-160 | The expected cells are ascending, have 1 <= column <= row <= n, and number (1+n)n/2 |
| SweepTests.TriangleCellsAreWritten | atlasdb-tests-shared/src/main/java/com/palantir/atlasdb/keyvalue/impl/AbstractGetCandidateCellsForSweepingTest.java:152-158 | A cell is among the expected cells exactly when the loop writes to it |
| Cells.CellOf | atlasdb-tests-shared/src/main/java/com/palantir/atlasdb/keyvalue/impl/AbstractGetCandidateCellsForSweepingTest.java:233-239 | A numbered cell's row and column are 4 bytes long and decode back to the numbers |
| Cells.CellOfOrdered | atlasdb-tests-shared/src/main/java/com/palantir/atlasdb/keyvalue/impl/AbstractGetCandidateCellsForSweepingTest.java:233-239 | For non-negative numbers, numbered cells are in cell order exactly when their (row, column) numbers are in numeric order |
| Bytes.IntBytesRoundTrip | atlasdb-tests-shared/src/main/java/com/palantir/atlasdb/keyvalue/impl/AbstractGetCandidateCellsForSweepingTest.java:237-239 | Every Java `int` decodes back from its four bytes, so distinct numbers give distinct names |
| Bytes.IntToBytesOrdered | atlasdb-tests-shared/src/main/java/com/palantir/atlasdb/keyvalue/impl/AbstractGetCandidateCellsForSweepingTest.java:237-239 | For non-negative ints, one name sorts before another exactly when its number is smaller |
| Bytes.NegativeIntsSortLast | atlasdb-tests-shared/src/main/java/com/palantir/atlasdb/keyvalue/impl/AbstractGetCandidateCellsForSweepingTest.java:237-239 | The name of a negative int sorts after the name of every non-negative int |
| Bytes.LexLessIsStrictTotalOrder | atlasdb-tests-shared/src/main/java/com/palantir/atlasdb/keyvalue/impl/AbstractGetCandidateCellsForSweepingTest.java:118-131 | Unsigned lexicographic order of names is irreflexive, transitive and total, so the scan order is well defined |
| NameComponents.Describe | atlasdb-client/src/test/java/com/palantir/atlasdb/table/description/NameComponentDescriptionTest.java:35-41 | A description built without a log safety is not loggable: it is the description with `UNSAFE` |
| NameComponents.DescribeWithSafety | atlasdb-client/src/test/java/com/palantir/atlasdb/table/description/NameComponentDescriptionTest.java:43-46 | A description built with a log safety keeps it, and is loggable exactly when it is `SAFE` |
| NameComponents.DefaultDescription | atlasdb-client/src/test/java/com/palantir/atlasdb/table/description/NameComponentDescriptionTest.java:34-51 | The no-argument description is not loggable, and the message format can represent it |
| NameComponents.WithPartitioners | atlasdb-client/src/test/java/com/palantir/atlasdb/table/description/NameComponentDescriptionTest.java:88-96 | Setting partitioners keeps the name, type, order and log safety. The result has a uniform partitioner exactly when one is given. It is split at exactly the values of the explicit partitioners given. It stays representable |
| NameComponents.HydrateFromProto | atlasdb-client/src/test/java/com/palantir/atlasdb/table/description/NameComponentDescriptionTest.java:103-105 | A message without log safety hydrates to `UNSAFE`, and is loggable exactly when the message says `SAFE`. A missing uniform-partitioner flag means a uniform partitioner |
| NameComponents.HydrateAfterPersist | atlasdb-client/src/test/java/com/palantir/atlasdb/table/description/NameComponentDescriptionTest.java:98-106 | Hydrating a persisted description gives the description back, log safety included |
| NameComponents.PersistAfterHydrate | atlasdb-client/src/test/java/com/palantir/atlasdb/table/description/NameComponentDescriptionTest.java:98-106 | Persisting a hydrated message gives the message back exactly when both optional fields are present |
| NameComponents.RoundTripNeedsOwnTypePartitioner | atlasdb-client/src/test/java/com/palantir/atlasdb/table/description/NameComponentDescriptionTest.java:98-106 | A description whose uniform partitioner is over another type does not survive the round trip |
| NameComponents.TestDescriptionsRoundTrip | atlasdb-client/src/test/java/com/palantir/atlasdb/table/description/NameComponentDescriptionTest.java:68-86 | The default, unspecified, `SAFE` and `UNSAFE` descriptions come back equal after the round trip. The first two come back `UNSAFE`; the others keep the given safety |
| SafeLoggable.AddLoggableNamesToBuilder | atlasdb-client/src/main/java/com/palantir/atlasdb/logging/SafeLoggableDataUtils.java:46-71 | The reference is permitted exactly when the table name is loggable. Its row components are always recorded, even when there are none. Its columns are recorded only when named columns exist. A key put twice marks the builder. Nothing else changes |
| SafeLoggable.AddNewTable | atlasdb-client/src/main/java/com/palantir/atlasdb/logging/SafeLoggableDataUtils.java:37-41 | Adding one more table's names gives the builder of the enlarged set of tables |
| SafeLoggable.AddNewTableRows | atlasdb-client/src/main/java/com/palantir/atlasdb/logging/SafeLoggableDataUtils.java:60 | A new table's row-component entry is not yet present, and adding it gives the enlarged set's entries |
| SafeLoggable.AddNewTableColumns | atlasdb-client/src/main/java/com/palantir/atlasdb/logging/SafeLoggableDataUtils.java:62-70 | A new table's column entry is not yet present. Adding it, only for named columns, gives the enlarged set's entries |
| SafeLoggable.FromTableMetadata | atlasdb-client/src/main/java/com/palantir/atlasdb/logging/SafeLoggableDataUtils.java:34-43 | Whatever order the map hands out its entries, no key is put twice, so the builder builds. The result holds exactly the names of each table, per table |
| SafeLoggable.LoggableNamesCombine | atlasdb-client/src/main/java/com/palantir/atlasdb/logging/SafeLoggableDataUtils.java:34-43 | The names of two disjoint groups of tables are the union of the names of each group |
| SafeLoggable.LoggableNamesOfOneTable | atlasdb-client/src/main/java/com/palantir/atlasdb/logging/SafeLoggableDataUtils.java:46-71 | One table contributes its reference if loggable, its row components, and its column names only when it has named columns |
| SafeLoggable.RowComponentNamesPipeline | atlasdb-client/src/main/java/com/palantir/atlasdb/logging/SafeLoggableDataUtils.java:54-59 | Streaming the row parts through filter-by-loggable, map-to-name and collect-to-set gives exactly the names of the loggable row components |
| SafeLoggable.ColumnNamesPipeline | atlasdb-client/src/main/java/com/palantir/atlasdb/logging/SafeLoggableDataUtils.java:64-68 | Streaming the named columns through the same pipeline, in whatever order the set hands them out, gives exactly the long names of the loggable columns |
| SafeLoggable.FilterMapToSetIsImage | atlasdb-client/src/main/java/com/palantir/atlasdb/logging/SafeLoggableDataUtils.java:54-68 | A filter-map-collect pipeline collects a value exactly when some element satisfies the filter and maps to it |

## Left out

- The key-value services' own scan implementations: the scan is modelled by the behaviour the shared tests fix. Where no test decides, the model makes a choice:
  - the candidate rule is the simplest one consistent with every test;
  - batches close once the pairs examined in them reach the hint.
- Scanner.CandidateFor: `numCellsTsPairsExamined` counts the cell's own versions below the sweep timestamp. The tests fix it only for one-cell tables; an implementation may instead count across the batch.
- Scanner.Batches: exact batch boundaries are a modelling choice; the tests assert only the concatenation of the batches.
- Scanner.CandidateFor: `isLatestValueEmpty` says whether the newest eligible value is empty even when the request does not check emptiness, for instance a conservative read of a recent deletion. No test decides the flag in that case.
- Commit status: the tests write with raw puts and no transactions table, so "possibly uncommitted" is only "at or above the minimum uncommitted start timestamp".
- Request validation, table creation and truncation, `kvs.put` and iterator closing are I/O or test plumbing and are not modelled. The history is a parameter.
- Timestamps are unbounded integers, not 64-bit `long`s; no test comes near the bounds.
- `Cell.create`'s name-length checks are not modelled; the test's names are 4 bytes.
- The `NameComponentDescription` class and its protobuf message are not part of this model. The description's shape comes from the tests, and these details are assumptions:
  - the default name `name` and the `BLOB` type;
  - the `withPartitioners` semantics (union of explicit values, uniform over the component's type);
  - the message recording only a uniform-partitioner flag;
  - the message keeping the explicit partitioner's own value type and value set as given, so an explicit partitioner over another type, or with no values, survives the round trip. A message that held only the values could carry neither.
- The protobuf wire encoding and `TableMetadata.BYTES_HYDRATOR` are left abstract: byte hydration is a function parameter of `FromTableMetadata`.
- SafeLoggable.Build: models `ImmutableSafeLoggableData`'s builder as Guava's immutable map builder, which fails on a key put twice. Its error message is not the library's.
- SafeLoggable.FromTableMetadata: the iteration order of the map is left open (any order), not the order of a particular `Map` implementation.
- `TestProtobufs` (generated protobuf code), `AsyncLockClient` (a remote lock client) and `CheckAndSetClient` (a thin wrapper around classes not shown) hold no local logic worth modelling.
