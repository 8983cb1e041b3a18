# Temporal diff engine of TemporalViewerApi, modelled in Dafny

TemporalViewerApi shows how one record of a SQL Server system-versioned
(temporal) table changed over time. Given a table, the values of its
primary-key columns and the rows of that record's history (current row plus
history-table rows, newest first), it produces three views:

- a diff-indicator matrix, with one boolean per column for each adjacent pair of rows;
- a delta list of the row pairs where a regular column changed, each carrying its period stamps;
- the history of a single column, whose end stamps are then stitched into contiguous windows.

This project models the core of that engine:

- the lookup validation that checks the request's primary-key columns and coerces each raw lookup string by the column's SQL type name, collecting messages instead of throwing (`Processor`, `Lookup`, `Coercion`);
- the text of the history query: the projection, the WHERE/AND filter, the UNION of base and history table, and the ordering by the period-start column (`SqlText`, `Processor.FormatSqlCommand`);
- the compare dictionary, which pairs the newer and the older value of every column and is reused across row pairs (`Compare`);
- change detection over adjacent row pairs and the three views built on it (`DiffEngine`, `PairScan`, `Processor.PopulateDiffInfo`, `DeltaResults`, `ColumnHistoryResults`).

The source's objects are modelled as classes:

- `TemporalViewerProcessor` holds the `Messages`, `TemporalTableInfo` and `LookupValues` state.
- `CompareDictionary` holds its map.
- The results objects are classes too.

Their methods are loops, proved against pure specification functions in
`DiffEngine`, `Lookup`, `Coercion` and `SqlText`. The lemmas beside those
functions state what the source promises: which columns are reported, in
which order, which windows the stitching produces, and which messages
appear.

Files:

- `values.dfy`: `Value` (the cell values .NET `dynamic` carries), the 32/64-bit integer types, and the `DateTime.MinValue`/`MaxValue` stamps.
- `schema.dfy`: the request and table records, rows as maps from column name to value, and `FirstOrDefault`.
- `compare.dfy`: the compare dictionary.
- `coercion.dfy`: the type switch of `ValidateInputType` as a function, and `String.Length` as a count of UTF-16 code units (`Utf16Length`).
- `lookup.dfy`: what lookup validation produces.
- `sqltext.dfy`: the query text.
- `diffengine.dfy`: the change-detection specification and its lemmas.
- `scan.dfy`: the pair loop shared by the delta list and the column history.
- `results.dfy`, `deltaresults.dfy`, `columnhistory.dfy`, `processor.dfy`: the source's classes.

Where the code and its documented intent differ, the model follows the code:

- The text-type case list spells `narchar`, so `nvarchar` falls to the default branch and fails with two messages (`Coercion.NvarcharIsNotAccepted`).
- Only the column history is end-stitched. Each delta-list entry keeps its newer row's own period end (`DiffEngine.DeltasAreChangedPairs`).
- The descending order of the history rows is never checked; it comes from the query's ORDER BY. It appears only as a hypothesis (`DiffEngine.NewestFirst`) of the lemma about window order.
- Stitching reads element `[0]` with no guard, so an empty change list is a failure. This covers fewer than two rows, an unchanged column, and an unknown or period column. It is not an empty result: `PopulateColumnHistory` returns `None` and the results constructor requires a non-empty list.
- The stitch seed is the raw end stamp of the first (newest) entry.
- The unknown-type message names the column type twice.

## Model

| member | source | states |
|---|---|---|
| Schema.FirstOrNoneSpec | TemporalViewerApi/Models/TemporalViewerProcessor.cs:124 | `FirstOrDefault` yields nothing iff no element satisfies the predicate; otherwise it yields an element that satisfies it, with no earlier element satisfying it |
| Compare.PopulatedSetsSide | TemporalViewerApi/Models/CompareDictionary.cs:36-43 | after populating, every key of the row is present and holds the row's value on the side written (new when `isNew`, old otherwise) |
| Compare.PopulatedKeepsOtherSide | TemporalViewerApi/Models/CompareDictionary.cs:31-43 | populating one side leaves the other side of every row key as it was; a freshly added entry's other side is null |
| Compare.PopulatedKeepsAbsentKeys | TemporalViewerApi/Models/CompareDictionary.cs:27-44 | the key set becomes old keys ∪ row keys, and entries whose key the row lacks are unchanged |
| Compare.PopulatedPairRefresh | TemporalViewerApi/Models/TemporalViewerDeltaResults.cs:53-62 | populating the reused dictionary with the newer row and then the older row leaves every key both rows carry at exactly (newer value, older value), whatever the previous pair left |
| Compare.CompareDictionary.constructor | TemporalViewerApi/Models/CompareDictionary.cs:15-18 | the dictionary starts empty |
| Compare.CompareDictionary.PopulateCompareDictionary | TemporalViewerApi/Models/CompareDictionary.cs:25-45 | the loop over the row's keys leaves the map equal to `Populated(old map, row, isNew)`, the map whose properties the lemmas above state |
| Coercion.TextTypesPassThrough | TemporalViewerApi/Models/TemporalViewerProcessor.cs:162-169 | varchar, narchar, text, ntext and uniqueidentifier (any letter case) always succeed with the raw string |
| Coercion.NvarcharIsNotAccepted | TemporalViewerApi/Models/TemporalViewerProcessor.cs:160-166 | "nvarchar" in any letter case is in no case list: it is the unknown family and coercion fails |
| Coercion.CharTypesAcceptAtMostOneChar | TemporalViewerApi/Models/TemporalViewerProcessor.cs:170-177 | char and nchar succeed iff the input's `Length` (UTF-16 code units) is at most one, and then yield it unchanged |
| Coercion.AtMostOneCodeUnit | TemporalViewerApi/Models/TemporalViewerProcessor.cs:172 | a string has `Length` at most one iff it is empty or one character below U+10000 |
| Coercion.CharTypesAcceptEmptyOrOneBmpChar | TemporalViewerApi/Models/TemporalViewerProcessor.cs:170-177 | in characters: char and nchar accept exactly the empty string and one character of the Basic Multilingual Plane |
| Coercion.NcharExamples | TemporalViewerApi/Models/TemporalViewerProcessor.cs:170-177 | concrete cases: "nchar" rejects a single U+1F600 (a surrogate pair, `Length` 2) and accepts "A" |
| Coercion.BitAcceptsFourSpellings | TemporalViewerApi/Models/TemporalViewerProcessor.cs:207-220 | bit succeeds iff the lower-cased input is "true", "false", "0" or "1"; "true"/"1" give true and "false"/"0" give false |
| Coercion.ParsedTypesUseParsers | TemporalViewerApi/Models/TemporalViewerProcessor.cs:196-263 | the decimal, float, real, date, datetimeoffset and time names succeed iff their parser does, yielding its result as `Decimal`, `Double`, `Single`, `DateTime`, `DateTimeOffset` or `TimeSpan` |
| Coercion.IntegerTypesUseParsers | TemporalViewerApi/Models/TemporalViewerProcessor.cs:178-195 | int, smallint and tinyint succeed iff the 32-bit parser does, yielding its value; bigint likewise with the 64-bit parser |
| Coercion.CoercionMessageCount | TemporalViewerApi/Models/TemporalViewerProcessor.cs:264-273 | a successful coercion adds no message; a failed one for a known type adds exactly the parse-failure message; an unknown type adds the unexpected-type message and then the parse-failure message |
| Coercion.BitExamples | TemporalViewerApi/Models/TemporalViewerProcessor.cs:207-220 | concrete cases: "TRUE", "true" and "1" give true, "False" and "0" give false, "yes" fails, with type name "bit" or "BIT" |
| Lookup.MissingPkMessageCount | TemporalViewerApi/Models/TemporalViewerProcessor.cs:110-118 | the primary-key loop adds exactly as many messages as there are primary-key columns that no lookup entry names |
| Lookup.MissingPkMessagesReportAll | TemporalViewerApi/Models/TemporalViewerProcessor.cs:110-118 | every unnamed primary-key column gets its message (no early exit), and every message belongs to an unnamed primary-key column |
| Lookup.NoMissingPkMessagesIffAllPresent | TemporalViewerApi/Models/TemporalViewerProcessor.cs:110-118 | the primary-key loop adds no message iff every primary-key column is named by some lookup entry |
| Lookup.PkMissingMeansUnnamed | TemporalViewerApi/Models/TemporalViewerProcessor.cs:112-113 | a primary-key column counts as missing iff no lookup entry carries its name |
| Lookup.CheckEntryOutcome | TemporalViewerApi/Models/TemporalViewerProcessor.cs:121-146 | an entry is accepted iff a table column has its name, that column's type equals the entry's type exactly, and coercion succeeds; then it adds no message and yields the coerced parameter; an unknown name or a type mismatch adds exactly its one message and yields nothing; an entry is accepted iff it adds no message |
| Lookup.AcceptedParamsComeFromEntries | TemporalViewerApi/Models/TemporalViewerProcessor.cs:139-146 | there are no more parameters than entries, and each parameter is the accepted value of some entry |
| Lookup.AcceptedParamsInRequestOrder | TemporalViewerApi/Models/TemporalViewerProcessor.cs:121-146 | when every entry is accepted, the parameters are exactly the entries' coerced values, one per entry, in request order |
| Lookup.NoEntryMessagesIffAllSilent | TemporalViewerApi/Models/TemporalViewerProcessor.cs:121-146 | the entry loop adds no message iff no single entry check adds one |
| Lookup.MissingPkExample | TemporalViewerApi/Models/TemporalViewerProcessor.cs:110-118 | with primary keys A and B and only A supplied, the single message names B |
| SqlText.AggregateColumnsIsJoin | TemporalViewerApi/Models/TemporalViewerProcessor.cs:315 | the column fold is the column names joined by ", " followed by one trailing ", " |
| SqlText.ColumnListIsJoin | TemporalViewerApi/Models/TemporalViewerProcessor.cs:315-316 | after removing the last two characters, the projection is the column names in table order joined by ", ", with no trailing separator |
| SqlText.AggregateFilterIsWhereClause | TemporalViewerApi/Models/TemporalViewerProcessor.cs:319-321 | the filter fold over any prefix of the lookup values equals the reference clause: empty, or "WHERE n1 = @n1 " followed by "AND nk = @nk " for each later value |
| SqlText.FilterIsWhereClause | TemporalViewerApi/Models/TemporalViewerProcessor.cs:319-321 | the filter over all lookup values is the reference WHERE/AND clause |
| SqlText.SingleParamFilter | TemporalViewerApi/Models/TemporalViewerProcessor.cs:319-321 | one lookup value `Id` gives "WHERE Id = @Id " |
| DiffEngine.PairRowsAt | TemporalViewerApi/Models/TemporalViewerProcessor.cs:352-375 | after n pair iterations there are n indicator rows, and row i is the comparison of history rows i and i+1 |
| DiffEngine.DiffMatrixShape | TemporalViewerApi/Models/TemporalViewerProcessor.cs:352-380 | N history rows give max(N−1,0)+1 indicator rows, each with one entry per table column. Entry (i, j) is true iff column j is regular and rows i and i+1 differ in it. The final row is all false |
| DiffEngine.LastWithRole | TemporalViewerApi/Models/TemporalViewerDeltaResults.cs:77-82 | the column whose value the switch leaves in a stamp: none iff no column has the role, otherwise one with the role and no later column with it |
| DiffEngine.RowDeltaUpToChanges | TemporalViewerApi/Models/TemporalViewerDeltaResults.cs:66-84 | after the switch has seen the first n columns, the changed-column list is the reference list of the tracked, changed regular columns among them |
| DiffEngine.RowDeltaUpToPeriod | TemporalViewerApi/Models/TemporalViewerDeltaResults.cs:63-84 | after the first n columns, the start stamp is the newer row's value in the last period-start column among them, or `DateTime.MinValue` if there is none; the end stamp likewise with the period-end column and `DateTime.MaxValue` |
| DiffEngine.RowDeltaParts | TemporalViewerApi/Models/TemporalViewerDeltaResults.cs:63-84 | a pair's delta lists the tracked changed columns, and its stamps are the newer row's period start and end, or the defaults |
| DiffEngine.ChangedColumnsExact | TemporalViewerApi/Models/TemporalViewerDeltaResults.cs:66-76 | the changed-column list holds exactly the tracked regular columns whose values differ, each with the old value from the older row and the new value from the newer row |
| DiffEngine.ChangedColumnsNonEmpty | TemporalViewerApi/Models/TemporalViewerDeltaResults.cs:86-90 | a pair's delta lists some change iff some tracked regular column changed between the two rows |
| DiffEngine.UntrackedListsNothing | TemporalViewerApi/Models/TemporalViewerColumnHistoryResults.cs:71-81 | columns the filter does not track contribute nothing |
| DiffEngine.OnlyColumnChange | TemporalViewerApi/Models/TemporalViewerColumnHistoryResults.cs:71-81 | with unique column names, the column-history switch lists exactly one entry, (name, older value, newer value), when the named regular column changed, and nothing otherwise |
| DiffEngine.ChangedPairsExact | TemporalViewerApi/Models/TemporalViewerDeltaResults.cs:56-91 | the emitted pair indices are strictly increasing (newest first), below the pair count, and include pair i iff some tracked regular column changed in it |
| DiffEngine.DeltasAreChangedPairs | TemporalViewerApi/Models/TemporalViewerDeltaResults.cs:56-95 | there is one delta per changed pair, in history order, so at most max(N−1,0) and none for fewer than two rows. Each delta is its pair's row delta with a non-empty change list, and its end stamp is the newer row's raw period end (no stitching) |
| DiffEngine.ColumnHistoryEntries | TemporalViewerApi/Models/TemporalViewerColumnHistoryResults.cs:67-80 | with unique column names, every column-history entry has exactly one changed column, the named one |
| DiffEngine.UnknownColumnHasNoHistory | TemporalViewerApi/Models/TemporalViewerColumnHistoryResults.cs:69-81 | a name that is not a regular column (absent, or a period column) yields no entries |
| DiffEngine.StitchFromAt | TemporalViewerApi/Models/TemporalViewerColumnHistoryResults.cs:101-106 | the stitching pass changes only end stamps: entry 0 gets the seed and entry i gets the start stamp of entry i−1 |
| DiffEngine.StitchedWindows | TemporalViewerApi/Models/TemporalViewerColumnHistoryResults.cs:101-106 | stitching keeps the length, entry 0 (its raw end is the seed), every start stamp and every change list, and sets entry i's end to entry i−1's start for i ≥ 1 |
| DiffEngine.StartColumnAgreement | TemporalViewerApi/Models/TemporalViewerProcessor.cs:324 | with one period-start column, the column the query orders by (the first with role 1) is the one the delta switch reads its start stamp from |
| DiffEngine.DeltaStartsFollowRows | TemporalViewerApi/Models/TemporalViewerDeltaResults.cs:77-79 | with one period-start column, each delta's start stamp is its newer row's value in that column |
| DiffEngine.StitchedWindowsOrdered | TemporalViewerApi/Models/TemporalViewerColumnHistoryResults.cs:101-106 | when the rows are newest first by their period start, every stitched window from the second on starts no later than it ends |
| PairScan.ScanDeltas | TemporalViewerApi/Models/TemporalViewerDeltaResults.cs:48-96 | the pair loop with the reused compare dictionary and the column switch returns exactly the reference delta list for the columns tracked |
| Results.TemporalViewerResults.constructor | TemporalViewerApi/Models/TemporalViewerResults.cs:23-33 | a fresh results object has empty names, columns, history, indicators and messages |
| DeltaResults.TemporalViewerDeltaResults.constructor | TemporalViewerApi/Models/TemporalViewerDeltaResults.cs:32-41 | names, columns and messages are copied from the input results, the delta list is the reference delta list over all columns, and the object is valid iff the copied messages are empty |
| DeltaResults.TemporalViewerDeltaResults.PopulateDelta | TemporalViewerApi/Models/TemporalViewerDeltaResults.cs:48-96 | returns the reference delta list over all columns |
| ColumnHistoryResults.TemporalViewerColumnHistoryResults.constructor | TemporalViewerApi/Models/TemporalViewerColumnHistoryResults.cs:32-41 | names and messages are copied, the column info is the first table column of the name (or none), the history is the stitched column delta list, and the object is valid iff the messages are empty |
| ColumnHistoryResults.TemporalViewerColumnHistoryResults.PopulateColumnHistory | TemporalViewerApi/Models/TemporalViewerColumnHistoryResults.cs:49-109 | fails (the unguarded `[0]`) iff the column's delta list is empty, and otherwise returns that list stitched |
| ColumnHistoryResults.TemporalViewerColumnHistoryResults.StitchEndDates | TemporalViewerApi/Models/TemporalViewerColumnHistoryResults.cs:101-106 | the in-place pass, with its conditional assignment, yields exactly the unconditionally stitched list |
| Processor.TemporalViewerProcessor.constructor | TemporalViewerApi/Models/TemporalViewerProcessor.cs:36-43 | messages and lookup values start empty and the table info is the empty record |
| Processor.TemporalViewerProcessor.ValidLookupInfo | TemporalViewerApi/Models/TemporalViewerProcessor.cs:100-149 | appends the missing-primary-key messages and then the entry messages, appends exactly the accepted parameters in request order, and returns true iff every primary key is present and every entry is accepted |
| Processor.TemporalViewerProcessor.CheckPrimaryKeysPresent | TemporalViewerApi/Models/TemporalViewerProcessor.cs:109-118 | appends one message per unnamed primary-key column, in primary-key order, and reports whether all were named |
| Processor.TemporalViewerProcessor.CheckLookupEntries | TemporalViewerApi/Models/TemporalViewerProcessor.cs:120-146 | appends every entry's messages and accepted parameter in request order, and reports whether all entries were accepted |
| Processor.TemporalViewerProcessor.ValidateLookupEntry | TemporalViewerApi/Models/TemporalViewerProcessor.cs:123-145 | one loop body: the messages, the parameter and the verdict are those of the entry's check |
| Processor.TemporalViewerProcessor.ValidateInputType | TemporalViewerApi/Models/TemporalViewerProcessor.cs:156-276 | the result is valid iff the coercion succeeds and then carries its value (null otherwise), and the messages grow by exactly the coercion's messages |
| Processor.TemporalViewerProcessor.FormatSqlCommand | TemporalViewerApi/Models/TemporalViewerProcessor.cs:312-338 | the SQL is the reference history query: the same joined projection and WHERE/AND filter over the base and history tables, joined by " UNION ", ordered by the first period-start column descending |
| Processor.TemporalViewerProcessor.PopulateDiffInfo | TemporalViewerApi/Models/TemporalViewerProcessor.cs:344-381 | appends exactly the reference indicator matrix, whose shape and entries `DiffEngine.DiffMatrixShape` states |

## Left out

- `Process` and `PopulateHistory` (TemporalViewerProcessor.cs:49-87, 278-305) are left out: they are the repository calls and the database round trip, with exception capture. The history rows, table columns, primary keys and table names are inputs instead. `ValidLookupInfo` takes the repository's primary-key list as a parameter.
- The schema repository and the controllers are not part of this model; they are SQL catalog I/O and HTTP routing.
- The .NET parsers are fields of `Coercion.Parsers`, given to the processor's constructor, and their grammars are not modelled. That covers `int`/`long`/`decimal`/`double`/`float`/`DateTime`/`DateTimeOffset`/`TimeSpan` `TryParse` with their culture rules. Floating-point values are bit patterns; the integer parsers' results are bounded to 32 and 64 bits.
- `ToLower` is modelled on ASCII letters only; culture-specific case mapping is left out.
- `dynamic` `!=` between cell values is structural equality of `Value`. .NET operator dispatch (NaN, comparisons across numeric types) is not modelled. Two consequences: `DateTimeOffset` `==` compares instants, so the same instant at two offsets is unchanged in the source but changed here; and `decimal` `==` ignores scale (`1.0m == 1.00m`), while two `DecimalValue`s of different scale differ here. `Value` has no binary variant either: a `varbinary`, `binary` or `rowversion` cell arrives as a `byte[]`, whose `!=` through `dynamic` compares references, so the source reports such a column as changed on every pair (a true cell at TemporalViewerProcessor.cs:367, a delta and a column-history entry for every pair); that column type is not modelled.
- The conversion of a `dynamic` cell to the `DateTime` `StartDate`/`EndDate` fields is not modelled: stamps are `Value`s. A non-date cell in a period column, which throws in the source, is therefore not a failure here.
- `DeltaInfo`, `DeltaColumn` and `ColumnCompare` objects are values. Each is referenced from exactly one list or dictionary, so aliasing between them is not captured. The stitching pass is modelled as replacing entries of a sequence. The results constructors share the lists of the input `TemporalViewerResults` object rather than copying them (`Messages` at TemporalViewerDeltaResults.cs:40 and TemporalViewerColumnHistoryResults.cs:40, `TableColumns` at TemporalViewerDeltaResults.cs:38); the model copies the sequences, and since nothing in the modelled classes appends to either list after construction, no behaviour is lost.
- The unused static copy of `PopulateCompareDictionary` in `TemporalViewerProcessor` (lines 389-409) is identical to `CompareDictionary.PopulateCompareDictionary` and is modelled once.
- Processor.TemporalViewerProcessor.PopulateDiffInfo, PairScan.ScanDeltas and the results constructors require every history row to carry every table column name (`RowsCover`). The query projects exactly those columns, so every row has the same keys. Without that, the source would behave in two ways, neither modelled. The compare dictionary is reused across pairs and a row only adds or overwrites its own keys (CompareDictionary.cs:31-43). A column missing from a row therefore throws `KeyNotFoundException` only when no earlier row had it. Otherwise it is compared using the value left from the previous pair, or null for the side never written.
- Processor.TemporalViewerProcessor.FormatSqlCommand requires a non-empty column list and a period-start column. The source throws without them (`Remove` on a short string, `.ColumnName` on null); that exception is not modelled.
- ColumnHistoryResults.TemporalViewerColumnHistoryResults.constructor requires a non-empty change list. The source throws on `[0]` otherwise; the failure itself is modelled by `PopulateColumnHistory` returning `None`.
- Processor.TemporalViewerProcessor.ValidLookupInfo has its two loops split out into two helper methods, `CheckPrimaryKeysPresent` and `CheckLookupEntries`. Each loop body is likewise a helper, `ValidateLookupEntry`.
- DiffEngine.StitchedWindowsOrdered assumes the newest-first order of the rows and a single period-start column; the code checks neither.
