# CSV import into an Entity Framework table, modelled in Dafny

This project models the import pipeline of CsvImportUtility. `ImportHandler.ImportAsync` reads a CSV file row by row. Each row that maps to an entity is added to the target `DbSet`. Each row that does not map adds one formatted error message to the result. The staged rows are saved in batches of 50000 inside one database transaction, and the transaction is committed once, at the end, if anything was staged. A failed save that the save helper reports rolls the transaction back and returns the result early. The helper reports an update failure only when its inner exception has an inner exception of its own; a shorter chain is reported as no error, and the import goes on as if the save had succeeded. A cancellation seen after a row also rolls back, then raises. With `ImportAction.Replace`, the table is first cleared and saved, outside the transaction.

The model has seven modules, one file each:

- `wrappers.dfy` (`Wrappers`): `Option`, `Result`, the exceptions the importer can raise (`Raised`), and `Outcome`, which is a returned value or a thrown exception.
- `text.dfy` (`Text`): the .NET string behaviours the messages rely on.
  - `String.Split` on one separator and `String.Join`.
  - `String.Replace(pattern, "")`.
  - `int.TryParse`: surrounding white space is allowed, and a failed parse gives 0.
  - Integer formatting.
  - C#'s wrapping 32-bit `+`.
- `datastore.dfy` (`DataStore`): an abstract Entity Framework context, the class `Store`, with a value view `StoreState`.
  - It holds the committed table, the rows saved inside the open transaction, and the rows tracked but not yet saved.
  - It also holds the outcomes its coming `SaveChangesAsync` calls will have. Each outcome is success, a validation failure, an update failure or any other exception.
- `dbcontext_extension.dfy` (`DbContextExtension`): `TrySaveChangesAsync`, `TryClearDbSetAsync` and `GetDbSetAsync`.
- `import_result.dfy` (`ImportResults`): the `ImportAction` enum, the mutable `ImportResult` class, and its value view `Report`.
- `import_handler.dfy` (`ImportHandler`): `ImportAsync` as an imperative method, and `ImportSpec`, a function that says what the whole call does.
  - `ImportAsync` mutates the result object and the store in a `while` loop.
  - Its postcondition ties the outcome, the progress reports and the store's final state to `ImportSpec` of the store's initial state.
- `import_theorems.dfy` (`ImportTheorems`): what follows from `ImportSpec`.
  - The loop's ledger of counters, staged rows and messages.
  - The all-or-nothing effect on the table.
  - The exact result of an import in which nothing fails.
  - The format of every message.

The collaborators are inputs to the model:

- the rows CsvHelper yields, as a sequence of `Parsed(entity)` or `Failed(csvHelperData, message)`;
- the cancellation token, as the answer it gives when checked after each row, plus one answer on entry;
- the progress sink, as a flag saying whether there is one, with the reports collected as an output sequence;
- the datastore, as a `Store` whose save calls behave as its outcome sequence says.

`ImportAsync` saves every `CommitRowCount` = 50000 rows. The loop functions and the theorems take the batch size as a parameter greater than 0, so they hold for every batch size.

Three behaviours of the code shape the model:

- Building the message for a row that failed to parse can itself throw. It throws when the exception carries no `CsvHelper` data, and when that text has fewer than four lines. The exception then leaves `ImportAsync`, and the transaction is rolled back as its `using` block is left.
- A persistence failure is reported by the message exactly two inner levels down for an update failure, by one message per property error for a validation failure, and by the outer message for any other exception. An update failure with a shorter chain gives no message at all, so the caller cannot tell it from a successful save.
- A run cancelled after it has started rolls back and throws `OperationCanceledException`, so no result is returned at all.

The theorems about which rows reach the table after a returned import, and about the messages after a failed save, assume a store whose failures are well formed (`DbContextExtension.WellFormed`): EF can raise them, and an update failure among them has the two-level chain. `ImportTheorems.SwallowedFinalSaveCountsUnsavedRow`, `ImportTheorems.SwallowedSaveCountsUnsavedRow` and `DbContextExtension.SwallowedClearFailure` show what happens without that assumption. The rest needs no such assumption and holds on every store: the row counters (`ImportTheorems.RunKeepsCounts`, `ImportTheorems.ImportCountsBounded`), the loop's messages, progress lines and staged rows (`ImportTheorems.RunKeepsLog`), and the facts that no transaction stays open, every returned result has its end time set, and a throw, a cancellation included, commits nothing (`ImportTheorems.ImportKeepsTableOnThrow`).

## Model

| member | source | states |
|---|---|---|
| ImportHandler.ImportAsync | CsvImportUtility/ImportHandler.cs:32-206 | The outcome (returned result or thrown exception), the progress reports and the store's final state are exactly those of `ImportSpec` on the store's initial state, with batches of `CommitRowCount` rows. A call cancelled on entry throws `OperationCanceled`, reports nothing and leaves the store untouched. A returned result is a new object. |
| ImportHandler.LoadRows | CsvImportUtility/ImportHandler.cs:102-205 | The part of the import from the counters to the end matches `Load`: it opens the transaction, runs the row loop with the loop invariant that the mutable state equals `Run` over the rows read so far, and concludes. |
| ImportHandler.ImportRow | CsvImportUtility/ImportHandler.cs:119-170 | One turn of the loop leaves the result, the counters, the reports and the store as `ReadRow` says, and says why the loop stops if it does. |
| ImportHandler.StageRow | CsvImportUtility/ImportHandler.cs:121-141 | `RowsRead` goes up by one. A parsed row is added to the tracked rows and counted in the batch. A failed row appends its message and counts as an error, or raises the fault building that message throws. |
| ImportHandler.CheckRow | CsvImportUtility/ImportHandler.cs:143-170 | A cancellation rolls back. A full batch is saved and its failure classified as `TrySaveChangesAsync` writes it: reported errors are appended and the transaction rolled back; when nothing is reported the batch moves to the rows to commit, even after a failure the classification drops. Then the progress line is reported if there is a sink. Exactly as `AfterRow`. |
| ImportHandler.EndLoad | CsvImportUtility/ImportHandler.cs:143-205 | After the loop stops: a cancellation or fault throws with the transaction disposed, a failed batch save returns with the end time set, and a full read finishes the import. Exactly as `Conclude`. |
| ImportHandler.FinishRows | CsvImportUtility/ImportHandler.cs:176-205 | A partial batch is saved and classified as written. On reported errors they are appended, the transaction rolled back, and the result returned with the end time set. Otherwise a commit happens exactly when rows were staged, and sets `RowsImported` to the rows staged, whether or not their saves wrote them. Exactly as `Finish`. |
| ImportHandler.FieldIndex | CsvImportUtility/ImportHandler.cs:133-135 | The field index read from the third CsvHelper line is a 32-bit integer. |
| ImportHandler.ParseErrorMessage | CsvImportUtility/ImportHandler.cs:132-137 | Missing CsvHelper data raises a null dereference. Otherwise the message is built exactly when the text splits into at least four lines, and otherwise the index is out of range. |
| ImportHandler.RunStopsAtHalt | CsvImportUtility/ImportHandler.cs:143-159 | Once the loop has stopped (cancelled, failed save or fault), no later row changes the outcome. |
| ImportHandler.RunOneMore | CsvImportUtility/ImportHandler.cs:119-171 | The loop over one more row is the loop so far followed by one turn. |
| ImportTheorems.RowsAreParsedOrFailed | CsvImportUtility/ImportHandler.cs:119-141 | Every row read is either staged or in error: staged + errors = rows read. |
| ImportTheorems.OneMessagePerFailedRow | CsvImportUtility/ImportHandler.cs:128-141 | When every failed row's message can be built, there is exactly one message per failed row. |
| ImportTheorems.StageKeepsLedger | CsvImportUtility/ImportHandler.cs:121-141 | Reading a row keeps the counters, the staged rows and the messages in step with the rows read, or the row's message cannot be built. |
| ImportTheorems.AfterRowKeepsLedger | CsvImportUtility/ImportHandler.cs:143-170 | The cancellation check, the batch save and the progress line keep the ledger, or stop the loop with the committed table untouched and no transaction open. |
| ImportTheorems.BatchSaveKeepsLedger | CsvImportUtility/ImportHandler.cs:150-162 | On a store whose failures are well formed: a full batch save that reports nothing succeeded and resets the batch to 0; one that reports errors stops the loop after a rollback, with the save's errors right after the messages of every row read, and only a store whose saves can fail causes it. |
| ImportTheorems.SilentBatchSave | CsvImportUtility/ImportHandler.cs:150-162 | On a store whose failures are well formed, a full batch save that reports nothing keeps the loop going with the ledger intact. |
| ImportTheorems.FailedBatchSave | CsvImportUtility/ImportHandler.cs:150-159 | On a store whose failures are well formed, a full batch save that reports errors stops the loop after a rollback, with the table untouched and the save's errors after the messages of every row read. |
| ImportTheorems.StepKeepsLedger | CsvImportUtility/ImportHandler.cs:119-170 | One turn keeps the ledger, or stops the loop with the table untouched. |
| ImportTheorems.RunKeepsLedger | CsvImportUtility/ImportHandler.cs:102-171 | On a store whose failures are well formed: after any number of rows the loop either keeps the ledger or has stopped early with the table untouched and no transaction open. The ledger holds `RowsRead` = rows, `rowsInError` = failed rows, `rowsToCommit + rowsInBatch` = parsed rows, `0 <= rowsInBatch < threshold`, messages = the failed rows' messages in order, progress lines one per row, and saved + tracked rows = the parsed rows in file order. A halt after a cancellation implies a row was cancelled; a halt after a failed save implies a failing store and leaves the messages of the rows read followed by the save's non-empty list. Beyond `RunKeepsLog`, which holds on every store, the ledger adds that the batch is exactly the rows tracked and not yet saved, and the halt facts. |
| ImportTheorems.StageKeepsCounts | CsvImportUtility/ImportHandler.cs:121-141 | On every store, reading a row counts it once: `RowsRead` goes up by one and the row is counted as staged or in error, with the batch at most the threshold. |
| ImportTheorems.StepKeepsCounts | CsvImportUtility/ImportHandler.cs:119-170 | On every store, one turn keeps the counters, or stops the loop with no more rows staged than read. |
| ImportTheorems.RunKeepsCounts | CsvImportUtility/ImportHandler.cs:102-171 | On every store, whatever its save calls do: after any number of rows read without stopping, `RowsRead` = rows, `rowsInError` = failed rows, `rowsToCommit + rowsInBatch` = parsed rows and `0 <= rowsInBatch < threshold`; after an early stop, `rowsToCommit + rowsInBatch <= RowsRead <= rows`. |
| ImportTheorems.StageKeepsLog | CsvImportUtility/ImportHandler.cs:121-141 | On every store, reading a row counts it, appends its message if it failed, and adds it to the tracked rows if it parsed, leaving the committed table and the open transaction alone. |
| ImportTheorems.AfterRowKeepsLog | CsvImportUtility/ImportHandler.cs:143-170 | On every store, the cancellation check, the batch save and the progress line keep the log, or stop the loop with the committed table untouched. |
| ImportTheorems.StepKeepsLog | CsvImportUtility/ImportHandler.cs:119-170 | On every store, one turn keeps the log, or stops the loop with the committed table untouched. |
| ImportTheorems.RunKeepsLog | CsvImportUtility/ImportHandler.cs:102-171 | On every opened store, whatever its save calls do: after any number of rows read without stopping, the counters are as `RunKeepsCounts` says, the messages are the failed rows' messages in order, there is one progress line per row, the committed table is untouched, the transaction is open with no clear pending, and the saved rows followed by the tracked ones are the parsed rows in file order. An early stop leaves the committed table as it was. |
| ImportTheorems.StepKeepsTable | CsvImportUtility/ImportHandler.cs:119-170 | On every store, one turn inside the transaction leaves the committed table alone and keeps the transaction open unless the loop stops. |
| ImportTheorems.RunKeepsTable | CsvImportUtility/ImportHandler.cs:111-171 | On every store, clear pending or not, the loop inside an open transaction never changes the committed table, and the transaction stays open while the loop goes on. |
| ImportTheorems.LoadIsAllOrNothing | CsvImportUtility/ImportHandler.cs:111-205 | On a store whose failures are well formed, the transaction part leaves no transaction open. It either leaves the table as it was, or appends exactly the parsed rows in file order, with `RowsImported = RowsRead - errors` and the rows' messages. A result after a failed save imports nothing and ends with the save's errors after the messages of the rows read; any other result has read every row and holds exactly their messages. |
| ImportTheorems.HaltIsAllOrNothing | CsvImportUtility/ImportHandler.cs:143-159 | A loop stopped early ends the import with the table untouched; after a failed save the result imports nothing and ends with the save's errors. |
| ImportTheorems.FinishIsAllOrNothing | CsvImportUtility/ImportHandler.cs:176-205 | After the last row, on a store whose failures are well formed, the final save and the commit either leave the table as it was or append exactly the parsed rows with their counts and messages. |
| ImportTheorems.ClearOutcome | CsvImportUtility/ImportHandler.cs:77-97 | On a store whose failures are well formed: a clear that reports nothing empties the table for good and leaves the context fresh; one that reports errors leaves the table as it was. A store whose saves all succeed always clears. |
| ImportTheorems.ImportReachesLoad | CsvImportUtility/ImportHandler.cs:77-111 | Unless the call is cancelled on entry or the clear fails, the import is its transaction part, started after the clear step with the clearing reports. |
| ImportTheorems.ImportIsAllOrNothing | CsvImportUtility/ImportHandler.cs:32-206 | For every input on a fresh store whose failures are well formed: no transaction stays open, and a throw or an import of nothing leaves the table as the clear step left it. An import appends exactly the parsed rows in file order, with `RowsImported = RowsRead - rows in error <= RowsRead` and the rows' messages in order. A return after a failed save has `RowsImported = 0` and ends with the save's errors after the messages of the rows read; any other return has read every row. A returned result has its end time set and keeps its names. A failed clear returns exactly its errors with both row counts 0 and the table untouched. |
| ImportTheorems.LoadCountsBounded | CsvImportUtility/ImportHandler.cs:102-205 | On every store, a returning transaction part has `0 <= RowsImported <= RowsRead <= rows`, and imports rows only after reading every row, then `RowsImported = rows - rows in error`. |
| ImportTheorems.ImportCountsBounded | CsvImportUtility/ImportHandler.cs:32-206 | On every store, a returning import has `0 <= RowsImported <= RowsRead <= rows`, and imports rows only after reading every row, then `RowsImported = rows - rows in error`, whether or not the saves wrote them. |
| ImportTheorems.LoadKeepsTableOnThrow | CsvImportUtility/ImportHandler.cs:111-205 | On every store, the transaction part leaves no transaction open, a throw leaves the committed table as it was, and a returned result has its end time set. |
| ImportTheorems.ImportKeepsTableOnThrow | CsvImportUtility/ImportHandler.cs:32-206 | On every new context, whatever its save calls do: no transaction stays open, every returned result has its end time set, and a throw, including a cancellation during the loop, leaves the table as the clear step left it (as it was, for `Append` or a cancellation on entry). |
| ImportTheorems.SwallowedSaveCountsUnsavedRow | CsvImportUtility/ImportHandler.cs:150-162 | For one parsed row, a batch size of 1 and a first save failing with a one-level update failure, the batch save is taken for a success: the import returns `RowsImported = 1` and no error while the table stays empty and the row is still only tracked. |
| ImportTheorems.SwallowedFinalSaveCountsUnsavedRow | CsvImportUtility/ImportHandler.cs:176-196 | The same at `CommitRowCount` = 50000: the one parsed row waits for the final save, which fails with a one-level update failure and reports nothing, so the commit runs and the import returns `RowsRead = 1`, `RowsImported = 1` and no error while the table stays empty. |
| ImportTheorems.LoadKeepsReport | CsvImportUtility/ImportHandler.cs:46-52 | A returning import keeps the start stamp and the file, context and entity names. |
| ImportTheorems.CleanLoad | CsvImportUtility/ImportHandler.cs:102-205 | With no failing save, no cancellation and readable rows, the transaction part returns the exact result, reports and table: every row read, every parsed row stored and counted, every failed row's message. |
| ImportTheorems.CleanFinish | CsvImportUtility/ImportHandler.cs:176-205 | After a clean loop the last save succeeds, the commit makes every parsed row durable, and the result counts them with every row's message. |
| ImportTheorems.CleanImportStoresParsedRows | CsvImportUtility/ImportHandler.cs:32-206 | The same for the whole import, from a fresh context, under `Append` or `Replace`. |
| ImportTheorems.FieldIndexText | CsvImportUtility/ImportHandler.cs:133-135 | The Field Index line gives back the text between its markers, parsed as `int.TryParse` parses it, 0 when that fails. |
| ImportTheorems.FieldValueText | CsvImportUtility/ImportHandler.cs:136 | The Field Value line gives back the value after its prefix. |
| ImportTheorems.SplitCsvHelperLines | CsvImportUtility/ImportHandler.cs:132 | CsvHelper text whose lines hold no carriage return splits back into those lines. |
| ImportTheorems.ParseErrorMessageFormat | CsvImportUtility/ImportHandler.cs:132-137 | The message is "Row r, column c has invalid value v. detail". Here r is the running row count, c is the parsed index plus one (wrapping at 32 bits) or 1 when the index does not parse, and v is the value. |
| ImportTheorems.ParseErrorColumnIsOneBased | CsvImportUtility/ImportHandler.cs:137 | For a 0-based field index below the largest `int`, the column in the message is that index plus one. |
| ImportTheorems.ProgressLineWords | CsvImportUtility/ImportHandler.cs:167-168 | The progress line is its six words joined by single spaces. |
| ImportTheorems.ProgressLineReadsBack | CsvImportUtility/ImportHandler.cs:164-170 | The progress line's words read back as the row count, "row" exactly when it is 1 (else "rows"), "read,", the error count, "has" exactly when it is 1 (else "have"), and "error". |
| DbContextExtension.EntityMessages | CsvImportUtility/DbContextExtension.cs:27-32 | One message per property error of an entity. |
| DbContextExtension.ValidationMessages | CsvImportUtility/DbContextExtension.cs:25-33 | As many messages as property errors over all entities. |
| DbContextExtension.ValidationMessagesInOrder | CsvImportUtility/DbContextExtension.cs:23-33 | The j-th property error of the i-th entity gives the message right after those of the entities before it, in the `Entity validation error for ...` format. |
| DbContextExtension.SaveErrorsAsWritten | CsvImportUtility/DbContextExtension.cs:16-49 | As written, and as the importer uses it: nothing for a successful save, one message per property error for a validation failure, at most one for an update failure, exactly one for any other failure, and at least one for every well-formed failure. |
| DbContextExtension.AsWrittenUpdateMessage | CsvImportUtility/DbContextExtension.cs:35-42 | An update failure is reported exactly when its chain reaches two inner levels, and then by the message two levels down. |
| DbContextExtension.AsWrittenOtherMessage | CsvImportUtility/DbContextExtension.cs:43-47 | Any other failure gives its own outer message: failures with the same message and different inner exceptions are reported alike. |
| DbContextExtension.SwallowedUpdateFailure | CsvImportUtility/DbContextExtension.cs:35-42 | An update failure with a single inner exception yields no message as written, while the corrected classification reports it. |
| DbContextExtension.SaveErrors | CsvImportUtility/DbContextExtension.cs:16-49 | The corrected classification: empty for a successful save and non-empty for every failure EF can throw, whatever the length of an update failure's chain; were the importer to use it, the well-formedness assumption would reduce to `Raisable`. It agrees with the as-written one wherever that one reports something, and on every failure that is not an update failure. |
| DbContextExtension.TrySaveChanges | CsvImportUtility/DbContextExtension.cs:16-49 | Saves the context, leaving it in the state `AfterSave` of the old one, and returns the as-written classification of what the save threw. |
| DbContextExtension.GetDbSet | CsvImportUtility/DbContextExtension.cs:76-86 | Throws `InvalidOperationException("DBContext cannot be null")` exactly for a null context, and otherwise gives the context's table. |
| DbContextExtension.TryClearDbSet | CsvImportUtility/DbContextExtension.cs:56-70 | A null context throws from the table lookup, so the "DBContext cannot be null" list is never returned. Otherwise the result is `ClearErrors`, the as-written classification of the save of a non-empty table, and the new state `AfterClear`: an empty table is left alone, and a non-empty one is marked deleted and saved. |
| DbContextExtension.ClearOfEmptyTable | CsvImportUtility/DbContextExtension.cs:63-64 | Clearing an empty table changes nothing and reports nothing. |
| DbContextExtension.ClearOfNonEmptyTable | CsvImportUtility/DbContextExtension.cs:64-68 | Clearing a non-empty table of a fresh context returns exactly the save's as-written list. A successful save empties the table and leaves the context fresh; a failed one leaves every row in place with no transaction open, and a well-formed failure is reported by a non-empty list. |
| DbContextExtension.SwallowedClearFailure | CsvImportUtility/DbContextExtension.cs:64-68 | A clear whose save fails with a one-level update failure returns no error, while the table keeps its row and every row stays marked deleted. |
| DataStore.AfterSave | CsvImportUtility/DbContextExtension.cs:21 | A failed save changes nothing but consumes its outcome. A successful one leaves nothing pending. |
| DataStore.Store.constructor | CsvImportUtility/ImportHandler.cs:75 | A new context holds the given table, has no transaction and tracks nothing. |
| DataStore.Store.Add | CsvImportUtility/ImportHandler.cs:125 | `DbSet.Add` tracks one more row and changes nothing else. |
| DataStore.Store.RemoveAll | CsvImportUtility/DbContextExtension.cs:66 | `RemoveRange` marks every row deleted and changes nothing else. |
| DataStore.Store.SaveChanges | CsvImportUtility/DbContextExtension.cs:21 | Returns the next outcome, and the new state is `AfterSave` of the old one. |
| DataStore.Store.BeginTransaction | CsvImportUtility/ImportHandler.cs:111 | Opens a transaction with nothing saved in it. |
| DataStore.Store.Commit | CsvImportUtility/ImportHandler.cs:195 | The new state is `AfterCommit` of the old: the rows saved in the transaction are appended to the committed table, which is emptied first when a clear was saved in the transaction, and the transaction is closed. |
| DataStore.Store.Rollback | CsvImportUtility/ImportHandler.cs:146 | What was saved in the transaction is discarded. |
| DataStore.Store.Dispose | CsvImportUtility/ImportHandler.cs:111 | Leaving the transaction's `using` block rolls back a transaction still open. |
| ImportResults.ImportResult.constructor | CsvImportUtility/ImportResult.cs:12-15 | A new result has an empty error list, both row counts 0, and no stamps. |
| ImportResults.ImportResult.AddError | CsvImportUtility/ImportHandler.cs:139 | Appends one message and changes nothing else. |
| ImportResults.ImportResult.AddErrors | CsvImportUtility/ImportHandler.cs:88 | Appends the messages in order and changes nothing else. |
| Text.AddInt32 | CsvImportUtility/ImportHandler.cs:137 | C#'s `int` addition: the sum when it fits in 32 bits, and otherwise the sum wrapped modulo 2^32. |
| Text.IntToString | CsvImportUtility/ImportHandler.cs:137 | An integer prints as digits with a leading '-' exactly when it is negative. |
| Text.DigitsValueOfNatToString | CsvImportUtility/ImportHandler.cs:137 | The digits printed for a natural number read back as that number. |
| Text.TrimWhite | CsvImportUtility/ImportHandler.cs:135 | `int.TryParse` ignores leading and trailing white space: the trimmed text neither starts nor ends with white space, and keeps every other character. |
| Text.TrimWhiteIsSlice | CsvImportUtility/ImportHandler.cs:135 | The trimmed text is a contiguous slice of the input with only white space before and after it. |
| Text.TrimStartDropsWhitePrefix | CsvImportUtility/ImportHandler.cs:135 | Trimming the start keeps a suffix of the text and drops only white space. |
| Text.TrimEndDropsWhiteSuffix | CsvImportUtility/ImportHandler.cs:135 | Trimming the end drops only white space. |
| Text.TryParseInt32 | CsvImportUtility/ImportHandler.cs:135 | A successful parse gives a 32-bit integer. |
| Text.ParseFormatRoundTrip | CsvImportUtility/ImportHandler.cs:135-137 | Every 32-bit integer, printed, parses back to itself. |
| Text.ParseRejectsNonNumeric | CsvImportUtility/ImportHandler.cs:135 | Text holding a character that is no digit, sign or white space does not parse. |
| Text.Split | CsvImportUtility/ImportHandler.cs:132 | `String.Split` with `StringSplitOptions.None` always gives at least one piece. |
| Text.SplitThenJoin | CsvImportUtility/ImportHandler.cs:132 | Joining the pieces with the separator restores the text. |
| Text.JoinThenSplit | CsvImportUtility/ImportHandler.cs:132 | Pieces that do not hold the separator's first character, once joined, split back into the same pieces. |
| Text.RemoveAll | CsvImportUtility/ImportHandler.cs:133 | `Replace(pattern, "")` never lengthens the text. |
| Text.RemoveAllAbsent | CsvImportUtility/ImportHandler.cs:136 | Text without the pattern is left as it is. |
| Text.RemoveAllLeading | CsvImportUtility/ImportHandler.cs:133 | A leading occurrence of the pattern is removed. |
| Text.RemoveAllKeepsPrefix | CsvImportUtility/ImportHandler.cs:133 | A prefix without the pattern's first character is kept as it is. |

## Left out

- The CsvHelper reader is not part of this model. This covers the configuration, class maps, encoding, the header row and empty-record skipping. The rows arrive as a sequence of parse outcomes, so `RowsRead` differing from the file's line count is outside the model.
- Creating the context by reflection, and turning off change detection, are not modelled. The importer is handed a newly created `Store`.
- File-path validation through `FileInfo`, and opening the file, are left out because they are file-system I/O. So are the `ArgumentException` and `InvalidOperationException` they raise.
- `GetDbSetAsync`'s `CountAsync` probe for an entity type missing from the context is not modelled: the model has one table per context. `ImportAsync` always has a non-null context, so its own table lookup cannot throw in the model.
- `async`/`await` is left out. Cancellation is an answer checked on entry and after each row, because there is no concurrency to verify.
- `DateTime.Now` is left out because it is a wall clock. `StartTime` and `EndTime` are modelled only as set or not set.
- The SQL transaction and EF's change tracker are reduced to the committed table, the rows saved inside the transaction and the rows tracked but not yet saved. The clear step and the import act on that one table.
- Type names in the clearing reports are parameters (`entityType`, `contextType`), since `Type.Name` is reflection.
- ImportTheorems.RunKeepsLedger: is proved only for stores whose failures are well formed, because its conjunct that the batch is exactly the tracked rows fails after a swallowed save. Everything else it states about a loop that goes on holds on every store and is stated there by `ImportTheorems.RunKeepsLog` and `ImportTheorems.RunKeepsCounts`.
- ImportTheorems.BatchSaveKeepsLedger: holds only for stores whose failures are well formed; a one-level update failure is taken for a successful save (`ImportTheorems.SwallowedSaveCountsUnsavedRow`).
- ImportTheorems.LoadIsAllOrNothing: holds only for stores whose failures are well formed; otherwise a result can count rows that were never saved (`ImportTheorems.SwallowedFinalSaveCountsUnsavedRow`).
- ImportTheorems.ImportIsAllOrNothing: is proved only for stores whose failures are well formed, because which rows reach the table after a returned import depends on it. Its other parts hold on every store: `RowsImported <= RowsRead` by `ImportTheorems.ImportCountsBounded`, and no open transaction, the end time on every return and an unchanged table after a throw by `ImportTheorems.ImportKeepsTableOnThrow`.
- ImportTheorems.FinishIsAllOrNothing: holds only for stores whose failures are well formed, for the same reason.
- ImportTheorems.ClearOutcome: holds only for stores whose failures are well formed; otherwise a failed clear reports nothing and the table stays full (`DbContextExtension.SwallowedClearFailure`).
- DbContextExtension.ClearOfNonEmptyTable: promises a non-empty list only for a well-formed failure, for the reason `DbContextExtension.SwallowedClearFailure` shows.
- Text.TrimWhite: its own contract states the ends and the characters kept; that the result is a slice with only white space cut away is stated by `Text.TrimWhiteIsSlice`.
- Text.TryParseInt32: models `int.TryParse` under the invariant culture and `NumberStyles.Integer`. Culture-specific sign symbols, and the trailing NUL characters .NET accepts, are not modelled; `Text.IntToString` likewise prints with the invariant culture's minus sign.
- ImportHandler.ImportAsync: `RowsRead`, `rowsInBatch`, `rowsInError` and `rowsToCommit` are unbounded integers. The model does not capture their 32-bit wrap-around past 2^31 - 1 rows. Only the column computation `colIndex + 1` wraps explicitly.

## Findings

| source | as written | input that shows it | evidently intended | confidence | as-written member | corrected member |
|---|---|---|---|---|---|---|
| CsvImportUtility/DbContextExtension.cs:35-42 | A `DbUpdateException` adds a message only when it has an inner exception with an inner exception of its own. Otherwise the returned list is empty, so callers take the failed save for a successful one: the importer goes on, commits, and counts rows that were never saved. | Append, one parsed row, the batch size of 50000, the final save (ImportHandler.cs:176-196) throwing `DbUpdateException` whose inner exception has no inner exception: `RowsImported = 1`, no error, table empty | Every failed save is reported: the message two levels down, or the deepest one there is when the chain is shorter | not executed | ImportTheorems.SwallowedFinalSaveCountsUnsavedRow | DbContextExtension.SaveErrors |
