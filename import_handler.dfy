/** The import loop: read the CSV rows in order, stage the ones that parse,
    record a message for the ones that do not, save every full batch inside
    one transaction, and commit once at the end.

    The CSV reader, the cancellation token and the datastore are
    collaborators: the rows arrive as a sequence of read outcomes, each with
    the token's state as the loop checks it after the row, and the datastore
    is a `Store` whose save calls fail or succeed as its own state says.

    `ImportSpec` states, as a function of the inputs and the store's initial
    state, everything `ImportAsync` does; `ImportAsync` is proved to behave
    exactly so, and the module ImportTheorems proves what follows from it. */
module ImportHandler {
  import opened Wrappers
  import opened Text
  import opened DataStore
  import opened DbContextExtension
  import opened ImportResults

  /** Rows staged before each save, as the importer fixes it. */
  const CommitRowCount: int := 50000

  /** What reading one CSV record gives: an entity, or the exception thrown
      while mapping it, with its `Data["CsvHelper"]` text (`None` when the
      entry is missing) and its `Message`. */
  datatype RowOutcome<E> =
    | Parsed(entity: E)
    | Failed(csvHelperData: Option<string>, message: string)

  /** One record as the loop sees it, with the answer the cancellation token
      gives when it is checked after that record. */
  datatype RowRead<E> = RowRead(outcome: RowOutcome<E>, cancelRequested: bool)

  // ---------------------------------------------------------------------------
  // Messages

  const CsvHelperLineBreak: string := "\r\n"
  const FieldIndexPrefix: string := "Field Index: '"
  const FieldIndexSuffix: string := "' (0 based)"
  const FieldValuePrefix: string := "Field Value: "

  /** The 0-based field index read from the "Field Index" line of the
      CsvHelper text: the line with its prefix and suffix removed, parsed as
      `int.TryParse` does, 0 when that fails. */
  function FieldIndex(line: string): (k: int)
    ensures InInt32(k)
  {
    TryParseInt32(RemoveAll(RemoveAll(line, FieldIndexPrefix), FieldIndexSuffix)).GetOr(0)
  }

  /** The offending value read from the "Field Value" line of the CsvHelper
      text: the line with its prefix removed. */
  function FieldValue(line: string): string {
    RemoveAll(line, FieldValuePrefix)
  }

  /** The message recorded for a row that failed to parse, or the exception
      that building it throws: a missing CsvHelper entry dereferences null,
      and text of fewer than four lines is indexed out of range. */
  function ParseErrorMessage(rowsRead: int, csvHelperData: Option<string>, detail: string): (r: Result<string, Raised>)
    ensures csvHelperData.None? ==> r == Failure(NullReference)
    ensures csvHelperData.Some? ==> (r.Success? <==> |Split(csvHelperData.value, CsvHelperLineBreak)| >= 4)
    ensures csvHelperData.Some? && r.Failure? ==> r.error == IndexOutOfRange
  {
    match csvHelperData
    case None => Failure(NullReference)
    case Some(data) =>
      var edata := Split(data, CsvHelperLineBreak);
      if |edata| < 4 then Failure(IndexOutOfRange)
      else
        var column := AddInt32(FieldIndex(edata[2]), 1);
        Success("Row " + IntToString(rowsRead) + ", column " + IntToString(column)
                + " has invalid value " + FieldValue(edata[3]) + ". " + detail)
  }

  /** The status line reported after each row. */
  function ProgressLine(rowsRead: int, rowsInError: int): string {
    IntToString(rowsRead) + " " + (if rowsRead != 1 then "rows" else "row") + " read, "
      + IntToString(rowsInError) + " " + (if rowsInError != 1 then "have" else "has") + " error"
  }

  function ClearingMessage(entityType: string, contextType: string): string {
    "Clearing table for entity " + entityType + " in " + contextType + "..."
  }

  function ClearedMessage(entityType: string): string {
    "Table for entity " + entityType + " has been cleared"
  }

  const StartReadingMessage: string := "Starting to read file..."
  const CommittingMessage: string := "Commiting all changes to database..."

  function WrittenMessage(rowsImported: int): string {
    IntToString(rowsImported) + " rows written to database."
  }

  // ---------------------------------------------------------------------------
  // The loop, one row at a time

  /** Everything the loop changes: the result's row count and error list, its
      three local counters, the progress reports and the store. */
  datatype LoopState<E> = LoopState(
    rowsRead: int,
    rowsInBatch: int,
    rowsInError: int,
    rowsToCommit: int,
    errors: seq<string>,
    reports: seq<string>,
    store: StoreState<E>)

  /** Why the loop stopped early. */
  datatype Halt = Cancelled | SaveFailed | Faulted(error: Raised)

  datatype StepResult<E> = Next(state: LoopState<E>) | Halted(state: LoopState<E>, halt: Halt)

  /** One turn of the loop. */
  function ReadRow<E>(s: LoopState<E>, row: RowRead<E>, hasSink: bool, commitRowCount: int): StepResult<E> {
    match Stage(s, row.outcome)
    case Failure(e) => Halted(s.(rowsRead := s.rowsRead + 1), Faulted(e))
    case Success(staged) => AfterRow(staged, row.cancelRequested, hasSink, commitRowCount)
  }

  /** Reading one record: the row count goes up, and the entity is staged or
      the row's error message recorded, unless building that message throws. */
  function Stage<E>(s: LoopState<E>, outcome: RowOutcome<E>): Result<LoopState<E>, Raised> {
    var rowsRead := s.rowsRead + 1;
    match outcome
    case Parsed(entity) =>
      Success(s.(rowsRead := rowsRead, rowsInBatch := s.rowsInBatch + 1,
                 store := s.store.(tracked := s.store.tracked + [entity])))
    case Failed(data, detail) =>
      match ParseErrorMessage(rowsRead, data, detail)
      case Failure(e) => Failure(e)
      case Success(message) =>
        Success(s.(rowsRead := rowsRead, rowsInError := s.rowsInError + 1, errors := s.errors + [message]))
  }

  /** The rest of a turn once the row is staged or recorded: the cancellation
      check, the save of a full batch, the progress report. */
  function AfterRow<E>(s: LoopState<E>, cancelRequested: bool, hasSink: bool, commitRowCount: int): StepResult<E> {
    if cancelRequested then Halted(s.(store := AfterRollback(s.store)), Cancelled)
    else if s.rowsInBatch >= commitRowCount then
      var errors := SaveErrorsAsWritten(NextOutcome(s.store));
      if |errors| > 0 then
        Halted(s.(errors := s.errors + errors, store := AfterRollback(AfterSave(s.store))), SaveFailed)
      else
        Reported(s.(rowsToCommit := s.rowsToCommit + s.rowsInBatch, rowsInBatch := 0,
                    store := AfterSave(s.store)), hasSink)
    else Reported(s, hasSink)
  }

  function Reported<E>(s: LoopState<E>, hasSink: bool): StepResult<E> {
    Next(if hasSink then s.(reports := s.reports + [ProgressLine(s.rowsRead, s.rowsInError)]) else s)
  }

  /** The loop run over `rows`, stopping at the first halt. */
  function Run<E>(start: LoopState<E>, rows: seq<RowRead<E>>, hasSink: bool, commitRowCount: int): StepResult<E>
    decreases |rows|
  {
    if rows == [] then Next(start)
    else
      match Run(start, rows[..|rows| - 1], hasSink, commitRowCount)
      case Halted(s, h) => Halted(s, h)
      case Next(s) => ReadRow(s, rows[|rows| - 1], hasSink, commitRowCount)
  }

  /** Once the loop has halted, later rows are never read. */
  lemma {:induction false} RunStopsAtHalt<E>(start: LoopState<E>, rows: seq<RowRead<E>>, k: nat, hasSink: bool, commitRowCount: int)
    requires k <= |rows| && Run(start, rows[..k], hasSink, commitRowCount).Halted?
    ensures Run(start, rows, hasSink, commitRowCount) == Run(start, rows[..k], hasSink, commitRowCount)
    decreases |rows| - k
  {
    if k == |rows| {
      assert rows[..k] == rows;
    } else {
      assert rows[..k + 1][..k] == rows[..k];
      RunStopsAtHalt(start, rows, k + 1, hasSink, commitRowCount);
    }
  }

  /** The loop over one more row is the loop so far followed by one turn. */
  lemma RunOneMore<E>(start: LoopState<E>, rows: seq<RowRead<E>>, i: nat, hasSink: bool, commitRowCount: int)
    requires i < |rows| && Run(start, rows[..i], hasSink, commitRowCount).Next?
    ensures Run(start, rows[..i + 1], hasSink, commitRowCount)
         == ReadRow(Run(start, rows[..i], hasSink, commitRowCount).state, rows[i], hasSink, commitRowCount)
  {
    assert rows[..i + 1][..i] == rows[..i];
  }

  // ---------------------------------------------------------------------------
  // The whole import

  /** How an import call ends: it returns its result, or it throws; either
      way the progress reports made and the store's final state. */
  datatype ImportRun<E> =
    | Returns(report: Report, reports: seq<string>, store: StoreState<E>)
    | Throws(error: Raised, reports: seq<string>, store: StoreState<E>)

  /** The import, from the store's state when it is called. */
  function ImportSpec<E>(st: StoreState<E>, importCsvPath: string, contextType: string, entityType: string,
                         action: ImportAction, rows: seq<RowRead<E>>, cancelledOnEntry: bool,
                         hasSink: bool, commitRowCount: int): ImportRun<E>
  {
    if cancelledOnEntry then Throws(OperationCanceled, [], st)
    else
      var report := Report(importCsvPath, contextType, entityType, 0, 0, [], true, false);
      if action == Replace then
        var reports := if hasSink then [ClearingMessage(entityType, contextType)] else [];
        var errors := ClearErrors(st);
        if |errors| > 0 then
          Returns(report.(errorMessages := errors, endTimeSet := true), reports, AfterClear(st))
        else
          Load(report, reports + (if hasSink then [ClearedMessage(entityType)] else []),
               AfterClear(st), rows, hasSink, commitRowCount)
      else Load(report, [], st, rows, hasSink, commitRowCount)
  }

  /** The part of the import inside the transaction. */
  function Load<E>(report: Report, reports: seq<string>, st: StoreState<E>, rows: seq<RowRead<E>>,
                   hasSink: bool, commitRowCount: int): ImportRun<E>
  {
    var start := LoopState(0, 0, 0, 0, report.errorMessages,
                           reports + (if hasSink then [StartReadingMessage] else []), AfterBegin(st));
    Conclude(report, Run(start, rows, hasSink, commitRowCount), hasSink)
  }

  /** How the import ends once the loop has stopped, early or after the last
      row. Leaving the transaction's using block early rolls it back. */
  function Conclude<E>(report: Report, r: StepResult<E>, hasSink: bool): ImportRun<E> {
    match r
    case Halted(s, Faulted(e)) => Throws(e, s.reports, AfterDispose(s.store))
    case Halted(s, Cancelled) => Throws(OperationCanceled, s.reports, AfterDispose(s.store))
    case Halted(s, SaveFailed) =>
      Returns(report.(rowsRead := s.rowsRead, errorMessages := s.errors, endTimeSet := true),
              s.reports, AfterDispose(s.store))
    case Next(s) => Finish(report, s, hasSink)
  }

  /** The step result a loop state and a halt reason stand for. */
  function StepOf<E>(s: LoopState<E>, halt: Option<Halt>): StepResult<E> {
    if halt.None? then Next(s) else Halted(s, halt.value)
  }

  /** After the last row: save the partial batch, commit if anything was
      staged, and stamp the end time. */
  function Finish<E>(report: Report, s: LoopState<E>, hasSink: bool): ImportRun<E> {
    var errors := if s.rowsInBatch > 0 then SaveErrorsAsWritten(NextOutcome(s.store)) else [];
    var st := if s.rowsInBatch > 0 then AfterSave(s.store) else s.store;
    if |errors| > 0 then
      Returns(report.(rowsRead := s.rowsRead, errorMessages := s.errors + errors, endTimeSet := true),
              s.reports, AfterDispose(AfterRollback(st)))
    else
      var rowsToCommit := if s.rowsInBatch > 0 then s.rowsToCommit + s.rowsInBatch else s.rowsToCommit;
      if rowsToCommit > 0 then
        Returns(report.(rowsRead := s.rowsRead, rowsImported := rowsToCommit, errorMessages := s.errors,
                        endTimeSet := true),
                s.reports + (if hasSink then [CommittingMessage, WrittenMessage(rowsToCommit)] else []),
                AfterDispose(AfterCommit(st)))
      else
        Returns(report.(rowsRead := s.rowsRead, errorMessages := s.errors, endTimeSet := true),
                s.reports, AfterDispose(st))
  }

  /** `ImportAsync`. The store is a newly created context; `hasSink` says
      whether a progress sink was given and `reports` collects what it is
      sent; `cancelledOnEntry` is the token's state when the call starts.
      Batches are saved every `CommitRowCount` rows. */
  method ImportAsync<E>(ctx: Store<E>, importCsvPath: string, contextType: string, entityType: string,
                        action: ImportAction, rows: seq<RowRead<E>>, cancelledOnEntry: bool,
                        hasSink: bool)
    returns (outcome: Outcome<ImportResult>, reports: seq<string>)
    requires ctx.State().IsFresh()
    modifies ctx
    ensures cancelledOnEntry ==> outcome == Threw(OperationCanceled) && reports == [] && unchanged(ctx)
    ensures outcome.Returned? ==> fresh(outcome.value)
    ensures var run := ImportSpec(old(ctx.State()), importCsvPath, contextType, entityType, action, rows,
                                  cancelledOnEntry, hasSink, CommitRowCount);
            && reports == run.reports
            && ctx.State() == run.store
            && (run.Throws? ==> outcome == Threw(run.error))
            && (run.Returns? ==> outcome.Returned? && outcome.value.Snapshot() == run.report)
  {
    // Before starting, a cancelled call ends at once.
    if cancelledOnEntry {
      return Threw(OperationCanceled), [];
    }
    ghost var st0 := ctx.State();
    var result := new ImportResult();
    result.startTimeSet := true;
    result.dbContextType := contextType;
    result.entityType := entityType;
    result.importFile := importCsvPath;
    ghost var report := result.Snapshot();
    assert report == Report(importCsvPath, contextType, entityType, 0, 0, [], true, false);
    reports := [];

    if action == Replace {
      if hasSink {
        reports := [ClearingMessage(entityType, contextType)];
      }
      var cleared := TryClearDbSet(ctx);
      var errors := cleared.value;
      if |errors| > 0 {
        result.AddErrors(errors);
        result.endTimeSet := true;
        return Returned(result), reports;
      }
      if hasSink {
        reports := reports + [ClearedMessage(entityType)];
      }
      assert ctx.State() == AfterClear(st0) && ClearErrors(st0) == [];
    } else {
      assert ctx.State() == st0;
    }
    assert ImportSpec(st0, importCsvPath, contextType, entityType, action, rows,
                      cancelledOnEntry, hasSink, CommitRowCount)
        == Load(report, reports, ctx.State(), rows, hasSink, CommitRowCount);
    outcome, reports := LoadRows(ctx, result, rows, reports, hasSink, CommitRowCount);
  }

  /** The part of `ImportAsync` inside the transaction, from the progress
      reports made so far and a result that has read nothing yet. */
  method LoadRows<E>(ctx: Store<E>, result: ImportResult, rows: seq<RowRead<E>>, reportsSoFar: seq<string>,
                     hasSink: bool, commitRowCount: int)
    returns (outcome: Outcome<ImportResult>, reports: seq<string>)
    requires commitRowCount > 0
    requires !ctx.inTransaction
    requires result.rowsRead == 0
    modifies ctx, result
    ensures outcome.Returned? ==> outcome.value == result
    ensures var run := Load(old(result.Snapshot()), reportsSoFar, old(ctx.State()), rows, hasSink, commitRowCount);
            && reports == run.reports
            && ctx.State() == run.store
            && (run.Throws? ==> outcome == Threw(run.error))
            && (run.Returns? ==> outcome.Returned? && result.Snapshot() == run.report)
  {
    ghost var report := result.Snapshot();
    var rowsInBatch := 0;
    var rowsInError := 0;
    var rowsToCommit := 0;
    reports := reportsSoFar + (if hasSink then [StartReadingMessage] else []);
    ctx.BeginTransaction();
    ghost var start := LoopState(0, 0, 0, 0, result.errorMessages, reports, ctx.State());

    var halt: Option<Halt> := None;
    var i := 0;
    while i < |rows| && halt.None?
      invariant 0 <= i <= |rows|
      invariant halt.None? ==> ctx.inTransaction
      invariant result.Snapshot() == report.(rowsRead := result.rowsRead, errorMessages := result.errorMessages)
      invariant Run(start, rows[..i], hasSink, commitRowCount)
             == StepOf(LoopState(result.rowsRead, rowsInBatch, rowsInError, rowsToCommit,
                                 result.errorMessages, reports, ctx.State()), halt)
    {
      RunOneMore(start, rows, i, hasSink, commitRowCount);
      halt, rowsInBatch, rowsInError, rowsToCommit, reports :=
        ImportRow(ctx, result, rows[i], rowsInBatch, rowsInError, rowsToCommit, reports, hasSink, commitRowCount);
      i := i + 1;
    }
    if halt.Some? {
      RunStopsAtHalt(start, rows, i, hasSink, commitRowCount);
    } else {
      assert rows[..i] == rows;
    }
    outcome, reports := EndLoad(ctx, result, report, halt, rowsInBatch, rowsInError, rowsToCommit, reports, hasSink);
  }

  /** One turn of the loop in `ImportAsync`. */
  method ImportRow<E>(ctx: Store<E>, result: ImportResult, row: RowRead<E>,
                      rowsInBatch: int, rowsInError: int, rowsToCommit: int, reports: seq<string>,
                      hasSink: bool, commitRowCount: int)
    returns (halt: Option<Halt>, newRowsInBatch: int, newRowsInError: int, newRowsToCommit: int,
             newReports: seq<string>)
    requires ctx.inTransaction
    modifies ctx, result
    ensures result.Snapshot() == old(result.Snapshot()).(rowsRead := result.rowsRead, errorMessages := result.errorMessages)
    ensures halt.None? ==> ctx.inTransaction
    ensures ReadRow(LoopState(old(result.rowsRead), rowsInBatch, rowsInError, rowsToCommit,
                              old(result.errorMessages), reports, old(ctx.State())),
                    row, hasSink, commitRowCount)
         == StepOf(LoopState(result.rowsRead, newRowsInBatch, newRowsInError, newRowsToCommit,
                             result.errorMessages, newReports, ctx.State()), halt)
  {
    var fault;
    fault, newRowsInBatch, newRowsInError := StageRow(ctx, result, row.outcome, rowsInBatch, rowsInError,
                                                      rowsToCommit, reports);
    if fault.Some? {
      // the exception escapes the catch block
      return Some(Faulted(fault.value)), newRowsInBatch, newRowsInError, rowsToCommit, reports;
    }
    halt, newRowsInBatch, newRowsToCommit, newReports :=
      CheckRow(ctx, result, row.cancelRequested, newRowsInBatch, newRowsInError, rowsToCommit, reports,
               hasSink, commitRowCount);
  }

  /** The start of a turn: read the row, then stage the entity or record the
      row's error message. `fault` is the exception building that message
      throws, if it does; the row is counted either way. */
  method StageRow<E>(ctx: Store<E>, result: ImportResult, outcome: RowOutcome<E>,
                     rowsInBatch: int, rowsInError: int, ghost rowsToCommit: int, ghost reports: seq<string>)
    returns (fault: Option<Raised>, newRowsInBatch: int, newRowsInError: int)
    modifies ctx, result
    ensures result.Snapshot() == old(result.Snapshot()).(rowsRead := result.rowsRead, errorMessages := result.errorMessages)
    ensures ctx.inTransaction == old(ctx.inTransaction)
    ensures var before := LoopState(old(result.rowsRead), rowsInBatch, rowsInError, rowsToCommit,
                                    old(result.errorMessages), reports, old(ctx.State()));
            match Stage(before, outcome)
            case Failure(e) =>
              fault == Some(e) && result.rowsRead == before.rowsRead + 1
              && result.errorMessages == before.errors && ctx.State() == before.store
              && newRowsInBatch == rowsInBatch && newRowsInError == rowsInError
            case Success(staged) =>
              fault.None? && staged == LoopState(result.rowsRead, newRowsInBatch, newRowsInError, rowsToCommit,
                                                 result.errorMessages, reports, ctx.State())
  {
    newRowsInBatch, newRowsInError := rowsInBatch, rowsInError;
    result.rowsRead := result.rowsRead + 1;
    match outcome {
      case Parsed(entity) =>
        ctx.Add(entity);
        newRowsInBatch := newRowsInBatch + 1;
      case Failed(data, detail) =>
        var message := ParseErrorMessage(result.rowsRead, data, detail);
        if message.Failure? {
          return Some(message.error), newRowsInBatch, newRowsInError;
        }
        result.AddError(message.value);
        newRowsInError := newRowsInError + 1;
    }
    fault := None;
  }

  /** The rest of a turn: check the token, save a full batch, report
      progress. A turn that stops the loop says why in `halt` and leaves
      disposing of the transaction to the caller. */
  method CheckRow<E>(ctx: Store<E>, result: ImportResult, cancelRequested: bool,
                     rowsInBatch: int, rowsInError: int, rowsToCommit: int, reports: seq<string>,
                     hasSink: bool, commitRowCount: int)
    returns (halt: Option<Halt>, newRowsInBatch: int, newRowsToCommit: int, newReports: seq<string>)
    requires ctx.inTransaction
    modifies ctx, result
    ensures result.Snapshot() == old(result.Snapshot()).(errorMessages := result.errorMessages)
    ensures halt.None? ==> ctx.inTransaction
    ensures AfterRow(LoopState(result.rowsRead, rowsInBatch, rowsInError, rowsToCommit,
                               old(result.errorMessages), reports, old(ctx.State())),
                     cancelRequested, hasSink, commitRowCount)
         == StepOf(LoopState(result.rowsRead, newRowsInBatch, rowsInError, newRowsToCommit,
                             result.errorMessages, newReports, ctx.State()), halt)
  {
    newRowsInBatch, newRowsToCommit, newReports := rowsInBatch, rowsToCommit, reports;
    if cancelRequested {
      ctx.Rollback();
      return Some(Cancelled), newRowsInBatch, newRowsToCommit, newReports;
    }

    if rowsInBatch >= commitRowCount {
      var errors := TrySaveChanges(ctx);
      if |errors| > 0 {
        result.AddErrors(errors);
        ctx.Rollback();
        return Some(SaveFailed), newRowsInBatch, newRowsToCommit, newReports;
      }
      newRowsToCommit := rowsToCommit + rowsInBatch;
      newRowsInBatch := 0;
    }

    if hasSink {
      newReports := reports + [ProgressLine(result.rowsRead, rowsInError)];
    }
    halt := None;
  }

  /** What `ImportAsync` does once the loop has stopped: on a halt, leave the
      transaction's using block (stamping the end time when a save failed);
      after the last row, finish the import. */
  method EndLoad<E>(ctx: Store<E>, result: ImportResult, ghost report: Report, halt: Option<Halt>,
                    rowsInBatch: int, rowsInError: int, rowsToCommit: int, reportsSoFar: seq<string>,
                    hasSink: bool)
    returns (outcome: Outcome<ImportResult>, reports: seq<string>)
    requires halt.None? ==> ctx.inTransaction
    requires result.Snapshot() == report.(rowsRead := result.rowsRead, errorMessages := result.errorMessages)
    modifies ctx, result
    ensures outcome.Returned? ==> outcome.value == result
    ensures var run := Conclude(report, StepOf(LoopState(old(result.rowsRead), rowsInBatch, rowsInError, rowsToCommit,
                                                         old(result.errorMessages), reportsSoFar, old(ctx.State())),
                                               halt),
                                hasSink);
            && reports == run.reports
            && ctx.State() == run.store
            && (run.Throws? ==> outcome == Threw(run.error))
            && (run.Returns? ==> outcome.Returned? && result.Snapshot() == run.report)
  {
    reports := reportsSoFar;
    match halt {
      case Some(h) =>
        ctx.Dispose();
        match h {
          case SaveFailed =>
            result.endTimeSet := true;
            outcome := Returned(result);
          case Cancelled =>
            outcome := Threw(OperationCanceled);
          case Faulted(e) =>
            outcome := Threw(e);
        }
      case None =>
        reports := FinishRows(ctx, result, report, rowsInBatch, rowsInError, rowsToCommit, reports, hasSink);
        outcome := Returned(result);
    }
  }

  /** What `ImportAsync` does after the last row: save the partial batch,
      commit when rows were staged, stamp the end time, and leave the
      transaction's using block. */
  method FinishRows<E>(ctx: Store<E>, result: ImportResult, ghost report: Report,
                       rowsInBatch: int, rowsInError: int, rowsToCommit: int,
                       reportsSoFar: seq<string>, hasSink: bool)
    returns (reports: seq<string>)
    requires ctx.inTransaction
    requires result.Snapshot() == report.(rowsRead := result.rowsRead, errorMessages := result.errorMessages)
    modifies ctx, result
    ensures var run := Finish(report,
                              LoopState(old(result.rowsRead), rowsInBatch, rowsInError, rowsToCommit,
                                        old(result.errorMessages), reportsSoFar, old(ctx.State())),
                              hasSink);
            && run.Returns?
            && reports == run.reports
            && ctx.State() == run.store
            && result.Snapshot() == run.report
  {
    reports := reportsSoFar;
    var toCommit := rowsToCommit;
    if rowsInBatch > 0 {
      var errors := TrySaveChanges(ctx);
      if |errors| > 0 {
        result.AddErrors(errors);
        ctx.Rollback();
        result.endTimeSet := true;
        ctx.Dispose();
        return;
      }
      toCommit := toCommit + rowsInBatch;
    }
    if toCommit > 0 {
      if hasSink {
        reports := reports + [CommittingMessage];
      }
      ctx.Commit();
      result.rowsImported := toCommit;
      if hasSink {
        reports := reports + [WrittenMessage(result.rowsImported)];
      }
    }
    ctx.Dispose();
    result.endTimeSet := true;
  }
}
