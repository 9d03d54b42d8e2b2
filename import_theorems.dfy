/** What the import promises, proved about `ImportSpec` (and so, through its
    postcondition, about `ImportAsync`): the loop's ledger of counters,
    staged rows and messages; the all-or-nothing effect on the table; the
    exact outcome of an import in which nothing goes wrong; and the shapes
    of the messages it writes. */
module ImportTheorems {
  import opened Wrappers
  import opened Text
  import opened DataStore
  import opened DbContextExtension
  import opened ImportResults
  import opened ImportHandler

  // ---------------------------------------------------------------------------
  // Reference definitions over the input rows

  /** The entities of the rows that parsed, in file order. */
  function ParsedRows<E>(rows: seq<RowRead<E>>): seq<E>
    decreases |rows|
  {
    if rows == [] then []
    else
      ParsedRows(rows[..|rows| - 1])
        + (match rows[|rows| - 1].outcome case Parsed(e) => [e] case Failed(_, _) => [])
  }

  /** How many rows failed to parse. */
  function FailedCount<E>(rows: seq<RowRead<E>>): nat
    decreases |rows|
  {
    if rows == [] then 0
    else FailedCount(rows[..|rows| - 1]) + (if rows[|rows| - 1].outcome.Failed? then 1 else 0)
  }

  /** The message of each row that failed to parse, in file order; the k-th
      row of the file is row k of its message. */
  function RowErrors<E>(rows: seq<RowRead<E>>): seq<string>
    decreases |rows|
  {
    if rows == [] then []
    else
      RowErrors(rows[..|rows| - 1])
        + (match rows[|rows| - 1].outcome
           case Parsed(_) => []
           case Failed(data, detail) =>
             (match ParseErrorMessage(|rows|, data, detail) case Success(m) => [m] case Failure(_) => []))
  }

  /** The progress line sent after each row. */
  function RowProgress<E>(rows: seq<RowRead<E>>): seq<string>
    decreases |rows|
  {
    if rows == [] then []
    else RowProgress(rows[..|rows| - 1]) + [ProgressLine(|rows|, FailedCount(rows))]
  }

  /** The token is never found cancelled after these rows. */
  predicate NoCancel<E>(rows: seq<RowRead<E>>) {
    forall i :: 0 <= i < |rows| ==> !rows[i].cancelRequested
  }

  /** Every failed row carries CsvHelper text a message can be built from. */
  predicate Readable<E>(rows: seq<RowRead<E>>) {
    forall i :: 0 <= i < |rows| && rows[i].outcome.Failed? ==>
      ParseErrorMessage(i + 1, rows[i].outcome.csvHelperData, rows[i].outcome.message).Success?
  }

  /** Every failure the store's save calls will throw is one EF can throw
      and the importer reports: an update failure among them has an inner
      exception that has an inner exception of its own. */
  predicate SavesWellFormed<E>(st: StoreState<E>) {
    forall i :: 0 <= i < |st.outcomes| && st.outcomes[i].Some? ==> WellFormed(st.outcomes[i].value)
  }

  /** Every save call of the store will succeed. */
  predicate SavesSucceed<E>(st: StoreState<E>) {
    forall i :: 0 <= i < |st.outcomes| ==> st.outcomes[i].None?
  }

  /** Each row read is counted exactly once: staged or in error. */
  lemma {:induction false} RowsAreParsedOrFailed<E>(rows: seq<RowRead<E>>)
    ensures |ParsedRows(rows)| + FailedCount(rows) == |rows|
    decreases |rows|
  {
    if rows != [] {
      RowsAreParsedOrFailed(rows[..|rows| - 1]);
    }
  }

  /** When every failed row is readable, each one adds exactly one message. */
  lemma {:induction false} OneMessagePerFailedRow<E>(rows: seq<RowRead<E>>)
    requires Readable(rows)
    ensures |RowErrors(rows)| == FailedCount(rows)
    decreases |rows|
  {
    if rows != [] {
      var init := rows[..|rows| - 1];
      assert Readable(init) by {
        forall i | 0 <= i < |init| && init[i].outcome.Failed?
          ensures ParseErrorMessage(i + 1, init[i].outcome.csvHelperData, init[i].outcome.message).Success?
        {
          assert init[i] == rows[i];
        }
      }
      OneMessagePerFailedRow(init);
    }
  }

  // ---------------------------------------------------------------------------
  // The loop's ledger

  /** A transaction was just opened on a context with nothing pending. */
  predicate Opened<E>(st: StoreState<E>) {
    st.inTransaction && !st.savedClear && st.saved == [] && !st.clearTracked && st.tracked == []
  }

  /** The loop before its first row. */
  predicate LoopStart<E>(start: LoopState<E>) {
    && start.rowsRead == 0 && start.rowsInBatch == 0 && start.rowsInError == 0 && start.rowsToCommit == 0
    && Opened(start.store) && SavesWellFormed(start.store)
  }

  /** What holds after the loop has read `rows` without stopping, whatever
      the store's save calls do: the counters, the messages and progress
      lines, the committed table untouched, the transaction still open, and
      the parsed rows saved or tracked in file order. */
  ghost predicate Logged<E>(start: LoopState<E>, rows: seq<RowRead<E>>, s: LoopState<E>, hasSink: bool, commitRowCount: int) {
    && Counted(rows, s, commitRowCount)
    && s.errors == start.errors + RowErrors(rows)
    && s.reports == start.reports + (if hasSink then RowProgress(rows) else [])
    && s.store.durable == start.store.durable
    && s.store.inTransaction && !s.store.savedClear && !s.store.clearTracked
    && s.store.saved + s.store.tracked == ParsedRows(rows)
  }

  /** What holds after the loop has read `rows` without stopping, on a store
      whose failures are well formed: the log, and moreover the batch is
      exactly the rows tracked and not yet saved. */
  ghost predicate Ledger<E>(start: LoopState<E>, rows: seq<RowRead<E>>, s: LoopState<E>, hasSink: bool, commitRowCount: int) {
    && Logged(start, rows, s, hasSink, commitRowCount)
    && |s.store.tracked| == s.rowsInBatch
    && SavesWellFormed(s.store)
    && (SavesSucceed(start.store) ==> SavesSucceed(s.store))
    && NoCancel(rows) && Readable(rows)
  }

  /** `errors` holds `errorsBefore`, then the messages of the rows `read`,
      then the non-empty list of a failed save. */
  predicate FailedSaveLog<E>(errorsBefore: seq<string>, read: seq<RowRead<E>>, errors: seq<string>) {
    var logged := errorsBefore + RowErrors(read);
    |logged| < |errors| && errors[..|logged|] == logged
  }

  /** What holds when the loop has stopped early while reading `rows`. */
  ghost predicate HaltLedger<E>(start: LoopState<E>, rows: seq<RowRead<E>>, s: LoopState<E>, h: Halt, commitRowCount: int) {
    && s.store.durable == start.store.durable
    && 0 <= s.rowsRead <= |rows|
    && (h.SaveFailed? ==> FailedSaveLog(start.errors, rows[..s.rowsRead], s.errors))
    && 0 <= s.rowsInBatch <= commitRowCount
    && |start.errors| <= |s.errors| && s.errors[..|start.errors|] == start.errors
    && (!h.Faulted? ==> !s.store.inTransaction)
    && (h.Faulted? ==> !Readable(rows))
    && (h.Cancelled? ==> !NoCancel(rows))
    && (h.SaveFailed? ==> !SavesSucceed(start.store))
  }

  /** A save that reports nothing, on a store whose failures are well formed,
      succeeded. */
  lemma SilentSaveSucceeded<E>(st: StoreState<E>)
    requires SavesWellFormed(st) && SaveErrorsAsWritten(NextOutcome(st)) == []
    ensures NextOutcome(st) == None
    ensures SavesWellFormed(AfterSave(st))
    ensures SavesSucceed(st) ==> SavesSucceed(AfterSave(st))
  {
    if st.outcomes != [] {
      assert NextOutcome(st) == st.outcomes[0];
      var rest := AfterSave(st).outcomes;
      assert rest == st.outcomes[1..];
      forall i | 0 <= i < |rest| && rest[i].Some? ensures WellFormed(rest[i].value) {
        assert rest[i] == st.outcomes[i + 1];
      }
      if SavesSucceed(st) {
        forall i | 0 <= i < |rest| ensures rest[i].None? {
          assert rest[i] == st.outcomes[i + 1];
        }
      }
    }
  }

  /** What holds once the last of `rows` is read and staged or recorded,
      before the cancellation check and the batch save. */
  ghost predicate StagedLedger<E>(start: LoopState<E>, rows: seq<RowRead<E>>, m: LoopState<E>, hasSink: bool, commitRowCount: int) {
    && StagedLog(start, rows, m, hasSink, commitRowCount)
    && |m.store.tracked| == m.rowsInBatch
    && SavesWellFormed(m.store)
    && (SavesSucceed(start.store) ==> SavesSucceed(m.store))
    && NoCancel(rows[..|rows| - 1]) && Readable(rows)
  }

  /** Reading a row stages it or records its message, keeping the counts. */
  lemma StageKeepsLedger<E>(start: LoopState<E>, init: seq<RowRead<E>>, s: LoopState<E>, row: RowRead<E>,
                            hasSink: bool, commitRowCount: int)
    requires commitRowCount > 0
    requires Ledger(start, init, s, hasSink, commitRowCount)
    ensures match Stage(s, row.outcome)
            case Failure(_) => !Readable(init + [row])
            case Success(m) => StagedLedger(start, init + [row], m, hasSink, commitRowCount)
  {
    var rows := init + [row];
    assert rows[..|rows| - 1] == init;
    assert rows[|init|] == row;
    match Stage(s, row.outcome) {
      case Failure(e) =>
      case Success(m) =>
        ReadableExtends(init, row);
    }
  }

  /** A row whose message can be built extends rows whose messages can. */
  lemma ReadableExtends<E>(init: seq<RowRead<E>>, row: RowRead<E>)
    requires Readable(init)
    requires row.outcome.Failed? ==>
      ParseErrorMessage(|init| + 1, row.outcome.csvHelperData, row.outcome.message).Success?
    ensures Readable(init + [row])
  {
    var rows := init + [row];
    forall i | 0 <= i < |rows| && rows[i].outcome.Failed?
      ensures ParseErrorMessage(i + 1, rows[i].outcome.csvHelperData, rows[i].outcome.message).Success?
    {
      if i < |init| {
        assert rows[i] == init[i];
      }
    }
  }

  /** The cancellation check, the batch save and the progress report keep
      the ledger, or stop the loop with the table untouched. */
  lemma AfterRowKeepsLedger<E>(start: LoopState<E>, rows: seq<RowRead<E>>, m: LoopState<E>,
                               hasSink: bool, commitRowCount: int)
    requires commitRowCount > 0
    requires StagedLedger(start, rows, m, hasSink, commitRowCount)
    ensures match AfterRow(m, rows[|rows| - 1].cancelRequested, hasSink, commitRowCount)
            case Next(t) => Ledger(start, rows, t, hasSink, commitRowCount)
            case Halted(t, h) => HaltLedger(start, rows, t, h, commitRowCount)
  {
    var last := |rows| - 1;
    AfterRowKeepsLog(start, rows, m, rows[last].cancelRequested, hasSink, commitRowCount);
    if !rows[last].cancelRequested {
      NoCancelExtends(rows);
      if m.rowsInBatch >= commitRowCount {
        BatchSaveKeepsLedger(start, rows, m, hasSink, commitRowCount);
      }
    }
  }

  /** A row read without a cancellation request extends a run of such rows. */
  lemma NoCancelExtends<E>(rows: seq<RowRead<E>>)
    requires rows != [] && NoCancel(rows[..|rows| - 1]) && !rows[|rows| - 1].cancelRequested
    ensures NoCancel(rows)
  {
    var last := |rows| - 1;
    forall i | 0 <= i < |rows| ensures !rows[i].cancelRequested {
      if i < last {
        assert rows[i] == rows[..last][i];
      }
    }
  }

  /** The batch save of a full batch: a silent save moves the batch to the
      rows awaiting the commit; a reported one stops the loop after a
      rollback, which only a failing store can cause. */
  lemma BatchSaveKeepsLedger<E>(start: LoopState<E>, rows: seq<RowRead<E>>, m: LoopState<E>,
                                hasSink: bool, commitRowCount: int)
    requires commitRowCount > 0 && m.rowsInBatch >= commitRowCount
    requires StagedLedger(start, rows, m, hasSink, commitRowCount) && NoCancel(rows)
    ensures match AfterRow(m, false, hasSink, commitRowCount)
            case Next(t) => Ledger(start, rows, t, hasSink, commitRowCount)
            case Halted(t, h) => HaltLedger(start, rows, t, h, commitRowCount)
  {
    if SaveErrorsAsWritten(NextOutcome(m.store)) == [] {
      SilentBatchSave(start, rows, m, hasSink, commitRowCount);
    } else {
      FailedBatchSave(start, rows, m, hasSink, commitRowCount);
    }
  }

  /** A batch save that reports nothing moves the batch to the rows awaiting
      the commit. */
  lemma SilentBatchSave<E>(start: LoopState<E>, rows: seq<RowRead<E>>, m: LoopState<E>,
                           hasSink: bool, commitRowCount: int)
    requires commitRowCount > 0 && m.rowsInBatch >= commitRowCount
    requires StagedLedger(start, rows, m, hasSink, commitRowCount) && NoCancel(rows)
    requires SaveErrorsAsWritten(NextOutcome(m.store)) == []
    ensures AfterRow(m, false, hasSink, commitRowCount).Next?
    ensures Ledger(start, rows, AfterRow(m, false, hasSink, commitRowCount).state, hasSink, commitRowCount)
  {
    AfterRowKeepsLog(start, rows, m, false, hasSink, commitRowCount);
    SilentSaveSucceeded(m.store);
  }

  /** A batch save that reports errors stops the loop after a rollback, with
      the save's errors after those of every row read; only a failing store
      can cause it. */
  lemma FailedBatchSave<E>(start: LoopState<E>, rows: seq<RowRead<E>>, m: LoopState<E>,
                           hasSink: bool, commitRowCount: int)
    requires commitRowCount > 0 && m.rowsInBatch >= commitRowCount
    requires StagedLedger(start, rows, m, hasSink, commitRowCount)
    requires SaveErrorsAsWritten(NextOutcome(m.store)) != []
    ensures AfterRow(m, false, hasSink, commitRowCount).Halted?
    ensures HaltLedger(start, rows, AfterRow(m, false, hasSink, commitRowCount).state,
                       AfterRow(m, false, hasSink, commitRowCount).halt, commitRowCount)
  {
    assert SavesSucceed(start.store) ==> NextOutcome(m.store) == None;
    assert rows[..m.rowsRead] == rows;
  }

  /** One turn keeps the ledger, or stops the loop with the table untouched. */
  lemma StepKeepsLedger<E>(start: LoopState<E>, init: seq<RowRead<E>>, s: LoopState<E>, row: RowRead<E>,
                           hasSink: bool, commitRowCount: int)
    requires commitRowCount > 0
    requires Ledger(start, init, s, hasSink, commitRowCount)
    ensures match ReadRow(s, row, hasSink, commitRowCount)
            case Next(t) => Ledger(start, init + [row], t, hasSink, commitRowCount)
            case Halted(t, h) => HaltLedger(start, init + [row], t, h, commitRowCount)
  {
    var rows := init + [row];
    assert rows[|rows| - 1] == row;
    StageKeepsLedger(start, init, s, row, hasSink, commitRowCount);
    if Stage(s, row.outcome).Success? {
      AfterRowKeepsLedger(start, rows, Stage(s, row.outcome).value, hasSink, commitRowCount);
    }
  }

  /** The ledger holds after every prefix of the rows the loop gets through,
      and an early stop leaves the table as it was. */
  lemma {:induction false} RunKeepsLedger<E>(start: LoopState<E>, rows: seq<RowRead<E>>, hasSink: bool, commitRowCount: int)
    requires commitRowCount > 0 && LoopStart(start)
    ensures match Run(start, rows, hasSink, commitRowCount)
            case Next(s) => Ledger(start, rows, s, hasSink, commitRowCount)
            case Halted(s, h) => HaltLedger(start, rows, s, h, commitRowCount)
    decreases |rows|
  {
    if rows != [] {
      var init := rows[..|rows| - 1];
      var last := rows[|rows| - 1];
      assert init + [last] == rows;
      RunKeepsLedger(start, init, hasSink, commitRowCount);
      match Run(start, init, hasSink, commitRowCount) {
        case Next(s) =>
          StepKeepsLedger(start, init, s, last, hasSink, commitRowCount);
        case Halted(s, h) =>
          assert rows[..s.rowsRead] == init[..s.rowsRead];
          assert !Readable(init) ==> !Readable(rows) by {
            if Readable(rows) {
              forall i | 0 <= i < |init| && init[i].outcome.Failed?
                ensures ParseErrorMessage(i + 1, init[i].outcome.csvHelperData, init[i].outcome.message).Success?
              {
                assert init[i] == rows[i];
              }
            }
          }
          assert !NoCancel(init) ==> !NoCancel(rows) by {
            if NoCancel(rows) {
              forall i | 0 <= i < |init| ensures !init[i].cancelRequested {
                assert init[i] == rows[i];
              }
            }
          }
      }
    }
  }

  // ---------------------------------------------------------------------------
  // The counters, on every store

  /** The loop's counters after it has read `rows` without stopping. They
      only count rows, so they hold whatever the store's save calls do. */
  predicate Counted<E>(rows: seq<RowRead<E>>, s: LoopState<E>, commitRowCount: int) {
    && s.rowsRead == |rows|
    && s.rowsInError == FailedCount(rows)
    && s.rowsToCommit + s.rowsInBatch == |ParsedRows(rows)|
    && 0 <= s.rowsToCommit
    && 0 <= s.rowsInBatch < commitRowCount
  }

  /** The loop's counters when it has stopped early while reading `rows`. */
  predicate HaltCounted<E>(rows: seq<RowRead<E>>, s: LoopState<E>) {
    && 0 <= s.rowsToCommit && 0 <= s.rowsInBatch
    && s.rowsToCommit + s.rowsInBatch <= s.rowsRead <= |rows|
  }

  /** Reading a row counts it once, as staged or in error. */
  lemma StageKeepsCounts<E>(init: seq<RowRead<E>>, s: LoopState<E>, row: RowRead<E>, commitRowCount: int)
    requires Counted(init, s, commitRowCount)
    ensures Stage(s, row.outcome).Success? ==>
              var m := Stage(s, row.outcome).value;
              && m.rowsRead == |init + [row]|
              && m.rowsInError == FailedCount(init + [row])
              && m.rowsToCommit + m.rowsInBatch == |ParsedRows(init + [row])|
              && 0 <= m.rowsToCommit
              && 0 <= m.rowsInBatch <= commitRowCount
    ensures Stage(s, row.outcome).Failure? ==> s.rowsToCommit + s.rowsInBatch <= |init|
  {
    var rows := init + [row];
    assert rows[..|rows| - 1] == init;
    assert rows[|rows| - 1] == row;
    RowsAreParsedOrFailed(init);
  }

  /** One turn keeps the counters, or stops the loop with at most the rows
      read counted as staged, on every store. */
  lemma StepKeepsCounts<E>(init: seq<RowRead<E>>, s: LoopState<E>, row: RowRead<E>,
                           hasSink: bool, commitRowCount: int)
    requires commitRowCount > 0 && Counted(init, s, commitRowCount)
    ensures match ReadRow(s, row, hasSink, commitRowCount)
            case Next(t) => Counted(init + [row], t, commitRowCount)
            case Halted(t, _) => HaltCounted(init + [row], t)
  {
    StageKeepsCounts(init, s, row, commitRowCount);
    RowsAreParsedOrFailed(init + [row]);
  }

  /** Whatever the store's save calls do, the counters follow the rows the
      loop gets through: after every row read without stopping they count
      the rows read, failed and staged, and the batch stays below the
      threshold; after an early stop the rows staged are at most the rows
      read. */
  lemma {:induction false} RunKeepsCounts<E>(start: LoopState<E>, rows: seq<RowRead<E>>, hasSink: bool, commitRowCount: int)
    requires commitRowCount > 0
    requires start.rowsRead == 0 && start.rowsInBatch == 0 && start.rowsInError == 0 && start.rowsToCommit == 0
    ensures match Run(start, rows, hasSink, commitRowCount)
            case Next(s) => Counted(rows, s, commitRowCount)
            case Halted(s, _) => HaltCounted(rows, s)
    decreases |rows|
  {
    if rows != [] {
      var init := rows[..|rows| - 1];
      var last := rows[|rows| - 1];
      assert init + [last] == rows;
      RunKeepsCounts(start, init, hasSink, commitRowCount);
      match Run(start, init, hasSink, commitRowCount) {
        case Next(s) =>
          StepKeepsCounts(init, s, last, hasSink, commitRowCount);
        case Halted(s, _) =>
      }
    }
  }

  /** On every store, a returning transaction part reports no more rows
      imported than read, and no more read than there are; rows are
      imported only after every row was read, and then as many as parsed. */
  lemma LoadCountsBounded<E>(report: Report, reports: seq<string>, st: StoreState<E>, rows: seq<RowRead<E>>,
                             hasSink: bool, commitRowCount: int)
    requires commitRowCount > 0 && report.rowsImported == 0
    ensures var run := Load(report, reports, st, rows, hasSink, commitRowCount);
            run.Returns? ==>
              && 0 <= run.report.rowsImported <= run.report.rowsRead <= |rows|
              && (run.report.rowsImported > 0 ==>
                    run.report.rowsRead == |rows| && run.report.rowsImported == |rows| - FailedCount(rows))
  {
    var start := LoopState(0, 0, 0, 0, report.errorMessages,
                           reports + (if hasSink then [StartReadingMessage] else []), AfterBegin(st));
    RunKeepsCounts(start, rows, hasSink, commitRowCount);
    RowsAreParsedOrFailed(rows);
  }

  /** On every store, a returning import reports `0 <= RowsImported <=
      RowsRead <= rows`, and imports rows only after reading every row, as
      many as parsed, whether or not their saves wrote them. */
  lemma ImportCountsBounded<E>(st: StoreState<E>, importCsvPath: string, contextType: string, entityType: string,
                               action: ImportAction, rows: seq<RowRead<E>>, cancelledOnEntry: bool,
                               hasSink: bool, commitRowCount: int)
    requires commitRowCount > 0
    ensures var run := ImportSpec(st, importCsvPath, contextType, entityType, action, rows,
                                  cancelledOnEntry, hasSink, commitRowCount);
            run.Returns? ==>
              && 0 <= run.report.rowsImported <= run.report.rowsRead <= |rows|
              && (run.report.rowsImported > 0 ==>
                    run.report.rowsRead == |rows| && run.report.rowsImported == |rows| - FailedCount(rows))
  {
    if !cancelledOnEntry && !(action == Replace && ClearErrors(st) != []) {
      ImportReachesLoad(st, importCsvPath, contextType, entityType, action, rows, hasSink, commitRowCount);
      LoadCountsBounded(Report(importCsvPath, contextType, entityType, 0, 0, [], true, false),
                        ClearReports(action, contextType, entityType, hasSink),
                        if action == Replace then AfterClear(st) else st, rows, hasSink, commitRowCount);
    }
  }

  /** What holds, on every store, once the last of `rows` is read and
      staged or recorded, before the cancellation check and the batch save. */
  ghost predicate StagedLog<E>(start: LoopState<E>, rows: seq<RowRead<E>>, m: LoopState<E>, hasSink: bool, commitRowCount: int) {
    && rows != []
    && m.rowsRead == |rows|
    && m.rowsInError == FailedCount(rows)
    && m.rowsToCommit + m.rowsInBatch == |ParsedRows(rows)|
    && 0 <= m.rowsToCommit
    && 0 <= m.rowsInBatch <= commitRowCount
    && m.errors == start.errors + RowErrors(rows)
    && m.reports == start.reports + (if hasSink then RowProgress(rows[..|rows| - 1]) else [])
    && m.store.durable == start.store.durable
    && m.store.inTransaction && !m.store.savedClear && !m.store.clearTracked
    && m.store.saved + m.store.tracked == ParsedRows(rows)
  }

  /** Reading a row stages it or records its message, on every store. */
  lemma StageKeepsLog<E>(start: LoopState<E>, init: seq<RowRead<E>>, s: LoopState<E>, row: RowRead<E>,
                         hasSink: bool, commitRowCount: int)
    requires Logged(start, init, s, hasSink, commitRowCount)
    ensures Stage(s, row.outcome).Success? ==>
              StagedLog(start, init + [row], Stage(s, row.outcome).value, hasSink, commitRowCount)
  {
    var rows := init + [row];
    assert rows[..|rows| - 1] == init;
    assert rows[|rows| - 1] == row;
    StageKeepsCounts(init, s, row, commitRowCount);
  }

  /** The cancellation check, the batch save and the progress line keep the
      log on every store, or stop the loop with the committed table
      untouched. */
  lemma AfterRowKeepsLog<E>(start: LoopState<E>, rows: seq<RowRead<E>>, m: LoopState<E>, cancelRequested: bool,
                            hasSink: bool, commitRowCount: int)
    requires commitRowCount > 0 && StagedLog(start, rows, m, hasSink, commitRowCount)
    ensures match AfterRow(m, cancelRequested, hasSink, commitRowCount)
            case Next(t) => Logged(start, rows, t, hasSink, commitRowCount)
            case Halted(t, _) => t.store.durable == start.store.durable && HaltCounted(rows, t)
  {
    RowsAreParsedOrFailed(rows);
  }

  /** One turn keeps the log on every store, or stops the loop with the
      committed table untouched. */
  lemma StepKeepsLog<E>(start: LoopState<E>, init: seq<RowRead<E>>, s: LoopState<E>, row: RowRead<E>,
                        hasSink: bool, commitRowCount: int)
    requires commitRowCount > 0 && Logged(start, init, s, hasSink, commitRowCount)
    ensures match ReadRow(s, row, hasSink, commitRowCount)
            case Next(t) => Logged(start, init + [row], t, hasSink, commitRowCount)
            case Halted(t, _) => t.store.durable == start.store.durable && HaltCounted(init + [row], t)
  {
    StageKeepsLog(start, init, s, row, hasSink, commitRowCount);
    StageKeepsCounts(init, s, row, commitRowCount);
    if Stage(s, row.outcome).Success? {
      AfterRowKeepsLog(start, init + [row], Stage(s, row.outcome).value, row.cancelRequested, hasSink, commitRowCount);
    } else {
      RowsAreParsedOrFailed(init);
    }
  }

  /** Whatever the store's save calls do, the loop keeps its log after every
      row it reads without stopping, and an early stop leaves the committed
      table as it was. */
  lemma {:induction false} RunKeepsLog<E>(start: LoopState<E>, rows: seq<RowRead<E>>, hasSink: bool, commitRowCount: int)
    requires commitRowCount > 0 && Opened(start.store)
    requires start.rowsRead == 0 && start.rowsInBatch == 0 && start.rowsInError == 0 && start.rowsToCommit == 0
    ensures match Run(start, rows, hasSink, commitRowCount)
            case Next(s) => Logged(start, rows, s, hasSink, commitRowCount)
            case Halted(s, _) => s.store.durable == start.store.durable && HaltCounted(rows, s)
    decreases |rows|
  {
    if rows != [] {
      var init := rows[..|rows| - 1];
      var last := rows[|rows| - 1];
      assert init + [last] == rows;
      RunKeepsLog(start, init, hasSink, commitRowCount);
      match Run(start, init, hasSink, commitRowCount) {
        case Next(s) =>
          StepKeepsLog(start, init, s, last, hasSink, commitRowCount);
        case Halted(s, _) =>
      }
    }
  }

  /** One turn inside an open transaction leaves the committed table alone,
      and keeps the transaction open unless the loop stops. */
  lemma StepKeepsTable<E>(s: LoopState<E>, row: RowRead<E>, hasSink: bool, commitRowCount: int)
    requires s.store.inTransaction
    ensures match ReadRow(s, row, hasSink, commitRowCount)
            case Next(t) => t.store.durable == s.store.durable && t.store.inTransaction
            case Halted(t, _) => t.store.durable == s.store.durable
  {
  }

  /** Whatever the store holds and its save calls do, the loop inside an
      open transaction never changes the committed table. */
  lemma {:induction false} RunKeepsTable<E>(start: LoopState<E>, rows: seq<RowRead<E>>, hasSink: bool, commitRowCount: int)
    requires start.store.inTransaction
    ensures match Run(start, rows, hasSink, commitRowCount)
            case Next(s) => s.store.durable == start.store.durable && s.store.inTransaction
            case Halted(s, _) => s.store.durable == start.store.durable
    decreases |rows|
  {
    if rows != [] {
      RunKeepsTable(start, rows[..|rows| - 1], hasSink, commitRowCount);
      match Run(start, rows[..|rows| - 1], hasSink, commitRowCount) {
        case Next(s) =>
          StepKeepsTable(s, rows[|rows| - 1], hasSink, commitRowCount);
        case Halted(s, _) =>
      }
    }
  }

  /** Whatever the store's save calls do, the transaction part leaves no
      transaction open, a throw leaves the committed table as it was, and a
      returned result has its end time set. */
  lemma LoadKeepsTableOnThrow<E>(report: Report, reports: seq<string>, st: StoreState<E>, rows: seq<RowRead<E>>,
                                 hasSink: bool, commitRowCount: int)
    ensures var run := Load(report, reports, st, rows, hasSink, commitRowCount);
            && !run.store.inTransaction
            && (run.Throws? ==> run.store.durable == st.durable)
            && (run.Returns? ==> run.report.endTimeSet)
  {
    var start := LoopState(0, 0, 0, 0, report.errorMessages,
                           reports + (if hasSink then [StartReadingMessage] else []), AfterBegin(st));
    RunKeepsTable(start, rows, hasSink, commitRowCount);
  }

  /** Whatever the store's save calls do, an import on a new context leaves
      no transaction open, sets the end time on every result it returns, and
      when it throws, a cancellation included, leaves the table as the clear
      step left it: nothing is committed. */
  lemma ImportKeepsTableOnThrow<E>(st: StoreState<E>, importCsvPath: string, contextType: string, entityType: string,
                                   action: ImportAction, rows: seq<RowRead<E>>, cancelledOnEntry: bool,
                                   hasSink: bool, commitRowCount: int)
    requires st.IsFresh()
    ensures var run := ImportSpec(st, importCsvPath, contextType, entityType, action, rows,
                                  cancelledOnEntry, hasSink, commitRowCount);
            && !run.store.inTransaction
            && (run.Returns? ==> run.report.endTimeSet)
            && (run.Throws? ==>
                  run.store.durable == if cancelledOnEntry || action == Append then st.durable else AfterClear(st).durable)
  {
    if !cancelledOnEntry && !(action == Replace && ClearErrors(st) != []) {
      ImportReachesLoad(st, importCsvPath, contextType, entityType, action, rows, hasSink, commitRowCount);
      LoadKeepsTableOnThrow(Report(importCsvPath, contextType, entityType, 0, 0, [], true, false),
                            ClearReports(action, contextType, entityType, hasSink),
                            if action == Replace then AfterClear(st) else st, rows, hasSink, commitRowCount);
    }
  }

  // ---------------------------------------------------------------------------
  // The effect of a whole import on the table

  /** The table once any clearing is done, before the transaction opens: a
      successful clear for `Replace` has already emptied it for good. */
  function TableBeforeLoad<E>(st: StoreState<E>, action: ImportAction): seq<E> {
    if action == Replace && ClearErrors(st) == [] then [] else st.durable
  }

  /** Every way out of an import leaves `table` as it is, except a commit,
      which appends exactly the parsed rows in file order, after every row was
      read, none was cancelled, and with exactly the rows' messages added to
      `errorsBefore`. No transaction is left open. A returned result either
      ends with the list of a failed save, after the messages of the rows
      read so far, and imports nothing; or it has read every row and holds
      exactly their messages. */
  ghost predicate AllOrNothing<E>(table: seq<E>, rows: seq<RowRead<E>>, errorsBefore: seq<string>, run: ImportRun<E>) {
    && !run.store.inTransaction
    && (run.Throws? ==> run.store.durable == table)
    && (run.Returns? ==>
          && run.report.endTimeSet
          && 0 <= run.report.rowsRead <= |rows|
          && (FailedSaveLog(errorsBefore, rows[..run.report.rowsRead], run.report.errorMessages) ==>
                run.report.rowsImported == 0 && run.store.durable == table)
          && (!FailedSaveLog(errorsBefore, rows[..run.report.rowsRead], run.report.errorMessages) ==>
                run.report.rowsRead == |rows| && run.report.errorMessages == errorsBefore + RowErrors(rows))
          && 0 <= run.report.rowsImported <= run.report.rowsRead
          && (run.report.rowsImported == 0 ==> run.store.durable == table)
          && (run.report.rowsImported > 0 ==>
                && run.store.durable == table + ParsedRows(rows)
                && run.report.rowsRead == |rows|
                && run.report.rowsImported == |rows| - FailedCount(rows)
                && run.report.errorMessages == errorsBefore + RowErrors(rows)
                && NoCancel(rows) && Readable(rows)))
  }

  /** The part inside the transaction is all or nothing. */
  lemma LoadIsAllOrNothing<E>(report: Report, reports: seq<string>, st: StoreState<E>, rows: seq<RowRead<E>>,
                              hasSink: bool, commitRowCount: int)
    requires commitRowCount > 0
    requires !st.inTransaction && !st.clearTracked && st.tracked == [] && SavesWellFormed(st)
    requires report.rowsImported == 0
    ensures AllOrNothing(st.durable, rows, report.errorMessages, Load(report, reports, st, rows, hasSink, commitRowCount))
  {
    var start := LoopState(0, 0, 0, 0, report.errorMessages,
                           reports + (if hasSink then [StartReadingMessage] else []), AfterBegin(st));
    RunKeepsLedger(start, rows, hasSink, commitRowCount);
    match Run(start, rows, hasSink, commitRowCount) {
      case Halted(s, h) =>
        HaltIsAllOrNothing(report, start, rows, s, h, hasSink, commitRowCount);
      case Next(s) =>
        FinishIsAllOrNothing(report, start, rows, s, hasSink, commitRowCount);
    }
  }

  /** A loop that stopped early ends the import with the table untouched;
      after a failed save it returns the save's list and imports nothing. */
  lemma HaltIsAllOrNothing<E>(report: Report, start: LoopState<E>, rows: seq<RowRead<E>>, s: LoopState<E>, h: Halt,
                              hasSink: bool, commitRowCount: int)
    requires HaltLedger(start, rows, s, h, commitRowCount)
    requires start.errors == report.errorMessages && report.rowsImported == 0
    ensures AllOrNothing(start.store.durable, rows, report.errorMessages, Conclude(report, Halted(s, h), hasSink))
  {
  }

  /** After the last row, the final save and the commit are all or nothing. */
  lemma FinishIsAllOrNothing<E>(report: Report, start: LoopState<E>, rows: seq<RowRead<E>>, s: LoopState<E>,
                                hasSink: bool, commitRowCount: int)
    requires Ledger(start, rows, s, hasSink, commitRowCount)
    requires start.errors == report.errorMessages && report.rowsImported == 0
    ensures AllOrNothing(start.store.durable, rows, report.errorMessages, Finish(report, s, hasSink))
  {
    RowsAreParsedOrFailed(rows);
    assert rows[..s.rowsRead] == rows;
    if s.rowsInBatch > 0 && SaveErrorsAsWritten(NextOutcome(s.store)) == [] {
      SilentSaveSucceeded(s.store);
    }
  }

  /** A clear of a fresh context that reports nothing empties the table for
      good and leaves the context fresh; one that reports errors leaves the
      table as it was. */
  lemma ClearOutcome<E>(st: StoreState<E>)
    requires st.IsFresh() && SavesWellFormed(st)
    ensures !AfterClear(st).inTransaction && SavesWellFormed(AfterClear(st))
    ensures ClearErrors(st) == [] ==> AfterClear(st).IsFresh()
    ensures AfterClear(st).durable == if ClearErrors(st) == [] then [] else st.durable
    ensures SavesSucceed(st) ==> ClearErrors(st) == [] && SavesSucceed(AfterClear(st))
  {
    if |st.durable| > 0 {
      if ClearErrors(st) == [] {
        SilentSaveSucceeded(st.(clearTracked := true));
      } else {
        assert NextOutcome(st).Some?;
        assert SavesWellFormed(AfterClear(st)) by {
          var rest := AfterClear(st).outcomes;
          forall i | 0 <= i < |rest| && rest[i].Some? ensures WellFormed(rest[i].value) {
            assert rest[i] == st.outcomes[i + 1];
          }
        }
        assert SavesSucceed(st) ==> NextOutcome(st).None?;
      }
    }
  }

  /** The progress reports made before the transaction opens. */
  function ClearReports(action: ImportAction, contextType: string, entityType: string, hasSink: bool): seq<string> {
    if hasSink && action == Replace then [ClearingMessage(entityType, contextType), ClearedMessage(entityType)] else []
  }

  /** Unless the call is cancelled on entry or the clear fails, the import is
      its transaction part, started from what the clear step left. */
  lemma ImportReachesLoad<E>(st: StoreState<E>, importCsvPath: string, contextType: string, entityType: string,
                             action: ImportAction, rows: seq<RowRead<E>>, hasSink: bool, commitRowCount: int)
    requires action == Replace ==> ClearErrors(st) == []
    ensures ImportSpec(st, importCsvPath, contextType, entityType, action, rows, false, hasSink, commitRowCount)
         == Load(Report(importCsvPath, contextType, entityType, 0, 0, [], true, false),
                 ClearReports(action, contextType, entityType, hasSink),
                 if action == Replace then AfterClear(st) else st, rows, hasSink, commitRowCount)
  {
    if action == Replace {
      var reports: seq<string> := if hasSink then [ClearingMessage(entityType, contextType)] else [];
      assert reports + (if hasSink then [ClearedMessage(entityType)] else [])
          == ClearReports(action, contextType, entityType, hasSink);
    }
  }

  /** The import is all or nothing: a call that throws, or returns without
      importing, leaves the table as the clear step left it (as it was, when
      the call was cancelled on entry); one that imports appends exactly the
      parsed rows, in file order, and reports `RowsImported = RowsRead -
      rows in error`. A failed clear ends the call with exactly the clear's
      errors and the table untouched. */
  lemma ImportIsAllOrNothing<E>(st: StoreState<E>, importCsvPath: string, contextType: string, entityType: string,
                                action: ImportAction, rows: seq<RowRead<E>>, cancelledOnEntry: bool,
                                hasSink: bool, commitRowCount: int)
    requires commitRowCount > 0 && st.IsFresh() && SavesWellFormed(st)
    ensures var run := ImportSpec(st, importCsvPath, contextType, entityType, action, rows,
                                  cancelledOnEntry, hasSink, commitRowCount);
            AllOrNothing(if cancelledOnEntry then st.durable else TableBeforeLoad(st, action), rows, [], run)
    ensures var run := ImportSpec(st, importCsvPath, contextType, entityType, action, rows,
                                  cancelledOnEntry, hasSink, commitRowCount);
            run.Returns? ==>
              && run.report.startTimeSet
              && run.report.importFile == importCsvPath
              && run.report.dbContextType == contextType
              && run.report.entityType == entityType
    ensures var run := ImportSpec(st, importCsvPath, contextType, entityType, action, rows,
                                  cancelledOnEntry, hasSink, commitRowCount);
            !cancelledOnEntry && action == Replace && ClearErrors(st) != [] ==>
              && run.Returns?
              && run.report == Report(importCsvPath, contextType, entityType, 0, 0, ClearErrors(st), true, true)
              && run.store.durable == st.durable
  {
    var run := ImportSpec(st, importCsvPath, contextType, entityType, action, rows,
                          cancelledOnEntry, hasSink, commitRowCount);
    if cancelledOnEntry {
      assert run == Throws(OperationCanceled, [], st);
    } else if action == Replace && ClearErrors(st) != [] {
      ClearOutcome(st);
      assert run.Returns? && run.store == AfterClear(st);
      assert rows[..0] == [];
    } else {
      if action == Replace {
        ClearOutcome(st);
      }
      var report := Report(importCsvPath, contextType, entityType, 0, 0, [], true, false);
      var st1 := if action == Replace then AfterClear(st) else st;
      ImportReachesLoad(st, importCsvPath, contextType, entityType, action, rows, hasSink, commitRowCount);
      LoadIsAllOrNothing(report, ClearReports(action, contextType, entityType, hasSink), st1, rows, hasSink, commitRowCount);
      LoadKeepsReport(report, ClearReports(action, contextType, entityType, hasSink), st1, rows, hasSink, commitRowCount);
    }
  }

  /** Without the two-level chain the import is not all or nothing: a batch
      save that fails with an update failure whose inner exception has no
      inner exception of its own reports no error, the loop goes on, the
      transaction commits with nothing saved, and the result counts the row
      as imported while it is still only tracked. */
  lemma SwallowedSaveCountsUnsavedRow()
    ensures var st := StoreState([], false, false, [], false, [],
                                 [Some(Update("upd", Some(Exception("inner", None))))]);
            var run := ImportSpec(st, "rows.csv", "Ctx", "Row", Append, [RowRead(Parsed(7), false)],
                                  false, false, 1);
            && run.Returns?
            && run.report.rowsRead == 1 && run.report.rowsImported == 1 && run.report.errorMessages == []
            && run.store.durable == [] && run.store.tracked == [7]
  {
    var st := StoreState([], false, false, [], false, [], [Some(Update("upd", Some(Exception("inner", None))))]);
    var rows := [RowRead(Parsed(7), false)];
    var start := LoopState(0, 0, 0, 0, [], [], AfterBegin(st));
    assert rows[..0] == [];
    assert SaveErrorsAsWritten(NextOutcome(AfterBegin(st).(tracked := [7]))) == [];
    var s := LoopState(1, 0, 0, 1, [], [], AfterSave(AfterBegin(st).(tracked := [7])));
    assert Run(start, rows, false, 1) == Next(s);
  }

  /** The same at the batch size `ImportAsync` uses: the one row waits for
      the final save, which fails the same way, and the commit counts the
      row as imported while nothing was written. */
  lemma SwallowedFinalSaveCountsUnsavedRow()
    ensures var st := StoreState([], false, false, [], false, [],
                                 [Some(Update("upd", Some(Exception("inner", None))))]);
            var run := ImportSpec(st, "rows.csv", "Ctx", "Row", Append, [RowRead(Parsed(7), false)],
                                  false, false, CommitRowCount);
            && run.Returns?
            && run.report.rowsRead == 1 && run.report.rowsImported == 1 && run.report.errorMessages == []
            && run.store.durable == [] && run.store.tracked == [7]
  {
    var st := StoreState([], false, false, [], false, [], [Some(Update("upd", Some(Exception("inner", None))))]);
    var rows := [RowRead(Parsed(7), false)];
    var start := LoopState(0, 0, 0, 0, [], [], AfterBegin(st));
    assert rows[..0] == [];
    var s := LoopState(1, 1, 0, 0, [], [], AfterBegin(st).(tracked := [7]));
    assert Run(start, rows, false, CommitRowCount) == Next(s);
    assert SaveErrorsAsWritten(NextOutcome(s.store)) == [];
  }

  /** A returning import keeps the file and type names and the start stamp. */
  lemma LoadKeepsReport<E>(report: Report, reports: seq<string>, st: StoreState<E>, rows: seq<RowRead<E>>,
                           hasSink: bool, commitRowCount: int)
    ensures var run := Load(report, reports, st, rows, hasSink, commitRowCount);
            run.Returns? ==>
              && run.report.startTimeSet == report.startTimeSet
              && run.report.importFile == report.importFile
              && run.report.dbContextType == report.dbContextType
              && run.report.entityType == report.entityType
  {
  }

  /** The transaction part of an import in which every save succeeds, no row
      is cancelled and every failed row is readable. */
  lemma CleanLoad<E>(report: Report, reports: seq<string>, st: StoreState<E>, rows: seq<RowRead<E>>,
                     hasSink: bool, commitRowCount: int)
    requires commitRowCount > 0
    requires !st.inTransaction && !st.clearTracked && st.tracked == [] && SavesSucceed(st)
    requires NoCancel(rows) && Readable(rows)
    requires report.rowsImported == 0
    ensures var run := Load(report, reports, st, rows, hasSink, commitRowCount);
            var imported := |ParsedRows(rows)|;
            && run.Returns?
            && run.report == report.(rowsRead := |rows|, rowsImported := imported,
                                     errorMessages := report.errorMessages + RowErrors(rows), endTimeSet := true)
            && run.reports == reports + (if hasSink then [StartReadingMessage] else [])
                                      + (if hasSink then RowProgress(rows) else [])
                                      + (if hasSink && imported > 0 then [CommittingMessage, WrittenMessage(imported)] else [])
            && run.store.durable == st.durable + ParsedRows(rows)
            && !run.store.inTransaction
  {
    var start := LoopState(0, 0, 0, 0, report.errorMessages,
                           reports + (if hasSink then [StartReadingMessage] else []), AfterBegin(st));
    assert SavesWellFormed(st);
    RunKeepsLedger(start, rows, hasSink, commitRowCount);
    RowsAreParsedOrFailed(rows);
    match Run(start, rows, hasSink, commitRowCount) {
      case Halted(s, h) =>
        assert false;
      case Next(s) =>
        CleanFinish(report, start, rows, s, hasSink, commitRowCount);
    }
  }

  /** After a clean loop, the last save succeeds and the commit makes every
      parsed row durable. */
  lemma CleanFinish<E>(report: Report, start: LoopState<E>, rows: seq<RowRead<E>>, s: LoopState<E>,
                       hasSink: bool, commitRowCount: int)
    requires Ledger(start, rows, s, hasSink, commitRowCount) && SavesSucceed(start.store)
    requires |ParsedRows(rows)| + FailedCount(rows) == |rows| && report.rowsImported == 0
    ensures var run := Finish(report, s, hasSink);
            var imported := |ParsedRows(rows)|;
            && run.Returns?
            && run.report == report.(rowsRead := |rows|, rowsImported := imported,
                                     errorMessages := start.errors + RowErrors(rows), endTimeSet := true)
            && run.reports == start.reports + (if hasSink then RowProgress(rows) else [])
                                            + (if hasSink && imported > 0 then [CommittingMessage, WrittenMessage(imported)] else [])
            && run.store.durable == start.store.durable + ParsedRows(rows)
            && !run.store.inTransaction
  {
    assert SavesSucceed(s.store);
    if s.rowsInBatch > 0 {
      assert NextOutcome(s.store) == None;
    }
  }

  /** An import in which every save succeeds, no row is cancelled and every
      failed row is readable stores exactly the parsed rows, in file order,
      after what the clear step left, and reports every row read, every
      parsed row imported and every failed row's message. */
  lemma CleanImportStoresParsedRows<E>(st: StoreState<E>, importCsvPath: string, contextType: string, entityType: string,
                                       action: ImportAction, rows: seq<RowRead<E>>, hasSink: bool, commitRowCount: int)
    requires commitRowCount > 0 && st.IsFresh() && SavesSucceed(st)
    requires NoCancel(rows) && Readable(rows)
    ensures var run := ImportSpec(st, importCsvPath, contextType, entityType, action, rows, false, hasSink, commitRowCount);
            var imported := |ParsedRows(rows)|;
            && run.Returns?
            && run.report == Report(importCsvPath, contextType, entityType, |rows|, imported, RowErrors(rows), true, true)
            && run.reports == ClearReports(action, contextType, entityType, hasSink)
                              + (if hasSink then [StartReadingMessage] else [])
                              + (if hasSink then RowProgress(rows) else [])
                              + (if hasSink && imported > 0 then [CommittingMessage, WrittenMessage(imported)] else [])
            && run.store.durable == (if action == Replace then [] else st.durable) + ParsedRows(rows)
            && !run.store.inTransaction
  {
    assert SavesWellFormed(st);
    if action == Replace {
      ClearOutcome(st);
    }
    var st1 := if action == Replace then AfterClear(st) else st;
    ImportReachesLoad(st, importCsvPath, contextType, entityType, action, rows, hasSink, commitRowCount);
    CleanLoad(Report(importCsvPath, contextType, entityType, 0, 0, [], true, false),
              ClearReports(action, contextType, entityType, hasSink), st1, rows, hasSink, commitRowCount);
  }

  // ---------------------------------------------------------------------------
  // Messages

  /** The Field Index line gives back the text between its quotes, read as
      `int.TryParse` reads it, 0 when that fails. */
  lemma FieldIndexText(text: string)
    requires FieldIndexPrefix[0] !in text && FieldIndexSuffix[0] !in text
    ensures FieldIndex(FieldIndexPrefix + text + FieldIndexSuffix) == TryParseInt32(text).GetOr(0)
  {
    var rest := text + FieldIndexSuffix;
    assert FieldIndexPrefix + text + FieldIndexSuffix == FieldIndexPrefix + rest;
    RemoveAllLeading(FieldIndexPrefix, rest);
    assert FieldIndexPrefix[0] !in FieldIndexSuffix;
    assert FieldIndexPrefix[0] !in rest;
    RemoveAllKeepsPrefix(rest, [], FieldIndexPrefix);
    assert rest + [] == rest;
    RemoveAllKeepsPrefix(text, FieldIndexSuffix, FieldIndexSuffix);
    RemoveAllLeading(FieldIndexSuffix, []);
    assert FieldIndexSuffix + [] == FieldIndexSuffix;
    assert text + [] == text;
  }

  /** The Field Value line gives back the value after its prefix. */
  lemma FieldValueText(value: string)
    requires !Occurs(FieldValuePrefix, value)
    ensures FieldValue(FieldValuePrefix + value) == value
  {
    RemoveAllLeading(FieldValuePrefix, value);
    RemoveAllAbsent(value, FieldValuePrefix);
  }

  /** CsvHelper text whose lines hold no carriage return splits back into
      its lines. */
  lemma SplitCsvHelperLines(line0: string, line1: string, indexText: string, value: string, more: seq<string>)
    requires '\r' !in line0 && '\r' !in line1 && '\r' !in indexText && '\r' !in value
    requires forall i :: 0 <= i < |more| ==> '\r' !in more[i]
    ensures var lines := [line0, line1, FieldIndexPrefix + indexText + FieldIndexSuffix, FieldValuePrefix + value] + more;
            Split(Join(lines, CsvHelperLineBreak), CsvHelperLineBreak) == lines
  {
    var lines := [line0, line1, FieldIndexPrefix + indexText + FieldIndexSuffix, FieldValuePrefix + value] + more;
    assert '\r' !in FieldIndexPrefix && '\r' !in FieldIndexSuffix && '\r' !in FieldValuePrefix;
    forall i | 0 <= i < |lines| ensures CsvHelperLineBreak[0] !in lines[i] {
      if i >= 4 {
        assert lines[i] == more[i - 4];
      }
    }
    JoinThenSplit(lines, CsvHelperLineBreak);
  }

  /** The message for a row that failed to parse, from CsvHelper text whose
      third line names the field index and whose fourth gives the value:
      "Row r, column c has invalid value v. detail", where r is the running
      row count and c the 0-based index plus one, or 1 when the index is not
      a number. */
  lemma ParseErrorMessageFormat(rowsRead: int, line0: string, line1: string, indexText: string, value: string,
                                more: seq<string>, detail: string)
    requires '\r' !in line0 && '\r' !in line1 && '\r' !in indexText && '\r' !in value
    requires forall i :: 0 <= i < |more| ==> '\r' !in more[i]
    requires FieldIndexPrefix[0] !in indexText && FieldIndexSuffix[0] !in indexText
    requires !Occurs(FieldValuePrefix, value)
    ensures var column := match TryParseInt32(indexText) case Some(k) => AddInt32(k, 1) case None => 1;
            var data := Join([line0, line1, FieldIndexPrefix + indexText + FieldIndexSuffix, FieldValuePrefix + value] + more,
                             CsvHelperLineBreak);
            ParseErrorMessage(rowsRead, Some(data), detail)
              == Success("Row " + IntToString(rowsRead) + ", column " + IntToString(column)
                         + " has invalid value " + value + ". " + detail)
  {
    var lines := [line0, line1, FieldIndexPrefix + indexText + FieldIndexSuffix, FieldValuePrefix + value] + more;
    var data := Join(lines, CsvHelperLineBreak);
    SplitCsvHelperLines(line0, line1, indexText, value, more);
    FieldIndexText(indexText);
    FieldValueText(value);
    MessageFromLines(rowsRead, data, detail, lines);
  }

  /** The message built from CsvHelper text of at least four lines. */
  lemma MessageFromLines(rowsRead: int, data: string, detail: string, lines: seq<string>)
    requires Split(data, CsvHelperLineBreak) == lines && |lines| >= 4
    ensures ParseErrorMessage(rowsRead, Some(data), detail)
         == Success("Row " + IntToString(rowsRead) + ", column " + IntToString(AddInt32(FieldIndex(lines[2]), 1))
                    + " has invalid value " + FieldValue(lines[3]) + ". " + detail)
  {
  }

  /** The column of a well-formed message is the 0-based field index plus
      one. */
  lemma ParseErrorColumnIsOneBased(rowsRead: int, line0: string, line1: string, index: int, value: string,
                                   more: seq<string>, detail: string)
    requires '\r' !in line0 && '\r' !in line1 && '\r' !in value
    requires forall i :: 0 <= i < |more| ==> '\r' !in more[i]
    requires 0 <= index < Int32Max
    requires !Occurs(FieldValuePrefix, value)
    ensures var data := Join([line0, line1, FieldIndexPrefix + IntToString(index) + FieldIndexSuffix, FieldValuePrefix + value] + more,
                             CsvHelperLineBreak);
            ParseErrorMessage(rowsRead, Some(data), detail)
              == Success("Row " + IntToString(rowsRead) + ", column " + IntToString(index + 1)
                         + " has invalid value " + value + ". " + detail)
  {
    DigitsParseBack(index);
    ParseErrorMessageFormat(rowsRead, line0, line1, IntToString(index), value, more, detail);
  }

  /** The text of a field index below the largest `int` holds no character
      of the line break or of the markers around it, and reads back as the
      column one past it. */
  lemma DigitsParseBack(index: int)
    requires 0 <= index < Int32Max
    ensures '\r' !in IntToString(index)
    ensures FieldIndexPrefix[0] !in IntToString(index) && FieldIndexSuffix[0] !in IntToString(index)
    ensures (match TryParseInt32(IntToString(index)) case Some(k) => AddInt32(k, 1) case None => 1) == index + 1
  {
    var digits := IntToString(index);
    forall c | c in digits ensures IsDigit(c) {
      var i :| 0 <= i < |digits| && digits[i] == c;
    }
    ParseFormatRoundTrip(index);
  }

  /** Joining a part in front of at least one more. */
  lemma JoinCons(p: string, parts: seq<string>, sep: string)
    requires |parts| > 0
    ensures Join([p] + parts, sep) == p + sep + Join(parts, sep)
  {
    assert ([p] + parts)[1..] == parts;
  }

  lemma ConcatAssoc(a: string, b: string, c: string)
    ensures a + b + c == a + (b + c)
  {
  }

  /** The progress line is its six words joined by single spaces. */
  lemma ProgressLineWords(n: string, noun: string, e: string, verb: string)
    ensures n + " " + noun + " read, " + e + " " + verb + " error"
         == Join([n, noun, "read,", e, verb, "error"], " ")
  {
    var sp := " ";
    var rd := "read,";
    var er := "error";
    var t5 := verb + sp + er;
    var t4 := e + sp + t5;
    var t3 := rd + sp + t4;
    var t2 := noun + sp + t3;
    JoinCons(verb, [er], sp);
    JoinCons(e, [verb, er], sp);
    JoinCons(rd, [e, verb, er], sp);
    JoinCons(noun, [rd, e, verb, er], sp);
    JoinCons(n, [noun, rd, e, verb, er], sp);
    assert Join([n, noun, rd, e, verb, er], sp) == n + sp + t2;
    assert " read, " == sp + rd + sp;
    assert " error" == sp + er;
    calc {
      n + sp + noun + (sp + rd + sp) + e + sp + verb + (sp + er);
      { ConcatAssoc(n + sp + noun + (sp + rd + sp) + e + sp, verb, sp + er); ConcatAssoc(verb, sp, er); }
      n + sp + noun + (sp + rd + sp) + e + sp + t5;
      { ConcatAssoc(n + sp + noun + (sp + rd + sp) + e, sp, t5);
        ConcatAssoc(n + sp + noun + (sp + rd + sp), e, sp + t5); }
      n + sp + noun + (sp + rd + sp) + t4;
      { ConcatAssoc(n + sp + noun, sp + rd + sp, t4); ConcatAssoc(sp + rd, sp, t4); ConcatAssoc(sp, rd, sp + t4); }
      n + sp + noun + (sp + t3);
      { ConcatAssoc(n + sp, noun, sp + t3); ConcatAssoc(noun, sp, t3); }
      n + sp + t2;
    }
  }

  /** The progress line reads back as six words: the row count, "row" exactly
      when it is 1 and "rows" otherwise, "read,", the error count, "has"
      exactly when it is 1 and "have" otherwise, and "error". */
  lemma ProgressLineReadsBack(rowsRead: int, rowsInError: int)
    requires InInt32(rowsRead) && InInt32(rowsInError)
    ensures var words := Split(ProgressLine(rowsRead, rowsInError), " ");
            && |words| == 6
            && TryParseInt32(words[0]) == Some(rowsRead)
            && (words[1] == "row" <==> rowsRead == 1)
            && (words[1] == "rows" <==> rowsRead != 1)
            && words[2] == "read,"
            && TryParseInt32(words[3]) == Some(rowsInError)
            && (words[4] == "has" <==> rowsInError == 1)
            && (words[4] == "have" <==> rowsInError != 1)
            && words[5] == "error"
  {
    var n := IntToString(rowsRead);
    var e := IntToString(rowsInError);
    var words := [n, if rowsRead != 1 then "rows" else "row", "read,", e, if rowsInError != 1 then "have" else "has", "error"];
    ProgressLineWords(n, words[1], e, words[4]);
    assert ' ' !in n && ' ' !in e;
    assert forall i :: 0 <= i < |words| ==> " "[0] !in words[i];
    JoinThenSplit(words, " ");
    ParseFormatRoundTrip(rowsRead);
    ParseFormatRoundTrip(rowsInError);
  }
}
