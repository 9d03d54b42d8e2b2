/** What an import reports back, and how it updates the target table. */
module ImportResults {

  /** Whether the table is cleared before the rows are loaded. */
  datatype ImportAction = Append | Replace

  /** The observable content of an `ImportResult` at one moment. The
      timestamps are only recorded as set or not set. */
  datatype Report = Report(
    importFile: string,
    dbContextType: string,
    entityType: string,
    rowsRead: int,
    rowsImported: int,
    errorMessages: seq<string>,
    startTimeSet: bool,
    endTimeSet: bool)

  /** The result record: settable properties and an error list created empty
      by the constructor. */
  class ImportResult {
    var importFile: string
    var dbContextType: string
    var entityType: string
    var rowsRead: int
    var rowsImported: int
    var errorMessages: seq<string>
    var startTimeSet: bool
    var endTimeSet: bool

    function Snapshot(): Report
      reads this
    {
      Report(importFile, dbContextType, entityType, rowsRead, rowsImported,
             errorMessages, startTimeSet, endTimeSet)
    }

    constructor ()
      ensures Snapshot() == Report("", "", "", 0, 0, [], false, false)
    {
      importFile, dbContextType, entityType := "", "", "";
      rowsRead, rowsImported := 0, 0;
      errorMessages := [];
      startTimeSet, endTimeSet := false, false;
    }

    /** `ErrorMessages.Add(message)`: appends and changes nothing else. */
    method AddError(message: string)
      modifies this
      ensures Snapshot() == old(Snapshot()).(errorMessages := old(errorMessages) + [message])
    {
      errorMessages := errorMessages + [message];
    }

    /** `ErrorMessages.AddRange(messages)`: appends in order and changes
        nothing else. */
    method AddErrors(messages: seq<string>)
      modifies this
      ensures Snapshot() == old(Snapshot()).(errorMessages := old(errorMessages) + messages)
    {
      errorMessages := errorMessages + messages;
    }
  }
}
