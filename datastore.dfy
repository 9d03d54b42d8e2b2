/** An abstract stand-in for the Entity Framework context the importer writes
    through: one table of entities, a change tracker, an optional open
    transaction, and the exceptions that `SaveChangesAsync` can throw.

    What each `SaveChanges` call does is not decided here: the store carries
    the sequence of outcomes of its successive save calls (success once the
    sequence is used up), so that every failure shape can be studied. */
module DataStore {
  import opened Wrappers

  // ---------------------------------------------------------------------------
  // Exception shapes thrown by SaveChangesAsync

  /** `DbEntityEntry.State`. */
  datatype EntityState = Detached | Unchanged | Added | Deleted | Modified {
    /** The enum member's name, as `ToString()` gives it. */
    function Name(): string {
      match this
      case Detached => "Detached"
      case Unchanged => "Unchanged"
      case Added => "Added"
      case Deleted => "Deleted"
      case Modified => "Modified"
    }
  }

  /** One `DbValidationError`. */
  datatype PropertyError = PropertyError(propertyName: string, errorMessage: string)

  /** One `DbEntityValidationResult`: the entry's state, the entity's type
      name and the property errors found on it, in order. */
  datatype EntityValidation = EntityValidation(state: EntityState, entityTypeName: string, errors: seq<PropertyError>)

  /** An exception with its chain of inner exceptions. */
  datatype Exception = Exception(message: string, inner: Option<Exception>)

  /** What a failed `SaveChangesAsync` throws. */
  datatype DbException =
    | Validation(entityErrors: seq<EntityValidation>)       // DbEntityValidationException
    | Update(message: string, inner: Option<Exception>)     // DbUpdateException
    | Other(message: string, inner: Option<Exception>)      // any other exception

  // ---------------------------------------------------------------------------
  // The store's state as a value

  datatype StoreState<E> = StoreState(
    durable: seq<E>,                      // committed rows of the table
    inTransaction: bool,                  // a transaction is open
    savedClear: bool,                     // a clear of the table was saved inside the open transaction
    saved: seq<E>,                        // rows saved inside the open transaction
    clearTracked: bool,                   // every row is marked deleted but not yet saved
    tracked: seq<E>,                      // rows added to the change tracker but not yet saved
    outcomes: seq<Option<DbException>>)   // what the coming save calls do
  {
    /** A newly created context: no transaction, nothing tracked. */
    predicate IsFresh() {
      !inTransaction && !savedClear && saved == [] && !clearTracked && tracked == []
    }
  }

  /** What the next save call does. */
  function NextOutcome<E>(st: StoreState<E>): Option<DbException> {
    if st.outcomes == [] then None else st.outcomes[0]
  }

  /** The state after a save call. A failed save changes nothing but uses
      up its outcome; the pending changes stay pending. A successful one
      writes the pending changes: into the open transaction, or straight into
      the table when none is open. */
  function AfterSave<E>(st: StoreState<E>): (r: StoreState<E>)
    ensures NextOutcome(st).Some? ==> r == st.(outcomes := r.outcomes)
    ensures NextOutcome(st).None? ==> r.tracked == [] && !r.clearTracked
    ensures r.outcomes == if st.outcomes == [] then [] else st.outcomes[1..]
  {
    var rest := if st.outcomes == [] then [] else st.outcomes[1..];
    if NextOutcome(st).Some? then st.(outcomes := rest)
    else if st.inTransaction then
      st.(savedClear := st.savedClear || st.clearTracked,
          saved := (if st.clearTracked then [] else st.saved) + st.tracked,
          clearTracked := false, tracked := [], outcomes := rest)
    else
      st.(durable := (if st.clearTracked then [] else st.durable) + st.tracked,
          clearTracked := false, tracked := [], outcomes := rest)
  }

  /** `Database.BeginTransaction()`. */
  function AfterBegin<E>(st: StoreState<E>): StoreState<E> {
    st.(inTransaction := true, savedClear := false, saved := [])
  }

  /** `DbContextTransaction.Commit()`: what was saved inside the transaction
      becomes durable. */
  function AfterCommit<E>(st: StoreState<E>): StoreState<E> {
    st.(durable := (if st.savedClear then [] else st.durable) + st.saved,
        inTransaction := false, savedClear := false, saved := [])
  }

  /** `DbContextTransaction.Rollback()`: what was saved inside the
      transaction is discarded; the table keeps its committed rows. */
  function AfterRollback<E>(st: StoreState<E>): StoreState<E> {
    st.(inTransaction := false, savedClear := false, saved := [])
  }

  /** Leaving the `using` block of a transaction: an uncommitted transaction
      is rolled back, a finished one is left alone. */
  function AfterDispose<E>(st: StoreState<E>): StoreState<E> {
    if st.inTransaction then AfterRollback(st) else st
  }

  // ---------------------------------------------------------------------------
  // The store as an object

  class Store<E> {
    var durable: seq<E>
    var inTransaction: bool
    var savedClear: bool
    var saved: seq<E>
    var clearTracked: bool
    var tracked: seq<E>
    var outcomes: seq<Option<DbException>>

    function State(): StoreState<E>
      reads this
    {
      StoreState(durable, inTransaction, savedClear, saved, clearTracked, tracked, outcomes)
    }

    /** A new context over a table holding `contents`, whose save calls will
        behave as `outcomes` says. */
    constructor (contents: seq<E>, outcomes: seq<Option<DbException>>)
      ensures State().IsFresh()
      ensures State().durable == contents && State().outcomes == outcomes
    {
      durable := contents;
      inTransaction, savedClear, saved := false, false, [];
      clearTracked, tracked := false, [];
      this.outcomes := outcomes;
    }

    /** `DbSet.Add(entity)`. */
    method Add(entity: E)
      modifies this
      ensures State() == old(State()).(tracked := old(tracked) + [entity])
    {
      tracked := tracked + [entity];
    }

    /** `DbSet.RemoveRange(dbSet)`: every row of the table is marked deleted. */
    method RemoveAll()
      modifies this
      ensures State() == old(State()).(clearTracked := true)
    {
      clearTracked := true;
    }

    /** `DbContext.SaveChangesAsync()`; `failure` is what it throws. */
    method SaveChanges() returns (failure: Option<DbException>)
      modifies this
      ensures failure == NextOutcome(old(State()))
      ensures State() == AfterSave(old(State()))
    {
      failure := if outcomes == [] then None else outcomes[0];
      outcomes := if outcomes == [] then [] else outcomes[1..];
      if failure.None? {
        if inTransaction {
          savedClear := savedClear || clearTracked;
          saved := (if clearTracked then [] else saved) + tracked;
        } else {
          durable := (if clearTracked then [] else durable) + tracked;
        }
        clearTracked, tracked := false, [];
      }
    }

    method BeginTransaction()
      requires !inTransaction
      modifies this
      ensures State() == AfterBegin(old(State()))
    {
      inTransaction, savedClear, saved := true, false, [];
    }

    method Commit()
      requires inTransaction
      modifies this
      ensures State() == AfterCommit(old(State()))
    {
      durable := (if savedClear then [] else durable) + saved;
      inTransaction, savedClear, saved := false, false, [];
    }

    method Rollback()
      requires inTransaction
      modifies this
      ensures State() == AfterRollback(old(State()))
    {
      inTransaction, savedClear, saved := false, false, [];
    }

    method Dispose()
      modifies this
      ensures State() == AfterDispose(old(State()))
    {
      if inTransaction {
        Rollback();
      }
    }
  }
}
