/** The datastore helpers the importer relies on: turning a failed save into a
    list of error strings, clearing the table, and looking the table up. */
module DbContextExtension {
  import opened Wrappers
  import opened DataStore

  // ---------------------------------------------------------------------------
  // Validation failures

  /** The message for one property error of one entity. */
  function ValidationMessage(ev: EntityValidation, pe: PropertyError): string {
    "Entity validation error for " + ev.state.Name() + " \"" + ev.entityTypeName
      + "\", property \"" + pe.propertyName + "\". " + pe.errorMessage
  }

  /** Number of property errors over all entities. */
  function ErrorCount(evs: seq<EntityValidation>): nat
    decreases |evs|
  {
    if evs == [] then 0 else |evs[0].errors| + ErrorCount(evs[1..])
  }

  /** The messages for one entity's property errors, in order. */
  function EntityMessages(ev: EntityValidation): (r: seq<string>)
    ensures |r| == |ev.errors|
  {
    seq(|ev.errors|, j requires 0 <= j < |ev.errors| => ValidationMessage(ev, ev.errors[j]))
  }

  /** The nested loops over entities and their property errors. */
  function ValidationMessages(evs: seq<EntityValidation>): (r: seq<string>)
    ensures |r| == ErrorCount(evs)
    decreases |evs|
  {
    if evs == [] then [] else EntityMessages(evs[0]) + ValidationMessages(evs[1..])
  }

  /** One message per property error, entity by entity and, within an
      entity, property error by property error: the j-th error of the i-th
      entity is reported right after the errors of the entities before it. */
  lemma {:induction false} ValidationMessagesInOrder(evs: seq<EntityValidation>, i: nat, j: nat)
    requires i < |evs| && j < |evs[i].errors|
    ensures ErrorCount(evs[..i]) + j < |ValidationMessages(evs)|
    ensures ValidationMessages(evs)[ErrorCount(evs[..i]) + j] == ValidationMessage(evs[i], evs[i].errors[j])
    decreases i
  {
    if i == 0 {
      assert evs[..0] == [];
    } else {
      ValidationMessagesInOrder(evs[1..], i - 1, j);
      assert evs[..i][1..] == evs[1..][..i - 1];
      assert evs[..i][0] == evs[0];
    }
  }

  // ---------------------------------------------------------------------------
  // Classifying a save failure

  /** The classification exactly as `TrySaveChangesAsync` writes it. */
  function SaveErrorsAsWritten(failure: Option<DbException>): (errors: seq<string>)
    ensures failure.None? ==> errors == []
    ensures failure.Some? && failure.value.Validation? ==> |errors| == ErrorCount(failure.value.entityErrors)
    ensures failure.Some? && failure.value.Update? ==> |errors| <= 1
    ensures failure.Some? && failure.value.Other? ==> |errors| == 1
    ensures failure.Some? && WellFormed(failure.value) ==> errors != []
  {
    match failure
    case None => []
    case Some(Validation(evs)) => ValidationMessages(evs)
    case Some(Update(_, inner)) =>
      if inner.Some? && inner.value.inner.Some? then [inner.value.inner.value.message] else []
    case Some(Other(message, _)) => [message]
  }

  /** An update failure is reported exactly when it is well formed, that is
      when its chain reaches two inner levels, and then by the one message
      that stands for it. */
  lemma AsWrittenUpdateMessage(message: string, inner: Option<Exception>)
    ensures SaveErrorsAsWritten(Some(Update(message, inner))) != [] <==> WellFormed(Update(message, inner))
    ensures WellFormed(Update(message, inner)) ==>
              SaveErrorsAsWritten(Some(Update(message, inner))) == [UpdateFailureMessage(message, inner)]
  {
  }

  /** Any other failure is reported by its own outer message alone: two
      failures with the same message and different inner exceptions are
      reported alike. */
  lemma AsWrittenOtherMessage(message: string, inner: Option<Exception>, otherInner: Option<Exception>)
    ensures SaveErrorsAsWritten(Some(Other(message, inner))) == SaveErrorsAsWritten(Some(Other(message, otherInner)))
    ensures SaveErrorsAsWritten(Some(Other(message, inner))) == [message]
  {
  }

  /** The input that shows the as-written classification losing a failure:
      an update failure whose inner exception has no inner exception of its
      own yields no message, so the caller takes the failed save for a
      successful one. */
  lemma SwallowedUpdateFailure()
    ensures var failure := Some(Update("An error occurred while updating the entries.",
                                       Some(Exception("See the inner exception for details.", None))));
            && SaveErrorsAsWritten(failure) == []
            && SaveErrors(failure) == ["See the inner exception for details."]
  {
  }

  /** EF raises a validation exception only with at least one property error. */
  predicate Raisable(e: DbException) {
    e.Validation? ==> ErrorCount(e.entityErrors) > 0
  }

  /** A failure the as-written classification reports: one EF can raise and,
      for an update failure, one whose inner exception has an inner exception
      of its own, as when EF wraps the provider's error in an
      `UpdateException`. */
  predicate WellFormed(e: DbException) {
    Raisable(e) && (e.Update? ==> e.inner.Some? && e.inner.value.inner.Some?)
  }

  /** The message that stands for an update failure: the one two inner
      levels down, or the last one of a shorter chain. */
  function UpdateFailureMessage(message: string, inner: Option<Exception>): string {
    match inner
    case Some(Exception(_, Some(Exception(m, _)))) => m
    case Some(Exception(m, None)) => m
    case None => message
  }

  /** The intended classification: as written, except that an update failure
      is always reported. It reports nothing exactly when the save succeeded,
      whatever the length of an update failure's chain, and agrees with the
      as-written one wherever that one reports something, so on every
      well-formed failure. */
  function SaveErrors(failure: Option<DbException>): (errors: seq<string>)
    ensures failure.None? ==> errors == []
    ensures failure.Some? && Raisable(failure.value) ==> errors != []
    ensures SaveErrorsAsWritten(failure) != [] ==> errors == SaveErrorsAsWritten(failure)
    ensures failure.Some? && WellFormed(failure.value) ==> errors == SaveErrorsAsWritten(failure)
    ensures failure.Some? && !failure.value.Update? ==> errors == SaveErrorsAsWritten(failure)
  {
    match failure
    case Some(Update(message, inner)) => [UpdateFailureMessage(message, inner)]
    case _ => SaveErrorsAsWritten(failure)
  }

  /** `TrySaveChangesAsync`: save, and classify what the save threw as the
      code does. */
  method TrySaveChanges<E>(ctx: Store<E>) returns (errors: seq<string>)
    modifies ctx
    ensures errors == SaveErrorsAsWritten(NextOutcome(old(ctx.State())))
    ensures ctx.State() == AfterSave(old(ctx.State()))
  {
    var failure := ctx.SaveChanges();
    errors := SaveErrorsAsWritten(failure);
  }

  // ---------------------------------------------------------------------------
  // Looking up and clearing the table

  const NullContextMessage: string := "DBContext cannot be null"

  /** `GetDbSetAsync`: the table of a non-null context. */
  function GetDbSet<E>(ctx: Store?<E>): (r: Outcome<Store<E>>)
    ensures r.Threw? <==> ctx == null
    ensures r.Threw? ==> r.error == InvalidOperation(NullContextMessage)
    ensures r.Returned? ==> r.value == ctx
  {
    if ctx == null then Threw(InvalidOperation(NullContextMessage)) else Returned(ctx)
  }

  /** The list `TryClearDbSetAsync` returns for a context in state `st`. */
  function ClearErrors<E>(st: StoreState<E>): seq<string> {
    if |st.durable| > 0 then SaveErrorsAsWritten(NextOutcome(st)) else []
  }

  /** The state `TryClearDbSetAsync` leaves a context in. */
  function AfterClear<E>(st: StoreState<E>): StoreState<E> {
    if |st.durable| > 0 then AfterSave(st.(clearTracked := true)) else st
  }

  /** `TryClearDbSetAsync`. A null context throws from the table lookup, so
      the list holding "DBContext cannot be null" is never returned. */
  method TryClearDbSet<E>(ctx: Store?<E>) returns (r: Outcome<seq<string>>)
    modifies ctx
    ensures ctx == null ==> r == Threw(InvalidOperation(NullContextMessage))
    ensures ctx != null ==> r == Returned(ClearErrors(old(ctx.State())))
    ensures ctx != null ==> ctx.State() == AfterClear(old(ctx.State()))
  {
    var errors: seq<string> := [];
    if ctx == null {
      errors := errors + [NullContextMessage];
    }
    var dbSet := GetDbSet(ctx);
    if dbSet.Threw? {
      return Threw(dbSet.error);
    }
    if |ctx.durable| > 0 {
      ctx.RemoveAll();
      errors := TrySaveChanges(ctx);
    }
    return Returned(errors);
  }

  /** Clearing an empty table saves nothing and reports nothing. */
  lemma ClearOfEmptyTable<E>(st: StoreState<E>)
    requires st.durable == []
    ensures ClearErrors(st) == [] && AfterClear(st) == st
  {
  }

  /** Clearing a non-empty table of a fresh context outside a transaction:
      the list is exactly the save's, it is replaced rather than appended to,
      and a failure leaves the table's rows in place. When the save's failure
      is well formed, the table ends up empty exactly when the list is empty. */
  lemma ClearOfNonEmptyTable<E>(st: StoreState<E>)
    requires st.IsFresh() && |st.durable| > 0
    ensures ClearErrors(st) == SaveErrorsAsWritten(NextOutcome(st))
    ensures NextOutcome(st).None? ==> AfterClear(st).durable == [] && AfterClear(st).IsFresh()
    ensures NextOutcome(st).Some? ==> AfterClear(st).durable == st.durable && !AfterClear(st).inTransaction
    ensures NextOutcome(st).Some? && WellFormed(NextOutcome(st).value) ==> ClearErrors(st) != []
  {
  }

  /** The input that shows a failed clear going unreported: an update failure
      with a single inner exception yields no message, so the caller goes on
      with the table still full and every row still marked deleted. */
  lemma SwallowedClearFailure()
    ensures var st := StoreState([1], false, false, [], false, [],
                                 [Some(Update("upd", Some(Exception("inner", None))))]);
            && ClearErrors(st) == []
            && AfterClear(st).durable == [1]
            && AfterClear(st).clearTracked
  {
  }
}
