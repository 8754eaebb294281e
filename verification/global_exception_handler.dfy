/** `GlobalExceptionHandler`: runs an operation and maps how it ended. The operation's own
    outcome is the input. */
module Handler {
  import opened Common

  /** The message of the wrapping exception. */
  function FailedMessage(operationName: string): string {
    "Failed to execute " + operationName
  }

  /** `HandleAsync<T>`: a value comes back unchanged, a cancellation becomes `dflt` (the
      `default(T)`), any other exception is rethrown wrapped in a `CleaningException`. */
  function Handle<T>(outcome: Outcome<T>, operationName: string, dflt: T): (r: Outcome<T>)
    ensures outcome.Done? ==> r == outcome
    ensures outcome == Threw(OperationCanceled) ==> r == Done(dflt)
    ensures outcome.Threw? && outcome.error != OperationCanceled ==>
      r == Threw(CleaningError(FailedMessage(operationName), outcome.error))
  {
    match outcome
    case Done(_) => outcome
    case Threw(OperationCanceled) => Done(dflt)
    case Threw(e) => Threw(CleaningError(FailedMessage(operationName), e))
  }

  /** The void `HandleAsync`: completion and cancellation both end normally, any other
      exception is rethrown wrapped in a `CleaningException`. */
  function HandleVoid(outcome: Outcome<()>, operationName: string): (r: Outcome<()>)
    ensures r.Done? <==> outcome.Done? || outcome == Threw(OperationCanceled)
    ensures r.Threw? ==> r.error == CleaningError(FailedMessage(operationName), outcome.error)
  {
    match outcome
    case Done(_) => outcome
    case Threw(OperationCanceled) => Done(())
    case Threw(e) => Threw(CleaningError(FailedMessage(operationName), e))
  }

  /** What escapes a handler is always a `CleaningException` naming the operation, with the
      original exception inside it; a cancellation never escapes. */
  lemma HandledErrorsAreWrapped<T>(outcome: Outcome<T>, operationName: string, dflt: T)
    ensures Handle(outcome, operationName, dflt).Threw? <==> outcome.Threw? && outcome.error != OperationCanceled
    ensures Handle(outcome, operationName, dflt).Threw? ==>
      var e := Handle(outcome, operationName, dflt).error;
      e.CleaningError? && e.inner == outcome.error && Message(e) == "Failed to execute " + operationName
  {
  }

  /** The void overload behaves as the generic one with no value and a unit default. */
  lemma VoidMatchesGeneric(outcome: Outcome<()>, operationName: string)
    ensures HandleVoid(outcome, operationName) == Handle(outcome, operationName, ())
  {
  }
}
