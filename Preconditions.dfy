/** The guard functions of the server's Preconditions utility class. Each Java method either
    returns normally or throws; here it returns an Outcome (for the void guards) or a Result
    (for the guards that hand back their argument), whose failure side names the exception. */
module Preconditions {
  import opened Options

  /** The exception kinds the guards (and the code that uses them) can raise. */
  datatype Error =
    | AssertionError(detail: Option<string>)   // java.lang.AssertionError
    | IllegalArgument(message: string)          // IllegalArgumentException
    | NullPointer                               // NullPointerException, no message
    | InvalidUserInput(message: string)         // the server's InvalidUserInputError
    | IllegalState(message: string)             // IllegalStateException

  /** Normal return, or the exception a `void` method throws. */
  datatype Outcome = Pass | Fail(error: Error)

  /** A returned value, or the exception thrown instead. */
  datatype Result<+T> = Ok(value: T) | Err(error: Error)

  /** The message of the NoSuchElementException thrown by Optional.orElseThrow on an empty
      Optional, which checkPresent wraps into its AssertionError. */
  const NoValuePresent: string := "No value present"

  /** check: returns normally iff the expression holds; otherwise a message-less AssertionError. */
  function Check(expression: bool): (r: Outcome)
    ensures r.Pass? <==> expression
    ensures r.Fail? ==> r.error == AssertionError(None)
  {
    if !expression then Fail(AssertionError(None)) else Pass
  }

  /** checkArgument: IllegalArgumentException carrying the message when the expression is false. */
  function CheckArgument(expression: bool, errorMessage: string): (r: Outcome)
    ensures r.Pass? <==> expression
    ensures r.Fail? ==> r.error == IllegalArgument(errorMessage)
  {
    if !expression then Fail(IllegalArgument(errorMessage)) else Pass
  }

  /** checkNotNull: the object itself when it is not null, a NullPointerException otherwise. */
  function CheckNotNull<T>(obj: Option<T>): (r: Result<T>)
    ensures r.Ok? <==> obj.Some?
    ensures r.Ok? ==> r.value == obj.value
    ensures r.Err? ==> r.error == NullPointer
  {
    match obj
    case Some(v) => Ok(v)
    case None => Err(NullPointer)
  }

  /** checkPresent: the contained value of a present Optional; an AssertionError carrying the
      message of the underlying NoSuchElementException for an empty one. */
  function CheckPresent<T>(obj: Option<T>): (r: Result<T>)
    ensures r.Ok? <==> obj.Some?
    ensures r.Ok? ==> r.value == obj.value
    ensures r.Err? ==> r.error == AssertionError(Some(NoValuePresent))
  {
    match obj
    case Some(v) => Ok(v)
    case None => Err(AssertionError(Some(NoValuePresent)))
  }

  /** checkUserInput: InvalidUserInputError carrying the message when the expression is false. */
  function CheckUserInput(expression: bool, errorMessage: string): (r: Outcome)
    ensures r.Pass? <==> expression
    ensures r.Fail? ==> r.error == InvalidUserInput(errorMessage)
  {
    if !expression then Fail(InvalidUserInput(errorMessage)) else Pass
  }

  /** checkState: IllegalStateException carrying the message when the expression is false. */
  function CheckState(expression: bool, errorMessage: string): (r: Outcome)
    ensures r.Pass? <==> expression
    ensures r.Fail? ==> r.error == IllegalState(errorMessage)
  {
    if !expression then Fail(IllegalState(errorMessage)) else Pass
  }
}
