/** Failure-compatible wrappers shared by every module of the model, and the
    Java exceptions the modelled code can raise. */
module Results {

  /** A Java reference that may be null. */
  datatype Option<+T> = None | Some(value: T) {
    predicate IsFailure() { None? }

    function PropagateFailure<U>(): Option<U>
      requires None?
    {
      None
    }

    function Extract(): T
      requires Some?
    {
      value
    }
  }

  /** The outcome of a Java call: a value, or the exception it threw. */
  datatype Result<+T, +E> = Ok(value: T) | Err(error: E) {
    predicate IsFailure() { Err? }

    function PropagateFailure<U>(): Result<U, E>
      requires Err?
    {
      Err(error)
    }

    function Extract(): T
      requires Ok?
    {
      value
    }
  }

  /** The exceptions the parsing and refresh code can raise. Only the kind
      matters to the callers: `Portfolio.downloadQuoteFor` catches
      `JsonError` alone and lets every other kind escape. */
  datatype Fault =
    | JsonError          // org.json.JSONException
    | NumberFormatError  // java.lang.NumberFormatException
    | IndexError         // StringIndexOutOfBounds / IndexOutOfBounds
    | NullPointerError   // java.lang.NullPointerException
    | IoError            // java.io.IOException (transport, closed stream)

  /** An input stream: its content as the parser sees it, and whether it is
      still open. Every parser closes it on every exit path. */
  datatype Stream<T> = Stream(content: T, open: bool)

  function Close<T>(s: Stream<T>): (c: Stream<T>)
    ensures !c.open && c.content == s.content
  {
    Stream(s.content, false)
  }
}
