/** Failure-compatible wrappers and the error kinds that the modelled Java code raises. */
module Base {

  datatype Option<+T> = None | Some(value: T)

  /** A JSON value as the weakly typed maps of the source see it; arrays and booleans
      are not told apart because nothing modelled looks inside them. */
  datatype Json = JStr(str: string) | JInt(num: int) | JObj(fields: map<string, Json>) | JNull | JOther

  /** The exceptions the modelled code lets escape, one constructor per kind, and the
      corrected model's own refusal of an int overflow. */
  datatype Error =
    | BadRequest(message: string)   // WebApplicationException with status 400
    | NotFound                      // javax.ws.rs.NotFoundException
    | IllegalArgument               // a failed Guava checkArgument
    | NumberFormat                  // Integer.valueOf on a non-numeric string
    | NullPointer                   // a null dereference
    | NoSuchElement                 // LinkedList.getFirst on an empty list
    | IOFailure                     // an I/O exception, checked or wrapped
    | ConversionFailure             // a weakly typed value of an unexpected shape
    | Overflow                      // no exception in the source, whose int addition wraps:
                                    // the corrected job numbering refuses instead

  /** The outcome of a check that returns nothing or throws. */
  datatype Outcome = Pass | Fail(error: Error)

  datatype Result<+T> = Ok(value: T) | Err(error: Error) {
    predicate IsFailure() { Err? }
    function PropagateFailure<U>(): Result<U>
      requires Err?
    {
      Err(error)
    }
    function Extract(): T
      requires Ok?
    {
      value
    }
  }
}
