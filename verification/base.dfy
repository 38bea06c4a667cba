/** Value wrappers shared by the model of the note repository's statement cache.

    Java's `null` becomes `None`, and the unchecked exceptions that the
    repository lets escape to its callers become `Threw`.
 */
module Base {

  /** A value that may be absent (a Java reference that may be null). */
  datatype Option<+T> = None | Some(value: T)

  /** The unchecked exceptions the modelled code can raise. */
  datatype JavaException =
    | NullPointer    // a method was invoked on a null reference
    | IllegalState   // the statement cache was used after it was closed

  /** What a Java call does: return a value or throw. */
  datatype Outcome<+T> = Returned(value: T) | Threw(exception: JavaException)
}
