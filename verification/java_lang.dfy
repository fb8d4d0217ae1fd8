/** The two Java notions every other module needs: a reference that may be
    null, and an unchecked exception that escapes the method it was raised in. */
module JavaLang {

  /** A nullable Java reference: `None` stands for `null`. */
  datatype Option<+T> = None | Some(value: T) {

    /** This value when present, otherwise `fallback`. */
    function Or(fallback: Option<T>): Option<T>
    {
      if Some? then this else fallback
    }
  }

  /** The exceptions that the modelled code lets escape. */
  datatype JavaException =
    | ArrayIndexOutOfBounds   // `args[index + 1]` read past the last argument
    | StringIndexOutOfBounds  // `charAt(0)` on a line that trims to ""
    | NullPointer             // `compareTo(null)` on the stored baseline
    | Route53Failure          // a `Route53Exception` rethrown to the caller

  /** How a Java call ends: it returns a value or throws. */
  datatype Outcome<+T> = Returned(value: T) | Threw(exception: JavaException)
}
