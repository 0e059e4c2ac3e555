/**
 * How a request handler ends and the conversions it leaves to Python and to the store.
 * A handler either redirects to its success page (Success) or does not (Failure); in
 * every Failure case nothing it did reaches the database.
 */
module Forms {
  import opened Wrappers
  import opened Dates

  /** Exceptions that escape a handler (an HTTP 500; the session is discarded unflushed). */
  datatype Exception =
    | ValueError          // int() of a non-integer, strptime of a malformed date, date() out of range
    | InvalidOperation    // Decimal(str(None))
    | CommitError         // the store refuses the flush or the commit

  datatype Error =
    | Rejected(message: string)   // the form is shown again with this message
    | NotFound                    // get_or_404
    | Raised(exception: Exception)

  datatype Result<+T> = Success(value: T) | Failure(error: Error)

  /**
   * The partial conversions the handlers rely on, as functions returning None where they fail:
   * `int(text)`, `datetime.strptime(text, "%Y-%m-%d").date()`, and the store's reading of a
   * decimal string into a two-decimal column (in hundredths).
   */
  datatype Parsers = Parsers(
    toInt: string -> Option<int>,
    toDate: string -> Option<Date>,
    toAmount: string -> Option<int>)

  /** An optional date field: empty means no date, anything else must parse (outer None if not). */
  function OptionalDate(p: Parsers, text: string): Option<Option<Date>> {
    if text == "" then Some(None)
    else match p.toDate(text)
      case None => None
      case Some(d) => Some(Some(d))
  }

  /** An optional two-decimal field (`text or None`): outer None where the store cannot read it. */
  function OptionalAmount(p: Parsers, text: string): Option<Option<int>> {
    if text == "" then Some(None)
    else match p.toAmount(text)
      case None => None
      case Some(a) => Some(Some(a))
  }

  /** A handler's final `db.session.commit()` without a try: a refused commit escapes. */
  function Commit<T>(checked: Result<T>, commitOk: bool): Result<T> {
    if checked.Success? && !commitOk then Failure(Raised(CommitError)) else checked
  }
}
