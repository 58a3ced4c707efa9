/** Outcomes of the contact book's operations: the exceptions the program raises become values. */
module Results {

  /** The errors the program raises. */
  datatype Error =
    | PhoneFormat          // ValueError: a phone is not exactly ten digits
    | DateFormat           // ValueError: a birthday is not a real DD.MM.YYYY date
    | DayOutOfRange        // ValueError from building a date (a Feb 29 in a common year, year 10000)
    | DateOverflow         // OverflowError from adding days past the supported calendar range
    | KeyNotFound(key: string)  // KeyError from deleting a name the book does not hold

  datatype Option<T> = None | Some(value: T)

  /** The value an operation returns, or the error it raises. */
  datatype Result<T> = Success(value: T) | Failure(error: Error)

  /** The outcome of an operation that returns nothing: it completes or it raises. */
  datatype Outcome = Pass | Fail(error: Error)
}
