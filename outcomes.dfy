/** Failure-carrying values shared by every layer of the library model.
    Each exception the source throws becomes one `Error` kind; the message
    texts are not modelled. */
module Outcomes {

  datatype Option<+T> = None | Some(value: T)

  /** Why an operation failed, one kind per distinct exception of the source. */
  datatype Error =
    // Validator
    | InvalidISBN
    | InvalidEmail
    | InvalidYear
    | InvalidCopies
    | Required(field: string)
    | InvalidDate
    | InvalidUserID
    | InvalidLoanID
    // Book and Loan objects
    | NoCopyToLend
    | NoCopyToReturn
    | AlreadyReturned
    // CommandParser
    | MissingEntity
    | MissingAction
    | UnknownEntity
    // repositories
    | DuplicateKey
    | NotFoundForUpdate
    | NotFoundForDelete
    // services
    | BookNotFound
    | UserNotFound
    | LoanNotFound
    | NoSearchResult
    | BookOnLoan
    | NoCopyAvailable
    | NothingToReturn
    | UserHasActiveLoan
    | BookUnavailable
    | AlreadyBorrowing
    | LoanNotActive
    | NoLoanHistory

  /** The value of an operation, or the exception it threw. */
  datatype Result<+T> = Ok(value: T) | Err(error: Error) {
    predicate IsFailure() { Err? }

    function PropagateFailure<U>(): Result<U>
      requires Err?
    {
      Err(error)
    }

    function Extract(): T
      requires Ok?
    {
      value
    }
  }

  /** The outcome of an operation that returns nothing (or `true`) on success. */
  datatype Outcome = Pass | Fail(error: Error) {
    predicate IsFailure() { Fail? }

    function PropagateFailure(): Outcome
      requires Fail?
    {
      this
    }
  }
}
