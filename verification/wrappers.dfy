/** Failure-compatible result type used by every stage of the pipeline, and
    the error kinds the CSV processor can stop with. */
module Wrappers {

  datatype Option<+T> = None | Some(value: T)

  /** Either a value or the reason the pipeline stopped. Usable with `:-`. */
  datatype Result<+T, +E> = Success(value: T) | Failure(error: E) {

    predicate IsFailure() {
      Failure?
    }

    function PropagateFailure<U>(): Result<U, E>
      requires Failure?
    {
      Failure(error)
    }

    function Extract(): T
      requires Success?
    {
      value
    }
  }

  /** Every way processing can stop. The source distinguishes `sys.exit(1)`
      (after a message on stderr) from exceptions it lets escape; both end
      the computation without output, so both are a `Failure` here. */
  datatype Error =
    | NoHeaderRow                                 // `next(reader)` on input with no line
    | InvalidFilter(line: string)                 // a filter line the pattern does not match
    | HeaderNotFound(column: string)              // a selected column missing from the header
    | UnknownFilterHeader(header: string)         // `headers.index` of a filter's header fails
    | RowTooShort                                 // `row[idx]` past the end of a data row
    | InvalidOperator(op: string, header: string) // an operator run that is none of the six
}
