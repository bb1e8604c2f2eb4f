/** The error values the library reports instead of panicking. */
module Errors {

  /** One variant per failure the library reports: a character with no
      collation rank, and a numeral that is malformed or too long. Each
      carries the offending value and, for numerals, a reason. */
  datatype KorrektorError =
    | InvalidChar(c: char)
    | InvalidNumber(number: string, reason: string)
    | NumberOverflow(number: string, reason: string)

  /** `Result<T, KorrektorError>`. */
  datatype Result<T> = Ok(value: T) | Err(error: KorrektorError)

  /** What a call that may also panic comes to: it returns a value, it
      reports an error, or it panics with a message. */
  datatype Outcome<T> =
    | Returns(value: T)
    | Fails(error: KorrektorError)
    | Panics(message: string)
}
