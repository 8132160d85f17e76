/** The failures the scraper can produce. */
module Errors {

  /** `FetchError` stands for a failed upstream request (the `err` passed to the request
      callback); `ParseError` for the error thrown when the jackpot text holds no digit.
      The message text of the thrown error is not modelled. */
  datatype Error = FetchError(cause: string) | ParseError
}
