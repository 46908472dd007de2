/** The contract every rate limiter implements
    (src/RateLimiter/BaseRateLimiter.ts): per bucket name, `handleResponse`
    is told about each normal response, `handleError` about each error and
    answers whether the limiter handled it (so the request should be
    retried), and `wait` delays until a request may be made. Time is the
    parameter `now` (milliseconds), and `wait` returns the delay it passes
    to `setTimeout`. */
module RateLimiter {

  /** A fetch Response: its status and its headers, keyed by lower-case
      name (header names are case-insensitive). */
  datatype Response = Response(status: int, headers: map<string, string>)

  /** The `unknown` value handed to `handleError`: a Response, or anything
      else. */
  datatype ErrorValue = Resp(response: Response) | Other

  /** One call of the contract, on a bucket, at a time. */
  datatype Call =
    | HandleResponse(bucket: string, response: Response, now: int)
    | HandleError(bucket: string, error: ErrorValue, now: int)
    | Wait(bucket: string, now: int)

  /** What a call gives back: `handleResponse` completes, `handleError`
      answers, `wait` completes after a delay. */
  datatype Outcome = Done | Handled(retry: bool) | Delayed(ms: int)

  /** The outcome shape each kind of call has. */
  predicate Answers(c: Call, out: Outcome) {
    match c
    case HandleResponse(_, _, _) => out == Done
    case HandleError(_, _, _) => out.Handled?
    case Wait(_, _) => out.Delayed? && out.ms >= 0
  }
}
