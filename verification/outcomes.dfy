/** Results and the exceptions the scraper distinguishes. */
module Outcomes {

  datatype Option<+T> = None | Some(value: T)

  /** The exception classes the scraper raises or catches. */
  datatype Exn =
    | StaleElement                // StaleElementReferenceException
    | NoSuchElement(what: string) // NoSuchElementException, with its message
    | Timeout                     // TimeoutException
    | ClickIntercepted            // ElementClickInterceptedException
    | Unexpected(name: string)    // any other exception, by class name

  /** What a Python call does: return a value or raise. */
  datatype Outcome<+T> = Ok(value: T) | Raised(exn: Exn)

  /** The two exception classes that `retry_on_stale` catches and retries. */
  predicate Transient(e: Exn) {
    e.StaleElement? || e.NoSuchElement?
  }

  /** A raised transient exception: the only outcome that leads to another attempt. */
  predicate Retryable<T>(o: Outcome<T>) {
    o.Raised? && Transient(o.exn)
  }
}
