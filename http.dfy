/** The optional value a lookup produces (`undefined` in the worker becomes None). */
module Wrappers {
  datatype Option<+T> = None | Some(value: T)
}

/**
 * The slice of the Fetch API the worker touches: requests, responses, the
 * outcome of a network fetch, and what a fetch listener hands to
 * `respondWith`.
 */
module Http {
  /** Request method. The Cache API stores and matches GET requests only. */
  datatype Method = Get | NonGet(name: string)

  /** A parsed URL: the host name the router looks at and the rest of it. */
  datatype Url = Url(host: string, path: string)

  datatype Request = Request(verb: Method, url: Url)

  /** The response types a fetch can resolve to (a network error rejects instead). */
  datatype ResponseType = Basic | Cors | Default | Opaque | OpaqueRedirect

  datatype Response = Response(status: int, rtype: ResponseType, body: string)

  /**
   * Responses as the Fetch Standard produces them: a status of at most
   * three digits, and status 0 for the opaque and opaque-redirect filtered
   * responses, whose real status is hidden from the worker.
   */
  predicate WellFormed(r: Response) {
    && 0 <= r.status <= 999
    && (r.rtype == Opaque || r.rtype == OpaqueRedirect ==> r.status == 0)
  }

  /** What `fetch(request)` settles to: a response, or a rejection on network failure. */
  datatype NetOutcome = Fetched(response: Response) | NetworkError

  /**
   * What a fetch listener passes to `respondWith`: a promise fulfilled with
   * a response, a rejected promise, or a promise fulfilled with `undefined`
   * (which the browser turns into a network error for the page).
   */
  datatype Reply = Served(response: Response) | Rejected | Undefined
}
