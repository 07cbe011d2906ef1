/** The request and response shapes the route handlers share. Network calls
 *  are inputs: a handler is given what its `fetch` would return and
 *  reports the URLs it asked for. */
module Http {
  import opened Wrappers

  /** What a `fetch` produced: it threw (network failure, or the body could
   *  not be read), or the server answered with a status and a body. */
  datatype Fetched = Unreachable | Reply(status: int, body: string) {
    /** `response.ok`. */
    predicate Ok() { Reply? && 200 <= status <= 299 }
  }

  /** A JSON response: status, body and the `Cache-Control` header, if set. */
  datatype Response<B> = Response(status: int, body: B, cacheControl: Option<string>)

  /** JavaScript truthiness of an optional string: defined and non-empty. */
  predicate Truthy(v: Option<string>) { v.Some? && v.value != "" }

  const FeedCache := "public, s-maxage=3600, stale-while-revalidate=300"
}
