/**
 * The slice of an HTTP response the middlewares look at: the status code,
 * the headers (by lower-case name, one value each) and the body bytes.
 */
module Http {
  import opened Utf8

  datatype Response = Response(status: nat, headers: map<string, string>, body: seq<Byte>)

  const ContentType := "content-type"
  const CacheControl := "cache-control"
  const ApplicationJson := "application/json"

  const StatusOk: nat := 200
  const InternalServerError: nat := 500

  /** The response declares itself JSON: its content type is exactly `application/json`. */
  predicate IsJson(r: Response) {
    ContentType in r.headers && r.headers[ContentType] == ApplicationJson
  }

  /** `StatusCode::is_client_error`: 400 to 499. */
  predicate IsClientError(status: nat) {
    400 <= status <= 499
  }

  /** `StatusCode::is_server_error`: 500 to 599. */
  predicate IsServerError(status: nat) {
    500 <= status <= 599
  }

  /** What a bare `StatusCode` turns into when returned as a response: that status, nothing else. */
  function StatusOnly(status: nat): Response {
    Response(status, map[], [])
  }
}
