/**
 * The API's error type (src/api/error.rs): a status code and a message,
 * sent as a JSON body; the 404 fallback handler; and the middleware that
 * replaces the framework's own plain-text 4xx/5xx answers with that JSON.
 */
module ApiErrors {
  import opened Wrappers
  import opened Text
  import opened Utf8
  import opened Json
  import opened Http

  /** The code is a `u16`. */
  type U16 = x: nat | x < 0x1_0000

  datatype ApiError = ApiError(code: U16, message: string)

  /** The range of an `http::StatusCode`. */
  predicate IsStatusCode(n: nat) {
    100 <= n <= 999
  }

  const NotFoundMessage := "\U{130}stenen API endpoint'i bulunamad\U{131}"
  const ClientErrorPrefix := "\U{130}stemci Hatas\U{131}: "
  const ServerErrorPrefix := "Sunucu Hatas\U{131}: "
  const UnknownReason := "Tan\U{131}ms\U{131}z Davran\U{131}\U{15F}"

  /** `APIError::new`: the status as its number, and the message. */
  function New(status: nat, message: string): (e: ApiError)
    requires IsStatusCode(status)
    ensures IsStatusCode(e.code) && e.code == status && e.message == message
  {
    ApiError(status, message)
  }

  /** `StatusCode::from_u16` with the fallback: a code outside 100..999 answers 500. */
  function ResponseStatus(code: U16): (s: nat)
    ensures IsStatusCode(s)
    ensures IsStatusCode(code) ==> s == code
    ensures !IsStatusCode(code) ==> s == InternalServerError
  {
    if IsStatusCode(code) then code else InternalServerError
  }

  const CodeField := "{\"code\":"
  const MessageField := ",\"message\":"

  /** `serde_json::to_string` of the error: `{"code":N,"message":"..."}`. */
  function Body(e: ApiError): string {
    CodeField + NatToString(e.code) + MessageField + Quote(e.message) + "}"
  }

  /**
   * Reads an error body back, as deserializing `APIError` from exactly the
   * compact form does: a decimal code without leading zeros that fits in
   * 16 bits, then a string literal.
   */
  function ParseBody(b: string): Option<ApiError> {
    if !IsPrefix(CodeField, b) then None else ParseCodeAndMessage(b[|CodeField|..])
  }

  function ParseCodeAndMessage(s: string): Option<ApiError> {
    var (digits, r) := SpanDigits(s);
    if digits == [] || (|digits| > 1 && digits[0] == '0') then None
    else
      var code := ParseDigits(digits);
      if code >= 0x1_0000 then None
      else match ParseMessage(r)
        case Some(m) => Some(ApiError(code, m))
        case None => None
  }

  /** The message member and the closing brace. */
  function ParseMessage(r: string): Option<string> {
    if !IsPrefix(MessageField + "\"", r) then None
    else match ReadString(r[|MessageField| + 1..])
      case Some((m, rest)) => if rest == "}" then Some(m) else None
      case None => None
  }

  /** `into_response`: the status (500 when the code is not one), JSON content type, the body. */
  function IntoResponse(e: ApiError): (r: Response)
    ensures r.status == ResponseStatus(e.code) && IsJson(r)
    ensures Decode(r.body) == Some(Body(e))
  {
    DecodeEncode(Body(e));
    Response(ResponseStatus(e.code), map[ContentType := ApplicationJson], Encode(Body(e)))
  }

  /** `Display`: the message, then the code in parentheses. */
  function Display(e: ApiError): (r: string)
    ensures |e.message| < |r| && r[..|e.message|] == e.message && r[|r| - 1] == ')'
  {
    e.message + CodeLabel + NatToString(e.code) + ")"
  }

  /** What `Display` writes between the message and the code. */
  const CodeLabel := " (Kod: "

  /** `not_found_handler`: the error every unknown route answers with. */
  function NotFound(): (e: ApiError)
    ensures IsStatusCode(e.code)
  {
    New(404, NotFoundMessage)
  }

  /**
   * `handle_axum_rejections`. A response that is already JSON passes
   * through, and so does anything that is not a 4xx or 5xx. A 4xx or 5xx
   * from elsewhere is replaced by an error with the same code and the
   * status's canonical reason phrase (from the `http` crate, given here as
   * `reason`), or "Tanımsız Davranış" when it has none; the original body
   * and headers are dropped.
   */
  function HandleRejections(r: Response, reason: nat -> Option<string>): (out: Response)
    requires IsStatusCode(r.status)
    ensures out.status == r.status
    ensures out == r || (IsJson(out) && !IsJson(r) && (IsClientError(r.status) || IsServerError(r.status)))
  {
    if IsJson(r) then r
    else if IsClientError(r.status) then IntoResponse(New(r.status, ClientErrorPrefix + ReasonOr(reason, r.status)))
    else if IsServerError(r.status) then IntoResponse(New(r.status, ServerErrorPrefix + ReasonOr(reason, r.status)))
    else r
  }

  /** `canonical_reason().unwrap_or("Tanımsız Davranış")`. */
  function ReasonOr(reason: nat -> Option<string>, status: nat): string {
    match reason(status)
    case Some(p) => p
    case None => UnknownReason
  }

  lemma ParseMessageOf(m: string)
    ensures ParseMessage(MessageField + Quote(m) + "}") == Some(m)
  {
    var r := MessageField + Quote(m) + "}";
    assert r == (MessageField + "\"") + (Escape(m) + "\"" + "}");
    assert r[|MessageField| + 1..] == Escape(m) + "\"" + "}";
    ReadEscaped(m, "}");
  }

  lemma ParseCodeAndMessageOf(e: ApiError)
    ensures ParseCodeAndMessage(NatToString(e.code) + (MessageField + Quote(e.message) + "}")) == Some(e)
  {
    var d := NatToString(e.code);
    var tail := MessageField + Quote(e.message) + "}";
    assert tail[0] == ',';
    SpanDigitsOf(d, tail);
    ParseNatToString(e.code);
    ParseMessageOf(e.message);
  }

  /** Every error body reads back as the error it was written from. */
  lemma ParseBodyOfBody(e: ApiError)
    ensures ParseBody(Body(e)) == Some(e)
  {
    var tail := NatToString(e.code) + (MessageField + Quote(e.message) + "}");
    assert Body(e) == CodeField + tail;
    assert Body(e)[|CodeField|..] == tail;
    ParseCodeAndMessageOf(e);
  }

  /** Distinct errors give distinct bodies. */
  lemma BodyInjective(e1: ApiError, e2: ApiError)
    ensures Body(e1) == Body(e2) <==> e1 == e2
  {
    ParseBodyOfBody(e1);
    ParseBodyOfBody(e2);
  }

  /** A client sees the status of a real status code, and reads the error back from the JSON body. */
  lemma ResponseCarriesError(e: ApiError)
    ensures var r := IntoResponse(e);
      && (IsStatusCode(e.code) ==> r.status == e.code)
      && Decode(r.body).Some? && ParseBody(Decode(r.body).value) == Some(e)
  {
    ParseBodyOfBody(e);
  }

  /** Display ends with the code in parentheses; two errors with one message display alike only with one code. */
  lemma DisplayShowsCode(e1: ApiError, e2: ApiError)
    requires e1.message == e2.message
    ensures Display(e1) == Display(e2) <==> e1.code == e2.code
  {
    if Display(e1) == Display(e2) {
      var p := e1.message + CodeLabel;
      assert Display(e1) == p + (NatToString(e1.code) + ")");
      assert Display(e2) == p + (NatToString(e2.code) + ")");
      assert NatToString(e1.code) + ")" == Display(e1)[|p|..];
      assert NatToString(e1.code) == (NatToString(e1.code) + ")")[..|NatToString(e1.code) + ")"| - 1];
      assert NatToString(e2.code) == (NatToString(e2.code) + ")")[..|NatToString(e2.code) + ")"| - 1];
      NatToStringInjective(e1.code, e2.code);
    }
  }

  /**
   * The code can be read back from a displayed error: after the message and
   * " (Kod: " come its decimal digits, then the closing parenthesis.
   */
  lemma DisplayCodeReadBack(e: ApiError)
    ensures var t := Display(e);
      var k := |e.message| + |CodeLabel|;
      && k < |t| && t[|e.message|..k] == CodeLabel
      && IsDigits(t[k..|t| - 1]) && ParseDigits(t[k..|t| - 1]) == e.code
  {
    var t := Display(e);
    var k := |e.message| + |CodeLabel|;
    assert t == e.message + CodeLabel + NatToString(e.code) + ")";
    assert t[|e.message|..k] == CodeLabel;
    assert t[k..|t| - 1] == NatToString(e.code);
    ParseNatToString(e.code);
  }

  /** An unknown route answers 404 with a JSON body holding the message. */
  lemma NotFoundResponse()
    ensures var r := IntoResponse(NotFound());
      && r.status == 404 && IsJson(r)
      && ParseBody(Decode(r.body).value) == Some(ApiError(404, NotFoundMessage))
  {
    ResponseCarriesError(NotFound());
  }

  /**
   * What the rejection handler leaves: the same status; a JSON response
   * stays as it was; a non-JSON 4xx or 5xx becomes a JSON error whose
   * message names the class and the reason; anything else is untouched.
   */
  lemma RejectionOutcome(r: Response, reason: nat -> Option<string>)
    requires IsStatusCode(r.status)
    ensures var out := HandleRejections(r, reason);
      && out.status == r.status
      && (IsJson(r) || !(IsClientError(r.status) || IsServerError(r.status)) ==> out == r)
      && (!IsJson(r) && IsClientError(r.status) ==>
            IsJson(out) && ParseBody(Decode(out.body).value)
              == Some(ApiError(r.status, ClientErrorPrefix + ReasonOr(reason, r.status))))
      && (!IsJson(r) && IsServerError(r.status) ==>
            IsJson(out) && ParseBody(Decode(out.body).value)
              == Some(ApiError(r.status, ServerErrorPrefix + ReasonOr(reason, r.status))))
  {
    if !IsJson(r) && IsClientError(r.status) {
      ResponseCarriesError(New(r.status, ClientErrorPrefix + ReasonOr(reason, r.status)));
    } else if !IsJson(r) && IsServerError(r.status) {
      ResponseCarriesError(New(r.status, ServerErrorPrefix + ReasonOr(reason, r.status)));
    }
  }

  /** Running the rejection handler twice is running it once: its rewrites are JSON. */
  lemma RejectionsIdempotent(r: Response, reason: nat -> Option<string>)
    requires IsStatusCode(r.status)
    ensures IsStatusCode(HandleRejections(r, reason).status)
    ensures HandleRejections(HandleRejections(r, reason), reason) == HandleRejections(r, reason)
  {
  }
}
