/**
 * The prober (app/infrastructure/http/service_pinger.py) with the network taken out:
 * what the HTTP client answered, or the exception it raised, is an input, and so is
 * the elapsed time in milliseconds.
 */
module ServicePinger {
  import opened Wrappers

  /** A decoded JSON value, as far as Python's `str()` of it matters. */
  datatype JsonValue =
    | JString(s: string)
    | JNull
    | JBool(b: bool)
    /** A number, array or object, carried with the text `str()` gives for it. */
    | JOther(text: string)

  /** What `response.json()` yields. */
  datatype Body =
    /** The body does not parse as JSON (`json.JSONDecodeError` / `ValueError`). */
    | NotJson
    /** A JSON object, with the value of its "version" key if it has one. */
    | JsonObject(versionField: Option<JsonValue>)
    /** JSON that is not an object (array, string, number, ...). */
    | JsonNonObject

  /** A received HTTP response; `versionHeader` is the `X-Service-Version` header, if sent. */
  datatype HttpResponse = HttpResponse(statusCode: int, body: Body, versionHeader: Option<string>)

  /** What the GET returned within its 5 s timeout, or the exception it raised. */
  datatype NetworkOutcome =
    | Responded(response: HttpResponse, elapsedMs: nat)
    | Raised(message: string, elapsedMs: nat)

  /** Raw, uninterpreted probe data. */
  datatype PingResult = PingResult(
    httpStatusCode: Option<int>,
    latencyMs: Option<int>,
    reportedVersion: Option<string>,
    errorMessage: Option<string>)

  /** Python's `str()` of a decoded JSON value: `None`, `True`/`False`, or the string itself. */
  function PyStr(v: JsonValue): string
  {
    match v
    case JString(s) => s
    case JNull => "None"
    case JBool(b) => if b then "True" else "False"
    case JOther(text) => text
  }

  /**
   * `_extract_version`: a "version" key of a JSON object body wins (whatever its
   * value); otherwise a non-empty `X-Service-Version` header; otherwise nothing.
   */
  function ExtractVersion(response: HttpResponse): (r: Option<string>)
    ensures response.body.JsonObject? && response.body.versionField.Some? ==>
              r == Some(PyStr(response.body.versionField.value))
    ensures !(response.body.JsonObject? && response.body.versionField.Some?) ==>
              (r.Some? <==> response.versionHeader.Some? && response.versionHeader.value != "")
    ensures r.Some? && !(response.body.JsonObject? && response.body.versionField.Some?) ==>
              r == response.versionHeader
  {
    match response.body
    case JsonObject(Some(v)) => Some(PyStr(v))
    case _ =>
      if response.versionHeader.Some? && response.versionHeader.value != "" then response.versionHeader
      else None
  }

  /** The body's "version" key takes precedence over the header, even when it holds JSON null. */
  lemma BodyVersionWinsOverHeader(v: JsonValue, status: int, header: Option<string>)
    ensures ExtractVersion(HttpResponse(status, JsonObject(Some(v)), header)) == Some(PyStr(v))
    ensures ExtractVersion(HttpResponse(status, JsonObject(Some(JNull)), header)) == Some("None")
  {
  }

  /** A body that is not JSON, or JSON but not an object, falls through to the header rule. */
  lemma UnusableBodyFallsThrough(status: int, header: Option<string>)
    ensures ExtractVersion(HttpResponse(status, NotJson, header)) ==
            ExtractVersion(HttpResponse(status, JsonObject(None), header))
    ensures ExtractVersion(HttpResponse(status, JsonNonObject, header)) ==
            ExtractVersion(HttpResponse(status, JsonObject(None), header))
    ensures ExtractVersion(HttpResponse(status, NotJson, Some(""))) == None
  {
  }

  /**
   * `HttpServicePinger.ping`: never raises. A response gives its status code and no
   * error; an exception gives no status code, no version and the exception's text.
   */
  function Ping(outcome: NetworkOutcome): (r: PingResult)
    ensures r.httpStatusCode.Some? <==> r.errorMessage.None?
    ensures r.latencyMs == Some(outcome.elapsedMs)
    ensures outcome.Responded? ==>
              r.httpStatusCode == Some(outcome.response.statusCode)
              && r.reportedVersion == ExtractVersion(outcome.response)
    ensures outcome.Raised? ==> r.reportedVersion.None? && r.errorMessage == Some(outcome.message)
  {
    match outcome
    case Responded(response, elapsed) =>
      PingResult(Some(response.statusCode), Some(elapsed), ExtractVersion(response), None)
    case Raised(message, elapsed) =>
      PingResult(None, Some(elapsed), None, Some(message))
  }
}
