/** The shared data model (src/core/types.ts and the body types of
    src/http/parsers/body.ts). */
module Types {
  import opened Wrappers
  import opened Consts

  /** A JSON value, as produced by `JSON.parse` and consumed by
      `JSON.stringify`; both are parameters of this model. */
  datatype JsonValue =
    | JNull
    | JBool(b: bool)
    | JNumber(n: int)
    | JString(s: string)
    | JArray(items: seq<JsonValue>)
    | JObject(fields: seq<(string, JsonValue)>)

  /** A failed parsing stage: message, HTTP status and optional detail. */
  datatype ParseError = ParseError(message: string, statusCode: int, details: Option<string>)

  /** `ParseResult<T>`: a success carries data and no error, a failure
      carries an error and no data. */
  datatype ParseResult<+T> = Success(data: T) | Failure(error: ParseError)

  /** The three parts of a request line. */
  datatype RequestLine = RequestLine(httpMethod: Method, path: string, version: string)

  /** `BodyContentType`. */
  datatype ContentType = JSON | FORM_URLENCODED | TEXT | HTML | MULTIPART | UNKNOWN

  /** The string value of each `BodyContentType` member. */
  function ContentTypeName(t: ContentType): string {
    match t
    case JSON => "application/json"
    case FORM_URLENCODED => "application/x-www-form-urlencoded"
    case TEXT => "text/plain"
    case HTML => "text/html"
    case MULTIPART => "multipart/form-data"
    case UNKNOWN => "unknown"
  }

  /** The shapes the `parsed` field of a body can take; `PNull` is `null`. */
  datatype ParsedValue =
    | PNull
    | PText(text: string)
    | PForm(fields: map<string, string>)
    | PJson(json: JsonValue)

  /** `ParsedBody` / `HTTPBody`. */
  datatype Body = Body(raw: string, parsed: ParsedValue, contentType: ContentType, size: nat)

  /** `HTTPRequest`. */
  datatype Request = Request(
    httpMethod: Method,
    path: string,
    version: string,
    headers: map<string, string>,
    body: Option<Body>,
    query: map<string, string>,
    raw: string)
}
