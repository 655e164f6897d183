/** The server's constant tables (src/utils/consts.ts): request methods,
    status codes with their reason phrases, header names and the protocol
    strings. */
module Consts {
  import opened Wrappers

  /** The seven request methods the server understands (`HTTPMethod`). */
  datatype Method = GET | POST | PUT | DELETE | PATCH | OPTIONS | HEAD

  /** The method's token as it appears on the wire. */
  function MethodName(m: Method): string {
    match m
    case GET => "GET"
    case POST => "POST"
    case PUT => "PUT"
    case DELETE => "DELETE"
    case PATCH => "PATCH"
    case OPTIONS => "OPTIONS"
    case HEAD => "HEAD"
  }

  /** `VALID_METHODS`, in declaration order. */
  const AllMethods: seq<Method> := [GET, POST, PUT, DELETE, PATCH, OPTIONS, HEAD]

  /** Reads a method token back; only the exact upper-case names are known. */
  function MethodFromName(s: string): (r: Option<Method>)
    ensures r.Some? ==> MethodName(r.value) == s
    ensures r.None? ==> forall m: Method :: MethodName(m) != s
  {
    if s == "GET" then Some(GET)
    else if s == "POST" then Some(POST)
    else if s == "PUT" then Some(PUT)
    else if s == "DELETE" then Some(DELETE)
    else if s == "PATCH" then Some(PATCH)
    else if s == "OPTIONS" then Some(OPTIONS)
    else if s == "HEAD" then Some(HEAD)
    else None
  }

  // HTTP_STATUS
  const OK := 200
  const CREATED := 201
  const NO_CONTENT := 204
  const BAD_REQUEST := 400
  const UNAUTHORIZED := 401
  const FORBIDDEN := 403
  const NOT_FOUND := 404
  const METHOD_NOT_ALLOWED := 405
  const REQUEST_TIMEOUT := 408
  const PAYLOAD_TOO_LARGE := 413
  const INTERNAL_SERVER_ERROR := 500
  const NOT_IMPLEMENTED := 501
  const SERVICE_UNAVAILABLE := 503

  /** `HTTP_STATUS_TEXT`: the reason phrase of each known status code. */
  function StatusText(code: int): Option<string> {
    if code == 200 then Some("OK")
    else if code == 201 then Some("Created")
    else if code == 204 then Some("No Content")
    else if code == 400 then Some("Bad Request")
    else if code == 401 then Some("Unauthorized")
    else if code == 403 then Some("Forbidden")
    else if code == 404 then Some("Not Found")
    else if code == 405 then Some("Method Not Allowed")
    else if code == 408 then Some("Request Timeout")
    else if code == 413 then Some("Payload Too Large")
    else if code == 500 then Some("Internal Server Error")
    else if code == 501 then Some("Not Implemented")
    else if code == 503 then Some("Service Unavailable")
    else None
  }

  // COMMON_HEADERS (always lower case)
  const CONTENT_TYPE := "content-type"
  const CONTENT_LENGTH := "content-length"
  const HOST := "host"
  const DATE := "date"
  const SERVER := "server"
  const TRANSFER_ENCODING := "transfer-encoding"

  // HTTP_PROTOCOL
  const VERSION := "HTTP/1.1"
  const CRLF := "\r\n"
  const HEADER_END := "\r\n\r\n"

  // SERVER_DEFAULTS.SERVER_NAME
  const SERVER_NAME := "CustomHTTPServer/1.0"
}
