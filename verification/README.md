# A verified model of the request pipeline of a small HTTP server

This project models, in Dafny, the request pipeline of a small HTTP/1.1
server written in TypeScript. The pipeline has these stages:

1. The **request buffer** frames requests from the byte stream of a TCP connection.
2. The **request-line parser** and the **headers parser** read the method, path, version and header record.
3. The **body parser** classifies the body by its `Content-Type` and decodes it.
4. The **HTTP parser** puts these together, splits off the query string and turns a thrown `URIError` into a 500.
5. The **router** matches a request against `/users/:id`-style templates, in registration order.
6. The **response builder** assembles status, headers and body into response text.

Every operation is a pure function over immutable values:

- A builder or a router is a value that each call returns anew.
- JavaScript's `JSON.parse` and `JSON.stringify` are function parameters.
- The current time is a `date` parameter.

Modules, one per source file, plus shared helpers:

| module | models |
|---|---|
| `Consts`, `Types` | the constants and the request, body and error records |
| `Text` | the string built-ins the code relies on: `trim`, `split`, `indexOf`, `includes`, ASCII case mapping, decimal rendering, UTF-16 and UTF-8 lengths |
| `JsParseInt` | `parseInt(s, 10)` |
| `UriDecode` | `decodeURIComponent`, as section 19.2.6.3 of ECMA-262, 13th edition (ECMAScript 2022), defines it, through the Decode operation of section 19.2.6.1.2 |
| `LastWins` | writing entries one by one into a plain object: a later write of a key replaces an earlier one |
| `RequestBuffer` | the framer, working on bytes |
| `Validator`, `RequestLineParser`, `HeadersParser`, `BodyParser`, `HttpParser` | the parsers |
| `Router` | the router |
| `ResponseBuilder` | the builder |
| `ResponseRoundTrip` | reads built responses back with the server's own header parser |
| `RequestRoundTrip` | writes a request as request line, header lines, blank line and payload, and reads it back with the HTTP parser |

Two points about what the code does:

- **The request path is not percent-decoded.** `HTTPParser.parse` keeps the path exactly as it appears in the request line. Only the query string is decoded.
- **A body is complete without a trailing line feed.** The unit test at `src/http/buffer/__tests__/request-buffer.test.ts:118-136` expects the framer to wait for a line feed after the body. The code returns the message as soon as `Content-Length` bytes of body are buffered. `RequestBuffer.HttpFramingWithLength` states what the code does. A line feed that follows the body is dropped from the buffer.

## Model

| member | source | states |
|---|---|---|
| Consts.MethodFromName | src/utils/consts.ts:1-11 | a method token reads back as the method exactly when it is that method's upper-case name, and as nothing when no method has that name |
| Text.Trim | src/http/parsers/header.ts:55-56 | the trimmed text is empty exactly when the input is all white space, and otherwise neither starts nor ends with white space |
| Text.TrimEmpty | src/http/parsers/request-line.ts:7 | trimming at the start and then at the end leaves nothing exactly when the line is all white space |
| Text.TrimSurrounded | src/http/parsers/request-line.ts:11 | white space around a text without white-space ends is removed and nothing else changes |
| Text.Split | src/http/parsers/http.ts:16 | `split` gives at least one piece; the pieces joined by the separator give back the input and none holds the separator |
| Text.SplitJoin | src/http/parsers/body.ts:168 | pieces free of a one-character separator, joined by it, split back into the same pieces |
| Text.IndexOf | src/http/parsers/http.ts:94 | `indexOf` finds an occurrence and no earlier one; none means the pattern does not occur |
| Text.ToLowerIsLower | src/http/parsers/header.ts:55 | lower-casing yields lower-case text, is idempotent and leaves lower-case text alone |
| Text.NatToString | src/http/response-builder.ts:64 | the decimal rendering is a digit string without a leading zero whose value is the number |
| Text.Utf16Length | src/http/parsers/body.ts:74 | a string's JavaScript `length` counts UTF-16 units: between one and two per character, one exactly when every character is in the basic plane |
| Text.Utf8Length | src/http/response-builder.ts:64 | `Buffer.byteLength` is between one and four bytes per character, one exactly when the text is ASCII |
| LastWins.AssignSpec | src/http/parsers/header.ts:27-30 | a key is in the object exactly when some entry writes it, and its value is the one the last such entry writes |
| LastWins.AssignKeeps | src/http/parsers/body.ts:181 | a property every written entry has holds of every field of the object |
| LastWins.AssignNothing | src/http/parsers/http.ts:103-111 | entries that write nothing leave the object empty |
| JsParseInt.ReadDigits | src/http/parsers/body.ts:206 | a number is read exactly when the text after the sign starts with a digit |
| JsParseInt.ParseIntNaN | src/http/parsers/body.ts:206-210 | `parseInt` is `NaN` exactly when, after leading white space and one optional sign, no digit follows |
| JsParseInt.ParseIntPrefix | src/http/buffer/request-buffer.ts:49 | leading white space is skipped and the digits before the first non-digit give the value; what follows is ignored |
| JsParseInt.ParseIntLeading | src/http/parsers/body.ts:218 | a decimal rendering followed by a non-digit reads back as the number |
| JsParseInt.ParseIntDigits | src/http/parsers/body.ts:206 | a digit run followed by text that does not start with a digit reads as the run's value |
| JsParseInt.ParseIntOfDigits | src/http/validator.ts:30 | a text made only of digits reads as its value |
| JsParseInt.ParseIntNegative | src/http/parsers/body.ts:206 | a minus sign followed by digits reads as the negated value |
| JsParseInt.ParseIntOfInt | src/http/response-builder.ts:77 | the decimal rendering of any integer, negative ones included, reads back as that integer |
| UriDecode.CodePoint | src/http/parsers/http.ts:109 | a UTF-8 sequence is accepted only when it has two to four octets and encodes a non-ASCII scalar value whose shortest UTF-8 form has exactly that many octets, so overlong forms and surrogates throw |
| UriDecode.Utf8RoundTrip | src/http/parsers/http.ts:109 | the UTF-8 octets of a non-ASCII character decode back to that character |
| UriDecode.DecodeNoPercent | src/http/parsers/http.ts:109 | text without `%` decodes to itself |
| UriDecode.DecodeEscapedChar | src/http/parsers/http.ts:109 | the escaped UTF-8 octets of one character decode to that character, followed by the decoding of the rest |
| UriDecode.DecodeEncode | src/http/parsers/http.ts:109 | `decodeURIComponent` inverts percent-encoding of every string |
| UriDecode.MalformedEscapes | src/http/parsers/http.ts:109 | worked examples, one concrete escape per kind and not a general property: a truncated escape, a non-hex escape, a lone continuation octet, a cut-off sequence, an overlong encoding and an encoded surrogate all throw |
| UriDecode.WellFormedEscapes | src/http/parsers/body.ts:176-179 | a worked example next to DecodeEncode, not a general property: a two-octet escape decodes to its character and `%20` to a space |
| RequestBuffer.Reset | src/http/buffer/request-buffer.ts:134-141 | after `reset` the buffer holds no byte |
| RequestBuffer.ResetForgets | src/http/buffer/request-buffer.ts:134-145 | after `reset`, `getSize` is 0 and a feed behaves exactly as on a fresh buffer |
| RequestBuffer.SpaceWidthSound | src/http/buffer/request-buffer.ts:17 | each byte pattern the mode test accepts after the method is the UTF-8 encoding of a JavaScript white-space character |
| RequestBuffer.SpaceWidthComplete | src/http/buffer/request-buffer.ts:17 | the UTF-8 encoding of every JavaScript white-space character is accepted, with its full width |
| RequestBuffer.HttpModeMeaning | src/http/buffer/request-buffer.ts:16-19 | the buffer is in HTTP mode exactly when it starts with one of the seven method tokens followed by the UTF-8 encoding of a white-space character, as the regular expression over the decoded text says |
| RequestBuffer.FindMatch | src/http/buffer/request-buffer.ts:44 | the search finds a match of `content-length:\s*(\d+)` (any letter case) and no earlier one |
| RequestBuffer.ContentLengthLeftmost | src/http/buffer/request-buffer.ts:44-50 | there is no length exactly when the regular expression matches nowhere; otherwise the length is the value of the digits captured by the leftmost match |
| RequestBuffer.TakeMessage | src/http/buffer/request-buffer.ts:73-80 | the message is the front of the buffer and at most one LF right after it is consumed as well |
| RequestBuffer.ExtractPlain | src/http/buffer/request-buffer.ts:110-132 | a plain-text frame is a front part of the buffer, followed by at most one consumed LF |
| RequestBuffer.ExtractHttp | src/http/buffer/request-buffer.ts:28-108 | an HTTP frame is a front part of the buffer, followed by at most one consumed LF |
| RequestBuffer.Feed | src/http/buffer/request-buffer.ts:6-26 | no byte is lost or reordered: without a message the chunk is appended; with one, the old bytes and the chunk are exactly the message, at most one LF, and what stays buffered |
| RequestBuffer.PlainTextFraming | src/http/buffer/request-buffer.ts:110-132 | outside HTTP mode a message comes out exactly when the buffer holds an LF; it is the text before the first LF, and the bytes after that LF stay buffered |
| RequestBuffer.HttpFramingWithoutLength | src/http/buffer/request-buffer.ts:28-54 | in HTTP mode nothing comes out before CRLF CRLF; with no Content-Length the message ends at CRLF CRLF and one LF right after it is dropped |
| RequestBuffer.HttpFramingWithLength | src/http/buffer/request-buffer.ts:56-90 | with Content-Length n, the message is withheld exactly while fewer than header-end + n bytes are buffered, and is then exactly those bytes; one LF right after it is dropped |
| RequestBuffer.HttpTrailingLineFeed | src/http/buffer/request-buffer.ts:73-80 | after an HTTP message, a following LF is dropped and any other following byte stays buffered as the first byte |
| RequestBuffer.GrowingIntoHttpMode | src/http/buffer/request-buffer.ts:16-24 | a buffer that only reaches HTTP mode with more bytes holds no LF yet, so it had no plain-text message to give |
| RequestBuffer.HttpModeExtend | src/http/buffer/request-buffer.ts:17 | once the buffer is in HTTP mode, more bytes keep it there |
| RequestBuffer.ExtractMonotone | src/http/buffer/request-buffer.ts:6-26 | once a buffer holds a complete message, more bytes do not change which message comes out first |
| RequestBuffer.ChunkingInvariance | src/http/buffer/request-buffer.ts:6-26 | however the stream is cut into chunks, the first message the feeds return is the one a single feed of the whole stream returns |
| Validator.UpperForm | src/http/validator.ts:6 | `toUpperCase` of an ASCII character is its ASCII upper case; no character upper-cases to more than three |
| Validator.JsToUpperAscii | src/http/validator.ts:6 | on ASCII text the full Unicode upper-casing is the ASCII one |
| Validator.MethodOf | src/http/validator.ts:5-7 | a token is a method exactly when its upper-case form is one of the seven method names, and that is the method it names |
| Validator.MethodCaseInsensitive | src/http/validator.ts:5-7 | every method name is accepted in upper and in lower case |
| Validator.MethodOfAscii | src/http/validator.ts:5-7 | an ASCII token names a method exactly when its ASCII upper case is that method's name |
| Validator.LongSMethod | src/http/validator.ts:5-7 | a worked example next to MethodOf, not a general property: because upper-casing is full Unicode, `poſt` (with a long s) is accepted as POST |
| Validator.ValidVersionShape | src/http/validator.ts:9-11 | an accepted version is `HTTP/` digit `.` digit, and every such text is accepted |
| Validator.OwnVersionValid | src/http/validator.ts:9-11 | a worked example next to ValidVersionShape, not a general property: the server's own `HTTP/1.1` passes the version check |
| Validator.ContainsAt | src/http/validator.ts:16 | `includes` holds exactly when the pattern occurs at some position |
| Validator.ValidPathMeaning | src/http/validator.ts:13-19 | a path is valid exactly when it starts with `/` and has no two consecutive dots |
| Validator.ValidPathNoParentSegment | src/http/validator.ts:13-19 | a valid path splits on `/` into an empty first piece and has no `..` segment |
| Validator.ValidHeaderMeaning | src/http/validator.ts:21-23 | a header line is valid exactly when it holds a colon |
| Validator.ValidContentLengthMeaning | src/http/validator.ts:25-32 | a Content-Length is valid exactly when it is a non-empty run of digits, and `parseInt` then reads its value |
| Validator.ContentLengthRoundTrip | src/http/validator.ts:25-32 | the decimal rendering of every natural number is a valid Content-Length that reads back as the number |
| RequestLineParser.Parse | src/http/parsers/request-line.ts:6-46 | a failure is a 400 or a 405 without details; a success carries a valid path and a valid version |
| RequestLineParser.ParseBlank | src/http/parsers/request-line.ts:7-9 | exactly the empty and the all-white-space lines are rejected as empty, with 400 |
| RequestLineParser.ParseSound | src/http/parsers/request-line.ts:11-45 | an accepted line is, once trimmed, the method token, the path and the version joined by single spaces; the token names the method and the path holds no space |
| RequestLineParser.SplitThree | src/http/parsers/request-line.ts:11 | three space-free pieces joined by single spaces split back into those three pieces |
| RequestLineParser.ThreePieces | src/http/parsers/request-line.ts:11-15 | a line of three space-free pieces, with white space around it, is not blank and splits into exactly those pieces |
| RequestLineParser.ParseRoundTrip | src/http/parsers/request-line.ts:6-46 | a method token, a valid space-free path and a valid version, joined by single spaces and padded with white space, parse back to that request line |
| RequestLineParser.MethodCheckedFirst | src/http/parsers/request-line.ts:19-21 | a three-piece line whose first piece is not a method is rejected with 405 and the method message, whatever the path and version are |
| RequestLineParser.PathCheckedSecond | src/http/parsers/request-line.ts:23-25 | with a known method, a path that fails the path check is rejected with 400 and a message naming the path, whatever the version is |
| RequestLineParser.VersionCheckedLast | src/http/parsers/request-line.ts:27-29 | with a known method and a valid path, a version that fails the version check is rejected with 400 and a message naming the version |
| RequestLineParser.ParseThree | src/http/parsers/request-line.ts:17-45 | a non-blank line whose trimmed form splits into three pieces is decided by the method check, then the path check, then the version check, and otherwise gives the request line of those pieces |
| RequestLineParser.ParseMalformed | src/http/parsers/request-line.ts:11-15 | a non-blank line whose trimmed form does not split into exactly three pieces is rejected as malformed with 400 |
| RequestLineParser.DoubledSpaceMalformed | src/http/parsers/request-line.ts:11-15 | two spaces between method and path make an extra empty piece, the second of four, so the line is rejected as malformed with 400 |
| RequestLineParser.DoubledSplit | src/http/parsers/request-line.ts:11 | splitting on single spaces turns a doubled space into an empty piece |
| HeadersParser.ParseHeaderLine | src/http/parsers/header.ts:45-59 | a line without a colon gives an empty name and no value; a line with one gives a value |
| HeadersParser.ParseHeaderLineAt | src/http/parsers/header.ts:49-58 | a line is split at its first colon: the name is the trimmed, lower-cased text before it and the value is the trimmed rest, later colons included |
| HeadersParser.ColonAfter | src/http/parsers/header.ts:49 | the first colon of a name without colons, followed by a colon and any text, is the one right after the name |
| HeadersParser.HeaderLineShape | src/http/parsers/header.ts:55-56 | the name before the first colon is trimmed and lower-cased, and the value after it is trimmed |
| HeadersParser.Entry | src/http/parsers/header.ts:17-30 | a line writes a field only when it holds a colon and its name is non-empty |
| HeadersParser.BlockEnd | src/http/parsers/header.ts:10-15 | the header block ends at the first empty or all-white-space line, or at the end of the lines |
| HeadersParser.Parse | src/http/parsers/header.ts:6-43 | parsing headers never fails |
| HeadersParser.ParseSpec | src/http/parsers/header.ts:6-43 | a name is in the record exactly when some line of the block writes it, and its value is the one the last such line writes |
| HeadersParser.ParseNames | src/http/parsers/header.ts:10-31 | a name is in the record exactly when some line of the block carries it |
| HeadersParser.ParseValues | src/http/parsers/header.ts:10-31 | a name's value in the record is the one written by the last line that carries it |
| HeadersParser.ParseShape | src/http/parsers/header.ts:25-30 | every name in the record is non-empty, trimmed and lower case, and every value is trimmed |
| HeadersParser.ParseStopsAtBlank | src/http/parsers/header.ts:10-15 | the first line is skipped and lines after the first blank one are ignored |
| HeadersParser.BlockEndAt | src/http/parsers/header.ts:10-15 | the block ends at the first blank line after the start, and at no other line |
| HeadersParser.LookupIgnoresCase | src/http/parsers/header.ts:61-67 | lookup gives the same answer for a name in any ASCII letter case, and `hasHeader` holds exactly when `getHeader` finds a value |
| HeadersParser.ParsedLookup | src/http/parsers/header.ts:61-63 | looking a name up in a parsed record, in any letter case, finds it exactly when some header line carries its lower-case form, and gives the value of the last such line |
| BodyParser.PairEntries | src/http/parsers/body.ts:168-183 | every piece is decoded in order; the whole fails exactly when some piece's decoding throws |
| BodyParser.EncodedPlusFree | src/http/parsers/body.ts:176-178 | percent-encoded text holds no `+`, `&` or `=`, so the `+` translation leaves it alone |
| BodyParser.PairEntryEncoded | src/http/parsers/body.ts:173-181 | one encoded `key=value` field decodes back to that key and value |
| BodyParser.DecodeEncodePairs | src/http/parsers/body.ts:163-194 | an encoded form decodes to the object that writing its fields in order gives: a later duplicate key wins, and the empty field list gives `{}` |
| BodyParser.EmptyKeyPair | src/http/parsers/body.ts:171-175 | a piece whose key is empty writes nothing, whatever its value |
| BodyParser.MissingValue | src/http/parsers/body.ts:173-179 | a piece without `=` is its decoded key with the empty value |
| BodyParser.EmptyPairs | src/http/parsers/body.ts:169-176 | the empty text decodes to the empty object |
| BodyParser.PlainValue | src/http/parsers/body.ts:173-181 | a field without escapes reads as itself, with `+` becoming a space only in a form body |
| BodyParser.SecondEqualsDropsRest | src/http/parsers/body.ts:173 | text after a second `=` is dropped: `a=b=c` gives `a` the value `b` |
| BodyParser.ContentTypeIgnoresParameters | src/http/parsers/body.ts:101 | parameters after the first `;` never change the classification |
| BodyParser.ContentTypeRoundTrip | src/http/parsers/body.ts:94-124 | each content type's own name classifies back as that type, in lower case, in upper case and in any mix of ASCII cases, each with or without parameters after a `;` |
| BodyParser.NameRoundTrip | src/http/parsers/body.ts:94-124 | a lower-case media-type name is classified the same as itself in upper case and with any parameters |
| BodyParser.ClassifiedAs | src/http/parsers/body.ts:94-124 | a header value made only of letters, `/` and `-` is classified by its lower-case form |
| BodyParser.ClassifyNames | src/http/parsers/body.ts:103-123 | the substring tests classify each type's own name as that type, despite being tried in order |
| BodyParser.ParseByContentType | src/http/parsers/body.ts:126-161 | text, HTML and unknown bodies stay raw text; multipart gives `null`; JSON and form bodies give `null` exactly when their decoding fails, and otherwise the decoded value |
| BodyParser.Parse | src/http/parsers/body.ts:22-92 | body parsing never fails; without CRLF CRLF the body is empty; a body's size is 0 exactly when it is the empty body, and is otherwise the UTF-16 length of the raw text |
| BodyParser.ParseSplitsAtHeaderEnd | src/http/parsers/body.ts:27-76 | the body is the text after the first CRLF CRLF; a blank one is the empty body, and any other is classified by `Content-Type`, decoded and measured |
| BodyParser.ValidateContentLengthSpec | src/http/parsers/body.ts:196-213 | with a Content-Length that starts with digits, the check holds exactly when the body size equals their value; without the header it always holds |
| BodyParser.ValidateContentLengthNaN | src/http/parsers/body.ts:206-210 | a non-empty Content-Length that `parseInt` cannot read always fails the check |
| BodyParser.HasBodyByLength | src/http/parsers/body.ts:215-220 | without Transfer-Encoding, a request has a body exactly when its Content-Length reads as a positive number |
| BodyParser.HasBodyChunked | src/http/parsers/body.ts:222-227 | a Transfer-Encoding that mentions `chunked`, in any ASCII case, means a body; without either header there is none |
| HttpParser.ParseQueryParams | src/http/parsers/http.ts:90-114 | the path is the text before the first `?` and holds no `?`; without a `?` the whole text is the path and the query is empty |
| HttpParser.QueryRoundTrip | src/http/parsers/http.ts:90-114 | a path followed by `?` and an encoded field list, empty or not, gives back that path and the object that writing the fields in order gives |
| HttpParser.EmptyQuery | src/http/parsers/http.ts:94-111 | a target ending in a bare `?` gives the path and the empty query `{}` |
| HttpParser.QueryMalformed | src/http/parsers/http.ts:106-111 | a malformed escape in any query piece makes the query split throw |
| HttpParser.FirstLineOf | src/http/parsers/http.ts:16-18 | the request line is the text before the first CRLF |
| HttpParser.Parse | src/http/parsers/http.ts:8-88 | a failure is the request line's own error or the 500 of a thrown `URIError`; a success keeps the raw text, has a path without `?` and has a body only when it is non-empty |
| HttpParser.RequestLineErrorPropagates | src/http/parsers/http.ts:18-25 | a rejected request line's error is returned unchanged |
| HttpParser.MalformedQueryIs500 | src/http/parsers/http.ts:73-87 | a malformed escape in the query makes the whole parse a 500 "Erro interno no parser" carrying the `URIError` |
| RequestRoundTrip.RequestReadsBack | src/http/parsers/http.ts:16-57 | a request line with a method token, a valid target and a valid version, followed by non-blank one-line header lines, a blank line and a payload, parses to that method and version, the path and query the target splits into, the record the header lines write with the last line winning, and the payload as body unless it is blank; a malformed query escape gives the 500 instead |
| RequestRoundTrip.EncodedRequestReadsBack | src/http/parsers/http.ts:16-57 | with a path followed by `?` and a percent-encoded field list, possibly empty, as target, the parsed request has that path and the object the fields write, together with the method, version, headers and body above |
| RequestRoundTrip.RequestLines | src/http/parsers/http.ts:16-18 | the request text splits at CRLF into the request line, the header lines, an empty line and the pieces of the payload |
| RequestRoundTrip.HeaderEndAfter | src/http/parsers/body.ts:27-44 | after non-empty one-line lines joined by CRLF, the first CRLF CRLF is the one that follows them, so the body starts after the blank line |
| RequestRoundTrip.TargetOk | src/http/validator.ts:13-15 | a percent-encoded query after a valid path keeps the target valid: it adds no `..` and no space |
| Router.NameRun | src/router/index.ts:78 | the parameter-name run is the longest prefix of name characters |
| Router.Tokenize | src/router/index.ts:72-91 | every parameter token of a template carries a name of the form `[a-zA-Z_][a-zA-Z0-9_]*` |
| Router.TemplateTokenize | src/router/index.ts:72-91 | tokenizing a template loses nothing: the tokens write back as the template |
| Router.SegmentRun | src/router/index.ts:81 | the run a parameter may take is the longest prefix without `/` |
| Router.MatchTokens | src/router/index.ts:54 | a match gives one non-empty, `/`-free capture per parameter, and filling the captures into the template gives the path |
| Router.TryCaptures | src/router/index.ts:81 | a parameter captures a non-empty, `/`-free prefix of the path, and the rest of the template matches the rest of the path |
| Router.TryCapturesNone | src/router/index.ts:81 | the search fails exactly when no capture length up to the limit lets the rest of the template match |
| Router.TryCapturesLongest | src/router/index.ts:81 | the capture is the longest that lets the rest of the template match, as the greedy `([^/]+)` takes it |
| Router.MatchMeaning | src/router/index.ts:72-91 | the anchored pattern matches a path exactly when some `/`-free, non-empty values filled into the template give the path |
| Router.MatchComplete | src/router/index.ts:72-91 | filling any `/`-free, non-empty values into a template gives a path the template matches |
| Router.SegmentRunCovers | src/router/index.ts:81 | a `/`-free value at the front of a path lies inside the run a parameter may take |
| Router.LiteralTemplate | src/router/index.ts:72-91 | a template without parameters matches exactly the path that equals it, since special characters are escaped |
| Router.LiteralRender | src/router/index.ts:75 | a template without parameters renders as its own text |
| Router.AddRoute | src/router/index.ts:29-44 | a new route goes after every earlier one, with the given method and handler and the template's tokens |
| Router.Get | src/router/index.ts:13-15 | `get` appends one GET route for the template and handler after the earlier ones, so a router built this way holds only registrable methods |
| Router.Post | src/router/index.ts:17-19 | `post` appends one POST route for the template and handler after the earlier ones, so a router built this way holds only registrable methods |
| Router.Put | src/router/index.ts:21-23 | `put` appends one PUT route for the template and handler after the earlier ones, so a router built this way holds only registrable methods |
| Router.Delete | src/router/index.ts:25-27 | `delete` appends one DELETE route for the template and handler after the earlier ones, so a router built this way holds only registrable methods |
| Router.ParamsSpec | src/router/index.ts:60-63 | the params object holds exactly the template's parameter names, and a name's value is the capture of its last occurrence |
| Router.MatchRoutes | src/router/index.ts:46-69 | there is no match exactly when no route accepts the method and path; otherwise the result is the first accepting route's handler and params |
| Router.AppendRoute | src/router/index.ts:49-68 | a route added last is consulted only when no earlier route matches |
| Router.AddRouteKeepsEarlier | src/router/index.ts:36-41 | registering a route never changes a request that already matched, and serves an unmatched request only if the new route accepts it |
| Router.UnregistrableNeverMatches | src/router/index.ts:13-27 | a router built only through get, post, put and delete never matches a PATCH, OPTIONS or HEAD request |
| Router.OtherMethodSkipped | src/router/index.ts:50-52 | a route for another method is skipped |
| Router.SingleParam | src/router/index.ts:72-91 | `prefix:name` matches `prefix` followed by any `/`-free, non-empty value, and its params map `name` to that value |
| Router.OneSegment | src/router/index.ts:81 | a lone parameter captures any non-empty, `/`-free value whole |
| Router.TokenizeLiteralThenParam | src/router/index.ts:75-83 | a colon-free prefix followed by `:name` tokenizes into the prefix's literal characters and one parameter |
| Router.LiteralsMatch | src/router/index.ts:75 | literal characters of a template match only themselves |
| ResponseBuilder.Lookup | src/http/response-builder.ts:21 | a header is found exactly when some entry has its name, and then with that entry's value |
| ResponseBuilder.SetHeader | src/http/response-builder.ts:21 | writing a header makes its name read the new value and leaves every other name as it was |
| ResponseBuilder.SetHeaderOrder | src/http/response-builder.ts:21 | a rewritten name keeps its place in insertion order and a new name goes last; names stay unique |
| ResponseBuilder.Status | src/http/response-builder.ts:15-18 | `status` sets the code and changes nothing else |
| ResponseBuilder.Header | src/http/response-builder.ts:20-23 | `header` stores the value under the lower-case name and leaves every other header, the status and the body alone |
| ResponseBuilder.HeaderIgnoresCase | src/http/response-builder.ts:20-23 | `header` does the same for a name in any ASCII letter case |
| ResponseBuilder.MultipleHeaders | src/http/response-builder.ts:25-30 | `multipleHeaders` leaves the status and the body alone and keeps header names unique |
| ResponseBuilder.MultipleHeadersSpec | src/http/response-builder.ts:25-30 | after `multipleHeaders`, a name reads the value of the last entry that writes it, or its old value when none does |
| ResponseBuilder.Json | src/http/response-builder.ts:32-36 | the body is the serialised data, the content type is JSON, and the status and every other header stay |
| ResponseBuilder.PlainText | src/http/response-builder.ts:38-42 | the body is the text, the content type is `text/plain`, and the status and every other header stay |
| ResponseBuilder.Html | src/http/response-builder.ts:44-48 | the body is the HTML, the content type is `text/html`, and the status and every other header stay |
| ResponseBuilder.ErrorBody | src/http/response-builder.ts:52-56 | the error object starts with the reason phrase, or "Unknown Error", ends with the status code, and has a message field exactly when a non-empty message is given or the code is known |
| ResponseBuilder.Error | src/http/response-builder.ts:50-58 | `error` sets the status and a JSON body of the error object; every header other than the content type stays |
| ResponseBuilder.ErrorBodyDefaults | src/http/response-builder.ts:52-56 | without a message, a known code's reason phrase is also the message and an unknown code has none; an empty message counts as none |
| ResponseBuilder.StatusLineReadsBack | src/http/response-builder.ts:76-77 | the status line splits on spaces into the version, a number that `parseInt` reads as the code, and the reason phrase |
| ResponseBuilder.WithDefaults | src/http/response-builder.ts:61-74 | Content-Length, Date and Server keep a non-empty value they already have; otherwise they become the UTF-8 length of the body, the given date and `CustomHTTPServer/1.0`; nothing else changes |
| ResponseBuilder.Render | src/http/response-builder.ts:76-89 | the response text starts with the status line and CRLF and ends with the body |
| ResponseBuilder.Build | src/http/response-builder.ts:60-99 | `build` leaves the builder with its defaults filled in and returns text that starts with the status line and ends with the body |
| ResponseBuilder.BuildIdempotent | src/http/response-builder.ts:60-74 | building a second time, at any later date, gives the same text and state |
| ResponseBuilder.BuildKeepsExplicit | src/http/response-builder.ts:61-74 | a Content-Length, Date or Server header set beforehand survives `build` |
| ResponseBuilder.FormatHeaderNameSpec | src/http/response-builder.ts:101-106 | formatting a header name upper-cases the first letter of each `-`-separated part and lower-cases the rest |
| ResponseBuilder.CapitalizeAtDash | src/http/response-builder.ts:102-105 | formatting works part by part across each `-` |
| ResponseBuilder.FormatHeaderNameCase | src/http/response-builder.ts:101-106 | formatting keeps the length and the letters apart from their case, and formatting twice changes nothing |
| ResponseBuilder.Ok | src/http/response-builder.ts:108-112 | `ok` is a 200; a truthy value becomes its JSON body, and a missing or falsy one leaves no body and no header |
| ResponseBuilder.Created | src/http/response-builder.ts:114-118 | `created` is a 201; a truthy value becomes its JSON body, and a missing or falsy one leaves no body and no header |
| ResponseBuilder.NoContent | src/http/response-builder.ts:120-122 | `noContent` is a 204 with no header and no body |
| ResponseBuilder.BadRequest | src/http/response-builder.ts:124-126 | `badRequest` is the 400 error, titled "Bad Request" |
| ResponseBuilder.NotFound | src/http/response-builder.ts:128-130 | `notFound` is the 404 error, titled "Not Found" |
| ResponseBuilder.MethodNotAllowed | src/http/response-builder.ts:132-134 | `methodNotAllowed` is the 405 error, titled "Method Not Allowed" |
| ResponseBuilder.InternalError | src/http/response-builder.ts:136-141 | `internalError` is the 500 error, titled "Internal Server Error" |
| ResponseRoundTrip.LineEntry | src/http/response-builder.ts:79-81 | a header line the builder writes is read back by the server's header parser as the lower-case name and the value |
| ResponseRoundTrip.HeaderLineOf | src/http/parsers/header.ts:45-59 | a `Name: value` line whose name has no colon, no CR and no white space at either end, and whose value is trimmed, parses as the lower-case name and the value |
| ResponseRoundTrip.HeaderLinesRead | src/http/response-builder.ts:79-81 | every header line of a response reads back as its header, fits on one line and is not blank |
| ResponseRoundTrip.SplitLines | src/http/response-builder.ts:81-89 | lines without CR, joined by CRLF and followed by CRLF, split back into those lines |
| ResponseRoundTrip.RenderedLines | src/http/response-builder.ts:83-89 | the response splits on CRLF into the status line, the header lines, an empty line and the body's lines |
| ResponseRoundTrip.AssignUnique | src/http/response-builder.ts:79 | writing headers with unique names into an object gives back each header exactly |
| ResponseRoundTrip.DefaultsSafe | src/http/response-builder.ts:61-74 | the default headers `build` adds can be read back, given a date without CR or white space at either end |
| ResponseRoundTrip.RenderReadsBack | src/http/response-builder.ts:76-89 | reading a response back, the first line is the status line and the header record equals the builder's headers |
| ResponseRoundTrip.BuildReadsBack | src/http/response-builder.ts:60-99 | a built response reads back with the status line and exactly the built headers, Content-Length, Date and Server among them |

## Left out

- Logging (`bufferLogger`, `parserLogger`, `serverLogger`) and `sanitizePreview`: their only effect is log output.
- The TCP server, the entry point and the client: sockets and process start-up are I/O.
- `listRoutes` (src/router/index.ts:93-98): it returns the source text of compiled regular expressions, which the model replaces by a list of tokens.
- `JSON.parse` and `JSON.stringify`: they are parameters, and JSON numbers are integers (`JNumber(int)`), with no floating point.
- ResponseBuilder status codes (src/http/response-builder.ts:11-16, 50-51 and 77): modelled as integers (`statusCode: int`). The source's code is a JavaScript `number` and is printed with `${this.statusCode}`, so a non-integer such as `200.5`, `NaN`, `Infinity` or a value of at least `1e21` (printed as `1e+21`) renders in ways the model does not have.
- `new Date().toUTCString()`: the clock is the `date` parameter of `build`.
- The framer returns the bytes of a message. Turning them into a string, including the replacement character for invalid UTF-8, is left to the caller.
- RequestBuffer.ContentLengthLeftmost: a length above 2^53 is read exactly, where `parseInt` would round it to a float.
- JsParseInt.ParseIntNaN: values of any size are exact integers; JavaScript's rounding above 2^53 and `Infinity` are not modelled.
- Text.ToLowerIsLower: lower-casing is exact only for characters whose lower-case form is ASCII (the ASCII capitals and the Kelvin sign). Other letters keep their case, where `toLowerCase` would map `Ä` to `ä`.
- ResponseBuilder.FormatHeaderNameSpec: the upper-casing of the first letter of a part is ASCII only, where `toUpperCase` would also map `ß` to `SS` and lengthen the name.
- Validator.UpperForm: characters whose upper-case form is not ASCII keep their form. Comparing the result with an ASCII method name gives the same answer either way.
- BodyParser.ParseByContentType: a JSON body that is the literal `null` gives `PJson(JNull)`, where the source's value is the same `null` a failed parse gives.
- BodyParser.Parse: the `catch` of `parse` (src/http/parsers/body.ts:77-91) is unreachable, because `parseJSON` and `parseFormUrlEncoded` catch their own errors. The model has no failure branch.
- HttpParser.Parse: the details of the 500 are the `URIError`'s message, not the error object. Other throws (a stack overflow, running out of memory) are not modelled.
- Plain objects are maps, so a `__proto__` key, which JavaScript objects treat specially, behaves like any other key.
- Header order: `Object.entries` lists integer-like names such as `123` before the others. The builder keeps plain insertion order, which differs only for such names.
- The builder's mutators return the builder itself so that calls chain; here a builder is a value and each mutator returns the updated value.
- HeadersParser.GetHeader: the record is a plain `{}`, so `headers[name.toLowerCase()]` (src/http/parsers/header.ts:62) also finds names inherited from `Object.prototype`. Because the name is lower-cased first, this differs from the model only for names whose lower case is an inherited all-lower-case property, namely `constructor` and `__proto__`. `getHeader` of `Constructor` on an empty record gives the `Object` function. The model's record holds only parsed names and gives nothing.
- HeadersParser.HasHeader: for the same reason `name.toLowerCase() in headers` (src/http/parsers/header.ts:66) is true for a name whose lower case is `constructor` or `__proto__`. So `hasHeader({}, "Constructor")` is true in the source and false in the model. A name such as `toString` lower-cases to `tostring`, which is not inherited, so both answer false.
- Router.MatchTokens: the route's regular expression has no `u` flag, so `([^/]+)` matches UTF-16 code units. Against `/:a:b` the source matches `/😀` with `a` and `b` the two halves of the surrogate pair. Here strings are Unicode scalar values, a capture cannot split a character, and that match is `None`.
- Strings are sequences of Unicode scalar values, so a string holding a lone UTF-16 surrogate cannot be expressed.
- ResponseRoundTrip.RenderReadsBack: stated only for header names that are non-empty, without a colon or CR and without white space at either end, and for values without CR or white space at either end. Other headers do not survive the server's own parser.
- BodyParser.DecodeEncodePairs: stated for fields whose keys are not empty. A field with an empty key encodes as a piece `=value`, which the source skips; BodyParser.EmptyKeyPair states that on its own.
- HttpParser.QueryRoundTrip: stated for fields whose keys are not empty, for the reason given for BodyParser.DecodeEncodePairs. The empty field list is included, and HttpParser.EmptyQuery states the bare `?` directly.
- RequestRoundTrip.EncodedRequestReadsBack: stated for fields whose keys are not empty, for the same reason. The empty field list, a target ending in a bare `?`, is included.
- RequestRoundTrip.RequestReadsBack: stated for header lines that are not blank and hold no CR, and for a target without CR. A blank line would end the header block early, and a CR could form a line break inside a line.
- ResponseRoundTrip.BuildReadsBack: same restriction as RenderReadsBack, and the date must be such a value too.
