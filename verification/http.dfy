/** `HTTPParser` (src/http/parsers/http.ts): runs the request-line, header
    and body parsers over a raw request and splits the query string off
    the path. */
module HttpParser {
  import opened Wrappers
  import opened Text
  import opened Consts
  import opened Types
  import RequestLineParser
  import HeadersParser
  import BodyParser
  import LastWins

  /** The message of the 500 the parser answers when something throws. */
  const InternalError := "Erro interno no parser"

  /** The message of the `URIError` `decodeURIComponent` throws, kept as
      the error's details. */
  const UriMalformed := "URI malformed"

  /** `parseQueryParams`: the path before the first `?` and the record the
      text after it describes (no `+` translation here). `None` is the
      `URIError` a malformed escape throws. */
  function ParseQueryParams(fullPath: string): (r: Option<(string, map<string, string>)>)
    ensures r.Some? ==> '?' !in r.value.0 && StartsWith(fullPath, r.value.0)
    ensures '?' !in fullPath ==> r == Some((fullPath, map[]))
  {
    match IndexOf(fullPath, "?")
    case None =>
      NoQuestionMark(fullPath);
      Some((fullPath, map[]))
    case Some(i) =>
      assert '?' !in fullPath[..i] by { NoEarlierQuestionMark(fullPath, i); }
      assert fullPath[i] == '?' by { assert fullPath[i..i + 1] == "?"; }
      match BodyParser.DecodePairs(fullPath[i + 1..], false)
      case None => None
      case Some(query) => Some((fullPath[..i], query))
  }

  lemma {:induction false} NoQuestionMark(s: string)
    requires IndexOf(s, "?").None?
    ensures '?' !in s
  {
    forall j | 0 <= j < |s| ensures s[j] != '?' {
      assert !OccursAt(s, "?", j);
      assert s[j..j + 1] == [s[j]];
    }
  }

  lemma {:induction false} NoEarlierQuestionMark(s: string, i: nat)
    requires IndexOf(s, "?") == Some(i)
    ensures '?' !in s[..i]
  {
    forall j | 0 <= j < i ensures s[j] != '?' {
      assert !OccursAt(s, "?", j);
      assert s[j..j + 1] == [s[j]];
    }
  }

  /** A path without `?` followed by `?` and an encoded field list splits
      back into the path and the record of those fields, a later key
      winning. */
  lemma {:induction false} QueryRoundTrip(path: string, fields: seq<(string, string)>)
    requires '?' !in path
    requires forall i | 0 <= i < |fields| :: fields[i].0 != ""
    ensures ParseQueryParams(path + "?" + BodyParser.EncodePairs(fields)) ==
              Some((path, LastWins.Assign(BodyParser.AsEntries(fields))))
  {
    var full := path + "?" + BodyParser.EncodePairs(fields);
    assert IndexOf(full, "?") == Some(|path|) by {
      assert OccursAt(full, "?", |path|);
      forall j | 0 <= j < |path| ensures !OccursAt(full, "?", j) {
        assert full[j..j + 1] == [path[j]];
      }
    }
    assert full[..|path|] == path;
    assert full[|path| + 1..] == BodyParser.EncodePairs(fields);
    BodyParser.DecodeEncodePairs(fields, false);
  }

  /** A target ending in a bare `?` gives the path and the empty query. */
  lemma {:induction false} EmptyQuery(path: string)
    requires '?' !in path
    ensures ParseQueryParams(path + "?") == Some((path, map[]))
  {
    var none: seq<(string, string)> := [];
    QueryRoundTrip(path, none);
    assert BodyParser.EncodePairs(none) == "";
    assert path + "?" + "" == path + "?";
  }

  /** A malformed escape anywhere in a query piece makes the split fail. */
  lemma {:induction false} QueryMalformed(path: string, query: string)
    requires '?' !in path
    requires BodyParser.DecodePairs(query, false).None?
    ensures ParseQueryParams(path + "?" + query).None?
  {
    var full := path + "?" + query;
    assert IndexOf(full, "?") == Some(|path|) by {
      assert OccursAt(full, "?", |path|);
      forall j | 0 <= j < |path| ensures !OccursAt(full, "?", j) {
        assert full[j..j + 1] == [path[j]];
      }
    }
    assert full[|path| + 1..] == query;
  }

  /** The first line of a raw request, `lines[0] || ""`. */
  function FirstLine(rawRequest: string): string {
    Split(rawRequest, CRLF)[0]
  }

  /** `parse`. A request-line error is passed on unchanged; the header and
      body parsers never fail; a malformed escape in the query string is the
      only exception that reaches the `catch`, which answers 500. On success
      the body is kept only when it is not empty. */
  function Parse(rawRequest: string, jsonParse: string -> Option<JsonValue>): (r: ParseResult<Request>)
    ensures r.Failure? ==>
              || RequestLineParser.Parse(FirstLine(rawRequest)) == Failure(r.error)
              || r.error == ParseError(InternalError, 500, Some(UriMalformed))
    ensures r.Success? ==> RequestLineParser.Parse(FirstLine(rawRequest)).Success?
    ensures r.Success? ==> r.data.raw == rawRequest && '?' !in r.data.path
    ensures r.Success? && r.data.body.Some? ==> r.data.body.value.size > 0
  {
    var lines := Split(rawRequest, CRLF);
    match RequestLineParser.Parse(lines[0])
    case Failure(e) => Failure(e)
    case Success(rl) =>
      var headers := HeadersParser.Parse(lines).data;
      var body := BodyParser.Parse(rawRequest, headers, jsonParse).data;
      match ParseQueryParams(rl.path)
      case None => Failure(ParseError(InternalError, 500, Some(UriMalformed)))
      case Some((path, query)) =>
        Success(Request(rl.httpMethod, path, rl.version, headers,
                        if body.size != 0 then Some(body) else None, query, rawRequest))
  }

  /** What a parsed request is made of: the request line's method and
      version, the path before its `?`, the query after it, the header
      record of the header parser, and the body parser's body when it is
      not empty. It succeeds exactly when the request line does and the
      query decodes. */
  lemma {:induction false} ParseComposes(rawRequest: string, jsonParse: string -> Option<JsonValue>)
    ensures var lines := Split(rawRequest, CRLF);
            var rl := RequestLineParser.Parse(lines[0]);
            var r := Parse(rawRequest, jsonParse);
            && (r.Success? <==> rl.Success? && ParseQueryParams(rl.data.path).Some?)
            && (r.Success? ==>
                  var body := BodyParser.Parse(rawRequest, HeadersParser.Parse(lines).data, jsonParse).data;
                  && r.data.httpMethod == rl.data.httpMethod
                  && r.data.version == rl.data.version
                  && (r.data.path, r.data.query) == ParseQueryParams(rl.data.path).value
                  && r.data.headers == HeadersParser.Parse(lines).data
                  && r.data.body == (if body == BodyParser.NoBody then None else Some(body)))
  {
  }

  /** A request whose request line is rejected is rejected with that
      line's status and message, before anything else is looked at. */
  lemma {:induction false} RequestLineErrorPropagates(first: string, rest: string, jsonParse: string -> Option<JsonValue>)
    requires !Contains(first, CRLF)
    requires RequestLineParser.Parse(first).Failure?
    ensures Parse(first + CRLF + rest, jsonParse) == Failure(RequestLineParser.Parse(first).error)
  {
    FirstLineOf(first, rest);
  }

  /** A malformed escape in the query string is a 500 whose details carry
      the decoder's message. */
  lemma {:induction false} MalformedQueryIs500(first: string, rest: string, jsonParse: string -> Option<JsonValue>)
    requires !Contains(first, CRLF)
    requires RequestLineParser.Parse(first).Success?
    requires ParseQueryParams(RequestLineParser.Parse(first).data.path).None?
    ensures Parse(first + CRLF + rest, jsonParse) == Failure(ParseError(InternalError, 500, Some(UriMalformed)))
  {
    FirstLineOf(first, rest);
  }

  /** The first line is the text up to the first CRLF. */
  lemma {:induction false} FirstLineOf(first: string, rest: string)
    requires !Contains(first, CRLF)
    ensures FirstLine(first + CRLF + rest) == first
  {
    var s := first + CRLF + rest;
    forall j | 0 <= j < |first| ensures !OccursAt(s, CRLF, j) {
      if j + 2 <= |first| {
        assert s[j..j + 2] == first[j..j + 2];
        assert !OccursAt(first, CRLF, j);
      } else {
        assert s[j + 1] == '\r';
      }
    }
    SplitCons(first, CRLF, rest);
  }
}
