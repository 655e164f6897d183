/** How the request parsers fit together (src/http/parsers/http.ts): a
    request written as a request line, header lines, a blank line and a
    payload parses back into exactly those parts. */
module RequestRoundTrip {
  import opened Wrappers
  import opened Text
  import opened Consts
  import opened Types
  import opened Validator
  import HttpParser
  import RequestLineParser
  import HeadersParser
  import BodyParser
  import LastWins
  import UriDecode
  import ResponseRoundTrip

  /** The request text: the request line and the header lines joined by
      CRLF, then CRLF CRLF, then the payload. */
  function RequestText(requestLine: string, headerLines: seq<string>, payload: string): string {
    Join([requestLine] + headerLines, CRLF) + HEADER_END + payload
  }

  /** A header line that stays inside the header block: not blank, and
      without a carriage return that would break it. */
  predicate HeaderLineOk(line: string) {
    !AllSpace(line) && ResponseRoundTrip.OneLine(line)
  }

  /** The body a payload gives under a header record: none when it is
      blank, otherwise the payload, its value read by its content type,
      the content type and its UTF-16 length. */
  function BodyOf(payload: string, headers: map<string, string>,
                  jsonParse: string -> Option<JsonValue>): Option<Body>
  {
    if AllSpace(payload) then None
    else
      var t := BodyParser.ContentTypeOf(headers);
      Some(Body(payload, BodyParser.ParseByContentType(payload, t, jsonParse), t, Utf16Length(payload)))
  }

  /** A well-formed request reads back: its method and version are the
      request line's, the path and the query are what splitting the target
      at its first `?` gives (a malformed escape in the query is the 500),
      the header record is what the header lines write, a later line
      winning, and the body is the payload after the blank line. */
  lemma {:induction false} RequestReadsBack(token: string, m: Method, target: string, version: string,
                                            headerLines: seq<string>, payload: string,
                                            jsonParse: string -> Option<JsonValue>)
    requires MethodOf(token) == Some(m)
    requires IsValidPath(target) && RequestLineParser.NoSpaceChar(target) && '\r' !in target
    requires IsValidVersion(version)
    requires forall i | 0 <= i < |headerLines| :: HeaderLineOk(headerLines[i])
    ensures var raw := RequestText(token + " " + target + " " + version, headerLines, payload);
            var headers := LastWins.Assign(HeadersParser.Entries(headerLines));
            HttpParser.Parse(raw, jsonParse) ==
              match HttpParser.ParseQueryParams(target)
              case None => Failure(ParseError(HttpParser.InternalError, 500, Some(HttpParser.UriMalformed)))
              case Some((path, query)) =>
                Success(Request(m, path, version, headers, BodyOf(payload, headers, jsonParse), query, raw))
  {
    var sl := token + " " + target + " " + version;
    var raw := RequestText(sl, headerLines, payload);
    var headers := LastWins.Assign(HeadersParser.Entries(headerLines));
    RequestLineOk(token, m, target, version);
    var lines := RequestLines(sl, headerLines, payload);
    assert RequestLineParser.Parse(lines[0]) == Success(RequestLine(m, target, version));
    HeadersParser.ParseStopsAtBlank(sl, headerLines, "", Split(payload, CRLF));
    assert HeadersParser.Parse(lines).data == headers;
    var body := BodyParser.Parse(raw, headers, jsonParse).data;
    assert (if body.size != 0 then Some(body) else None) == BodyOf(payload, headers, jsonParse) by {
      PayloadBody(sl, headerLines, payload, headers, jsonParse);
    }
  }

  /** The same with a query written by percent-encoding a field list: the
      query reads back as the record of those fields, a later key
      winning. */
  lemma {:induction false} EncodedRequestReadsBack(token: string, m: Method, path: string,
                                                   fields: seq<(string, string)>, version: string,
                                                   headerLines: seq<string>, payload: string,
                                                   jsonParse: string -> Option<JsonValue>)
    requires MethodOf(token) == Some(m)
    requires IsValidPath(path) && RequestLineParser.NoSpaceChar(path) && '\r' !in path && '?' !in path
    requires forall i | 0 <= i < |fields| :: fields[i].0 != ""
    requires IsValidVersion(version)
    requires forall i | 0 <= i < |headerLines| :: HeaderLineOk(headerLines[i])
    ensures var target := path + "?" + BodyParser.EncodePairs(fields);
            var raw := RequestText(token + " " + target + " " + version, headerLines, payload);
            var headers := LastWins.Assign(HeadersParser.Entries(headerLines));
            HttpParser.Parse(raw, jsonParse) ==
              Success(Request(m, path, version, headers, BodyOf(payload, headers, jsonParse),
                              LastWins.Assign(BodyParser.AsEntries(fields)), raw))
  {
    var q := BodyParser.EncodePairs(fields);
    EncodedPairsChars(fields);
    TargetOk(path, q);
    HttpParser.QueryRoundTrip(path, fields);
    RequestReadsBack(token, m, path + "?" + q, version, headerLines, payload, jsonParse);
  }

  /** The request line is one line, and the request-line parser accepts
      it. */
  lemma {:induction false} RequestLineOk(token: string, m: Method, target: string, version: string)
    requires MethodOf(token) == Some(m)
    requires IsValidPath(target) && RequestLineParser.NoSpaceChar(target) && '\r' !in target
    requires IsValidVersion(version)
    ensures var sl := token + " " + target + " " + version;
            && ResponseRoundTrip.OneLine(sl) && sl != ""
            && RequestLineParser.Parse(sl) == Success(RequestLine(m, target, version))
  {
    TokenOneLine(token);
    VersionOneLine(version);
    ThreeOneLine(token, target, version);
    UnpaddedLine(token, m, target, version);
  }

  lemma {:induction false} ThreeOneLine(a: string, b: string, c: string)
    requires '\r' !in a && '\r' !in b && '\r' !in c
    ensures var line := a + " " + b + " " + c;
            ResponseRoundTrip.OneLine(line) && line != ""
  {
    var line := a + " " + b + " " + c;
    assert line[|a|] == ' ';
    forall i | 0 <= i < |line| ensures line[i] != '\r' {
      if i < |a| {
        assert line[i] == a[i];
      } else if |a| < i < |a| + 1 + |b| {
        assert line[i] == b[i - |a| - 1];
      } else if i > |a| + 1 + |b| {
        assert line[i] == c[i - |a| - |b| - 2];
      }
    }
  }

  lemma {:induction false} TokenOneLine(token: string)
    requires MethodOf(token).Some?
    ensures '\r' !in token
  {
    RequestLineParser.MethodTokenNoSpace(token);
    assert forall i | 0 <= i < |token| :: token[i] != '\r';
  }

  lemma {:induction false} VersionOneLine(version: string)
    requires IsValidVersion(version)
    ensures '\r' !in version
  {
    assert forall i | 0 <= i < 5 :: version[i] == version[..5][i];
  }

  lemma {:induction false} UnpaddedLine(token: string, m: Method, target: string, version: string)
    requires MethodOf(token) == Some(m)
    requires IsValidPath(target) && RequestLineParser.NoSpaceChar(target)
    requires IsValidVersion(version)
    ensures RequestLineParser.Parse(token + " " + target + " " + version) == Success(RequestLine(m, target, version))
  {
    assert "" + token + " " + target + " " + version + "" == token + " " + target + " " + version;
    RequestLineParser.ParseRoundTrip("", token, target, version, "", m);
  }

  /** The request text splits at CRLF into the request line, the header
      lines, an empty line and the pieces of the payload. */
  lemma {:induction false} RequestLines(sl: string, headerLines: seq<string>, payload: string)
      returns (lines: seq<string>)
    requires ResponseRoundTrip.OneLine(sl)
    requires forall i | 0 <= i < |headerLines| :: HeaderLineOk(headerLines[i])
    ensures lines == Split(RequestText(sl, headerLines, payload), CRLF)
    ensures lines == [sl] + headerLines + [""] + Split(payload, CRLF)
    ensures HttpParser.FirstLine(RequestText(sl, headerLines, payload)) == sl
  {
    var ps := [sl] + headerLines;
    assert forall i | 0 <= i < |ps| :: ResponseRoundTrip.OneLine(ps[i]);
    ResponseRoundTrip.AllOneLineOf(ps);
    HeaderEndAsLines(Join(ps, CRLF), payload);
    ResponseRoundTrip.SplitLines(ps, CRLF + payload);
    BlankThenPayload(payload);
    lines := Split(RequestText(sl, headerLines, payload), CRLF);
    assert lines == ps + ([""] + Split(payload, CRLF));
  }

  lemma {:induction false} HeaderEndAsLines(head: string, payload: string)
    ensures head + HEADER_END + payload == head + CRLF + (CRLF + payload)
  {
  }

  /** A payload after an empty line. */
  lemma {:induction false} BlankThenPayload(payload: string)
    ensures Split(CRLF + payload, CRLF) == [""] + Split(payload, CRLF)
  {
    assert "" + CRLF + payload == CRLF + payload;
    ResponseRoundTrip.SplitLine("", payload);
  }

  /** The body parser reads the payload after the blank line. */
  lemma {:induction false} PayloadBody(sl: string, headerLines: seq<string>, payload: string,
                                       headers: map<string, string>, jsonParse: string -> Option<JsonValue>)
    requires ResponseRoundTrip.OneLine(sl) && sl != ""
    requires forall i | 0 <= i < |headerLines| :: HeaderLineOk(headerLines[i])
    ensures var body := BodyParser.Parse(RequestText(sl, headerLines, payload), headers, jsonParse).data;
            (if body.size != 0 then Some(body) else None) == BodyOf(payload, headers, jsonParse)
  {
    var ps := [sl] + headerLines;
    forall i | 0 <= i < |ps| ensures ps[i] != "" && ResponseRoundTrip.OneLine(ps[i]) {
      if i > 0 {
        assert ps[i] == headerLines[i - 1];
        assert !AllSpace(ps[i]);
      }
    }
    HeaderEndAfter(ps);
    BodyParser.ParseSplitsAtHeaderEnd(Join(ps, CRLF), payload, headers, jsonParse);
  }

  /** After non-empty lines without carriage returns joined by CRLF, the
      first CRLF CRLF is the one that follows them. */
  lemma {:induction false} HeaderEndAfter(ps: seq<string>)
    requires |ps| > 0 && forall i | 0 <= i < |ps| :: ps[i] != "" && ResponseRoundTrip.OneLine(ps[i])
    ensures var head := Join(ps, CRLF);
            IndexOf(head + HEADER_END, HEADER_END) == Some(|head|)
  {
    var head := Join(ps, CRLF);
    var s := head + HEADER_END;
    NoEarlyHeaderEnd(ps);
    assert OccursAt(s, HEADER_END, |head|) by {
      assert s[|head|..|head| + 4] == HEADER_END;
    }
  }

  lemma {:induction false} NoEarlyHeaderEnd(ps: seq<string>)
    requires |ps| > 0 && forall i | 0 <= i < |ps| :: ps[i] != "" && ResponseRoundTrip.OneLine(ps[i])
    ensures var head := Join(ps, CRLF);
            forall j | 0 <= j < |head| :: !OccursAt(head + HEADER_END, HEADER_END, j)
    decreases |ps|
  {
    var head := Join(ps, CRLF);
    var s := head + HEADER_END;
    var p := ps[0];
    if |ps| == 1 {
      forall j | 0 <= j < |head| ensures !OccursAt(s, HEADER_END, j) {
        assert s[j] == p[j];
        NotHeaderEndAt(s, j);
      }
    } else {
      var rest := ps[1..];
      assert forall i | 0 <= i < |rest| :: rest[i] == ps[i + 1];
      NoEarlyHeaderEnd(rest);
      var tail := Join(rest, CRLF);
      var t := tail + HEADER_END;
      JoinFirst(rest, CRLF);
      assert s == (p + CRLF) + t;
      forall j | 0 <= j < |head| ensures !OccursAt(s, HEADER_END, j) {
        if j < |p| {
          assert s[j] == p[j];
          NotHeaderEndAt(s, j);
        } else if j == |p| {
          assert s[j + 2] == t[0] == rest[0][0];
          NotHeaderEndAt(s, j);
        } else if j == |p| + 1 {
          assert s[j] == '\n';
          NotHeaderEndAt(s, j);
        } else {
          OccursShift(p + CRLF, t, HEADER_END, j - |p| - 2);
        }
      }
    }
  }

  /** A position whose first or third character is not a carriage return
      does not start CRLF CRLF. */
  lemma {:induction false} NotHeaderEndAt(s: string, j: nat)
    requires j + 4 > |s| || s[j] != '\r' || s[j + 2] != '\r'
    ensures !OccursAt(s, HEADER_END, j)
  {
    if j + 4 <= |s| {
      assert s[j..j + 4][0] == s[j];
      assert s[j..j + 4][2] == s[j + 2];
    }
  }

  /** An occurrence in the second part of a concatenation, seen from the
      whole. */
  lemma {:induction false} OccursShift<T>(a: seq<T>, t: seq<T>, pat: seq<T>, k: nat)
    ensures OccursAt(a + t, pat, |a| + k) <==> OccursAt(t, pat, k)
  {
    if |a| + k + |pat| <= |a + t| {
      assert (a + t)[|a| + k..|a| + k + |pat|] == t[k..k + |pat|];
    }
  }

  lemma {:induction false} JoinFirst<T>(ps: seq<seq<T>>, sep: seq<T>)
    requires |ps| > 0 && |ps[0]| > 0
    ensures |Join(ps, sep)| > 0 && Join(ps, sep)[0] == ps[0][0]
  {
  }

  /** A path with a query of escapes, `=` and `&` after its `?` is still a
      valid, one-line target without spaces. */
  lemma {:induction false} TargetOk(path: string, q: string)
    requires IsValidPath(path) && RequestLineParser.NoSpaceChar(path) && '\r' !in path
    requires forall i | 0 <= i < |q| :: QueryChar(q[i])
    ensures var target := path + "?" + q;
            IsValidPath(target) && RequestLineParser.NoSpaceChar(target) && '\r' !in target
  {
    var target := path + "?" + q;
    assert target[..1] == path[..1];
    assert !Contains(target, "..") by {
      forall j | 0 <= j ensures !OccursAt(target, "..", j) {
        if j + 2 <= |path| {
          assert target[j..j + 2] == path[j..j + 2];
          assert !OccursAt(path, "..", j);
        } else if j + 2 <= |target| {
          assert target[j..j + 2][1] == target[j + 1];
          assert target[j + 1] != '.';
        }
      }
    }
  }

  /** An encoded field list holds only escapes, `=` and `&`. */
  lemma {:induction false} EncodedPairsChars(fields: seq<(string, string)>)
    ensures var q := BodyParser.EncodePairs(fields);
            forall i | 0 <= i < |q| :: QueryChar(q[i])
  {
    var parts := seq(|fields|, i requires 0 <= i < |fields| =>
                       UriDecode.Encode(fields[i].0) + "=" + UriDecode.Encode(fields[i].1));
    forall i, j | 0 <= i < |parts| && 0 <= j < |parts[i]| ensures QueryChar(parts[i][j]) {
      UriDecode.EncodeChars(fields[i].0);
      UriDecode.EncodeChars(fields[i].1);
      var a := UriDecode.Encode(fields[i].0);
      if j < |a| {
        assert parts[i][j] == a[j];
      } else if j > |a| {
        assert parts[i][j] == UriDecode.Encode(fields[i].1)[j - |a| - 1];
      }
    }
    JoinChars(parts, "&");
  }

  /** The characters of an encoded field list. */
  predicate QueryChar(c: char) {
    UriDecode.IsEscapeChar(c) || c == '=' || c == '&'
  }

  lemma {:induction false} JoinChars(parts: seq<string>, sep: string)
    requires forall i, j | 0 <= i < |parts| && 0 <= j < |parts[i]| :: QueryChar(parts[i][j])
    requires forall j | 0 <= j < |sep| :: QueryChar(sep[j])
    ensures forall j | 0 <= j < |Join(parts, sep)| :: QueryChar(Join(parts, sep)[j])
    decreases |parts|
  {
    if |parts| > 1 {
      var rest := parts[1..];
      assert forall i | 0 <= i < |rest| :: rest[i] == parts[i + 1];
      JoinChars(rest, sep);
      var a, b := parts[0], Join(rest, sep);
      forall j | 0 <= j < |a + sep + b| ensures QueryChar((a + sep + b)[j]) {
        if j < |a| {
          assert (a + sep + b)[j] == parts[0][j];
        } else if j < |a| + |sep| {
          assert (a + sep + b)[j] == sep[j - |a|];
        } else {
          assert (a + sep + b)[j] == b[j - |a| - |sep|];
        }
      }
    }
  }
}
