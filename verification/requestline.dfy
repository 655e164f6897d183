/** `RequestLineParser` (src/http/parsers/request-line.ts): splits the first
    line of a request into method, path and version and validates each. */
module RequestLineParser {
  import opened Wrappers
  import opened Text
  import opened Consts
  import opened Types
  import opened Validator

  const EmptyLine := "Request line vazia"
  const Malformed := "Request line malformada"

  function InvalidMethod(token: string): string {
    "M\U{00E9}todo HTTP inv\U{00E1}lido: " + token
  }

  function InvalidPath(path: string): string {
    "Path inv\U{00E1}lido: " + path
  }

  function InvalidVersion(version: string): string {
    "Vers\U{00E3}o HTTP inv\U{00E1}lida: " + version
  }

  /** The private `error` helper: a failure without details. */
  function Reject(message: string, statusCode: int): (r: ParseResult<RequestLine>)
    ensures r.Failure? && r.error.message == message && r.error.statusCode == statusCode
    ensures r.error.details.None?
  {
    Failure(ParseError(message, statusCode, None))
  }

  /** `parse`. An empty or blank line, a line that is not three pieces
      separated by single spaces, then a bad method (405), path or version
      (400), in that order, are rejected; otherwise the method comes back in
      upper case and path and version unchanged. */
  function Parse(line: string): (r: ParseResult<RequestLine>)
    ensures r.Failure? ==> r.error.details.None? && (r.error.statusCode == 400 || r.error.statusCode == 405)
    ensures r.Success? ==> IsValidPath(r.data.path) && IsValidVersion(r.data.version)
  {
    if AllSpace(line) then Reject(EmptyLine, 400)
    else
      var parts := Split(Trim(line), " ");
      if |parts| != 3 then Reject(Malformed, 400)
      else
        match MethodOf(parts[0])
        case None => Reject(InvalidMethod(parts[0]), 405)
        case Some(m) =>
          if !IsValidPath(parts[1]) then Reject(InvalidPath(parts[1]), 400)
          else if !IsValidVersion(parts[2]) then Reject(InvalidVersion(parts[2]), 400)
          else Success(RequestLine(m, parts[1], parts[2]))
  }

  /** Exactly the empty and the blank lines are reported as empty. */
  lemma {:induction false} ParseBlank(line: string)
    ensures AllSpace(line) <==> Parse(line) == Reject(EmptyLine, 400)
  {
    if !AllSpace(line) {
      var parts := Split(Trim(line), " ");
      if |parts| != 3 {
        assert Parse(line) == Reject(Malformed, 400);
        assert Malformed[13] != EmptyLine[13];
      } else if MethodOf(parts[0]).None? {
        assert Parse(line) == Reject(InvalidMethod(parts[0]), 405);
      } else if !IsValidPath(parts[1]) {
        assert Parse(line) == Reject(InvalidPath(parts[1]), 400);
        assert InvalidPath(parts[1])[0] != EmptyLine[0];
      } else if !IsValidVersion(parts[2]) {
        assert Parse(line) == Reject(InvalidVersion(parts[2]), 400);
        assert InvalidVersion(parts[2])[0] != EmptyLine[0];
      }
    }
  }

  /** An accepted line is, once trimmed, a method token, the path and the
      version separated by single spaces, and the token names the method. */
  lemma {:induction false} ParseSound(line: string)
    requires Parse(line).Success?
    ensures var rl := Parse(line).data; var token := Split(Trim(line), " ")[0];
            && Trim(line) == token + " " + rl.path + " " + rl.version
            && MethodOf(token) == Some(rl.httpMethod)
            && !Contains(rl.path, " ")
  {
    var parts := Split(Trim(line), " ");
    assert |parts| == 3 && !AllSpace(line);
    var m := MethodOf(parts[0]).value;
    assert Parse(line) == Success(RequestLine(m, parts[1], parts[2]));
    JoinThree(parts);
  }

  lemma {:induction false} JoinThree(parts: seq<string>)
    requires |parts| == 3
    ensures Join(parts, " ") == parts[0] + " " + parts[1] + " " + parts[2]
  {
    assert parts[1..][1..] == [parts[2]];
    assert Join(parts[1..], " ") == parts[1] + " " + Join(parts[1..][1..], " ");
  }

  /** Text without the space character. */
  predicate NoSpaceChar(s: string) {
    forall i | 0 <= i < |s| :: s[i] != ' '
  }

  lemma {:induction false} SplitNoSpace(s: string)
    requires NoSpaceChar(s)
    ensures Split(s, " ") == [s]
  {
    forall i | 0 <= i && i + 1 <= |s| ensures !OccursAt(s, " ", i) {
      assert s[i..i + 1][0] == s[i];
    }
    ContainsAt(s, " ");
    SplitNone(s, " ");
  }

  /** Three pieces joined by single spaces split back into themselves. */
  lemma {:induction false} SplitThree(t: string, p: string, v: string)
    requires NoSpaceChar(t) && NoSpaceChar(p) && NoSpaceChar(v)
    ensures Split(t + " " + p + " " + v, " ") == [t, p, v]
  {
    var rest := p + " " + v;
    assert t + " " + p + " " + v == t + " " + rest;
    forall j | 0 <= j < |t| ensures !OccursAt(t + " " + rest, " ", j) {
      assert (t + " " + rest)[j..j + 1][0] == t[j];
    }
    SplitCons(t, " ", rest);
    forall j | 0 <= j < |p| ensures !OccursAt(p + " " + v, " ", j) {
      assert (p + " " + v)[j..j + 1][0] == p[j];
    }
    SplitCons(p, " ", v);
    SplitNoSpace(v);
  }

  /** A valid version holds no white space. */
  lemma {:induction false} VersionNoSpace(v: string)
    requires IsValidVersion(v)
    ensures NoSpaceChar(v) && !IsSpace(v[|v| - 1])
  {
    assert forall i | 0 <= i < 5 :: v[i] == v[..5][i];
  }

  /** A token the method check accepts holds no white space. */
  lemma {:induction false} MethodTokenNoSpace(t: string)
    requires MethodOf(t).Some?
    ensures |t| > 0 && forall i | 0 <= i < |t| :: !IsSpace(t[i])
  {
    var name := JsToUpper(t);
    assert |name| > 0 && forall k | 0 <= k < |name| :: 'A' <= name[k] <= 'Z' by {
      match MethodOf(t).value
      case GET => case POST => case PUT => case DELETE =>
      case PATCH => case OPTIONS => case HEAD =>
    }
    UpperLettersNoSpace(t);
  }

  lemma {:induction false} UpperLettersNoSpace(t: string)
    requires forall k | 0 <= k < |JsToUpper(t)| :: 'A' <= JsToUpper(t)[k] <= 'Z'
    ensures forall i | 0 <= i < |t| :: !IsSpace(t[i])
    decreases |t|
  {
    if |t| > 0 {
      var u := UpperForm(t[0]);
      assert JsToUpper(t) == u + JsToUpper(t[1..]);
      assert 'A' <= JsToUpper(t)[0] <= 'Z';
      assert forall k | 0 <= k < |JsToUpper(t[1..])| :: JsToUpper(t[1..])[k] == JsToUpper(t)[|u| + k];
      UpperLettersNoSpace(t[1..]);
      assert forall i | 1 <= i < |t| :: t[i] == t[1..][i - 1];
    }
  }

  /** Rendering a request line and parsing it gives it back, whatever white
      space surrounds it and whatever the letter case of the method token. */
  lemma {:induction false} ParseRoundTrip(w1: string, token: string, path: string, version: string, w2: string, m: Method)
    requires AllSpace(w1) && AllSpace(w2)
    requires MethodOf(token) == Some(m)
    requires IsValidPath(path) && NoSpaceChar(path)
    requires IsValidVersion(version)
    ensures Parse(w1 + token + " " + path + " " + version + w2) == Success(RequestLine(m, path, version))
  {
    var line := w1 + token + " " + path + " " + version + w2;
    assert NoSpaceChar(token) && !IsSpace(token[0]) by {
      MethodTokenNoSpace(token);
    }
    assert NoSpaceChar(version) && !IsSpace(version[|version| - 1]) by {
      VersionNoSpace(version);
    }
    ThreePieces(w1, token, path, version, w2);
    ParseThree(line, token, path, version);
  }

  /** Trimming and splitting three space-free pieces, the first starting
      and the last ending without white space. */
  lemma {:induction false} ThreePieces(w1: string, t: string, p: string, v: string, w2: string)
    requires AllSpace(w1) && AllSpace(w2)
    requires |t| > 0 && NoSpaceChar(t) && !IsSpace(t[0])
    requires NoSpaceChar(p)
    requires |v| > 0 && NoSpaceChar(v) && !IsSpace(v[|v| - 1])
    ensures var line := w1 + t + " " + p + " " + v + w2;
            !AllSpace(line) && Split(Trim(line), " ") == [t, p, v]
  {
    var x := t + " " + p + " " + v;
    var line := w1 + t + " " + p + " " + v + w2;
    assert line == w1 + x + w2;
    assert Trim(line) == x by {
      assert x[0] == t[0];
      assert x[|x| - 1] == v[|v| - 1];
      TrimSurrounded(w1, x, w2);
    }
    assert line[|w1|] == t[0];
    SplitThree(t, p, v);
  }

  /** How `parse` decides a line that trims and splits into three pieces. */
  lemma {:induction false} ParseThree(line: string, t: string, p: string, v: string)
    requires !AllSpace(line) && Split(Trim(line), " ") == [t, p, v]
    ensures MethodOf(t).None? ==> Parse(line) == Reject(InvalidMethod(t), 405)
    ensures MethodOf(t).Some? && !IsValidPath(p) ==> Parse(line) == Reject(InvalidPath(p), 400)
    ensures MethodOf(t).Some? && IsValidPath(p) && !IsValidVersion(v) ==> Parse(line) == Reject(InvalidVersion(v), 400)
    ensures MethodOf(t).Some? && IsValidPath(p) && IsValidVersion(v) ==> Parse(line) == Success(RequestLine(MethodOf(t).value, p, v))
  {
  }

  /** The method is checked before the path and the version: a three-piece
      line with an unknown method is a 405 naming the token. */
  lemma {:induction false} MethodCheckedFirst(token: string, path: string, version: string)
    requires |token| > 0 && NoSpaceChar(token) && !IsSpace(token[0])
    requires NoSpaceChar(path)
    requires |version| > 0 && NoSpaceChar(version) && !IsSpace(version[|version| - 1])
    requires MethodOf(token).None?
    ensures Parse(token + " " + path + " " + version) == Reject(InvalidMethod(token), 405)
  {
    Unpadded(token, path, version);
    ParseThree(token + " " + path + " " + version, token, path, version);
  }

  /** A line of three pieces without padding. */
  lemma {:induction false} Unpadded(t: string, p: string, v: string)
    requires |t| > 0 && NoSpaceChar(t) && !IsSpace(t[0])
    requires NoSpaceChar(p)
    requires |v| > 0 && NoSpaceChar(v) && !IsSpace(v[|v| - 1])
    ensures var line := t + " " + p + " " + v;
            !AllSpace(line) && Split(Trim(line), " ") == [t, p, v]
  {
    ThreePieces("", t, p, v, "");
    assert "" + t + " " + p + " " + v + "" == t + " " + p + " " + v;
  }

  /** A doubled space makes four pieces: the line is malformed, a 400. */
  lemma {:induction false} DoubledSpaceMalformed(t: string, p: string, v: string)
    requires |t| > 0 && NoSpaceChar(t) && !IsSpace(t[0])
    requires NoSpaceChar(p)
    requires |v| > 0 && NoSpaceChar(v) && !IsSpace(v[|v| - 1])
    ensures Parse(t + "  " + p + " " + v) == Reject(Malformed, 400)
  {
    var line := t + "  " + p + " " + v;
    assert line[0] == t[0] && line[|line| - 1] == v[|v| - 1];
    TrimNoEdges(line);
    DoubledSplit(t, p, v);
    ParseMalformed(line);
  }

  lemma {:induction false} DoubledSplit(t: string, p: string, v: string)
    requires NoSpaceChar(t) && NoSpaceChar(p) && NoSpaceChar(v)
    ensures Split(t + "  " + p + " " + v, " ") == [t, "", p, v]
  {
    var r0 := " " + (p + " " + v);
    assert t + "  " + p + " " + v == t + " " + r0;
    assert ' ' !in t;
    SplitAtSpace(t, r0);
    LeadingSpace(p + " " + v);
    TwoPieces(p, v);
  }

  lemma {:induction false} LeadingSpace(r: string)
    ensures Split(" " + r, " ") == [""] + Split(r, " ")
  {
    assert " " + r == "" + " " + r;
    SplitAtSpace("", r);
  }

  lemma {:induction false} TwoPieces(p: string, v: string)
    requires NoSpaceChar(p) && NoSpaceChar(v)
    ensures Split(p + " " + v, " ") == [p, v]
  {
    assert ' ' !in p;
    SplitAtSpace(p, v);
    SplitNoSpace(v);
  }

  /** A line that is not blank and does not split into three pieces. */
  lemma {:induction false} ParseMalformed(line: string)
    requires !AllSpace(line) && |Split(Trim(line), " ")| != 3
    ensures Parse(line) == Reject(Malformed, 400)
  {
  }

  /** With a known method, the path is checked next: a bad path is a 400
      naming the path, whatever the version is. */
  lemma {:induction false} PathCheckedSecond(token: string, path: string, version: string, m: Method)
    requires MethodOf(token) == Some(m)
    requires NoSpaceChar(path) && !IsValidPath(path)
    requires |version| > 0 && NoSpaceChar(version) && !IsSpace(version[|version| - 1])
    ensures Parse(token + " " + path + " " + version) == Reject(InvalidPath(path), 400)
  {
    MethodTokenNoSpace(token);
    Unpadded(token, path, version);
    ParseThree(token + " " + path + " " + version, token, path, version);
  }

  /** The version is checked last: with a known method and a valid path,
      a bad version is a 400 naming the version. */
  lemma {:induction false} VersionCheckedLast(token: string, path: string, version: string, m: Method)
    requires MethodOf(token) == Some(m)
    requires NoSpaceChar(path) && IsValidPath(path)
    requires |version| > 0 && NoSpaceChar(version) && !IsSpace(version[|version| - 1])
    requires !IsValidVersion(version)
    ensures Parse(token + " " + path + " " + version) == Reject(InvalidVersion(version), 400)
  {
    MethodTokenNoSpace(token);
    Unpadded(token, path, version);
    ParseThree(token + " " + path + " " + version, token, path, version);
  }
}
