/** `ResponseBuilder` (src/http/response-builder.ts). The mutable builder
    becomes a value threaded through pure steps; `JSON.stringify` and the
    clock are parameters. */
module ResponseBuilder {
  import opened Wrappers
  import opened Text
  import opened Consts
  import opened Types
  import opened JsParseInt

  // ---------------------------------------------------------------------
  // The header record
  // ---------------------------------------------------------------------

  /** A header record in the order its names were first written, as
      `Object.entries` lists a record whose names are not array indices. */
  type Headers = seq<(string, string)>

  /** No name occurs twice. */
  predicate UniqueNames(hs: Headers) {
    forall i, j | 0 <= i < j < |hs| :: hs[i].0 != hs[j].0
  }

  /** The value stored under a name. */
  function Lookup(hs: Headers, name: string): (r: Option<string>)
    ensures r.Some? <==> exists i | 0 <= i < |hs| :: hs[i].0 == name
    ensures r.Some? ==> exists i | 0 <= i < |hs| :: hs[i] == (name, r.value)
  {
    if |hs| == 0 then None
    else if hs[0].0 == name then Some(hs[0].1)
    else
      var r := Lookup(hs[1..], name);
      assert forall i | 1 <= i < |hs| :: hs[i] == hs[1..][i - 1];
      r
  }

  /** The names in order. */
  function Names(hs: Headers): (ns: seq<string>)
    ensures |ns| == |hs| && forall i | 0 <= i < |hs| :: ns[i] == hs[i].0
  {
    seq(|hs|, i requires 0 <= i < |hs| => hs[i].0)
  }

  /** `obj[name] = value`: a name already present keeps its place and takes
      the new value; a new name goes last. */
  function SetHeader(hs: Headers, name: string, value: string): (r: Headers)
    ensures Lookup(r, name) == Some(value)
    ensures forall n | n != name :: Lookup(r, n) == Lookup(hs, n)
  {
    if |hs| == 0 then [(name, value)]
    else if hs[0].0 == name then [(name, value)] + hs[1..]
    else [hs[0]] + SetHeader(hs[1..], name, value)
  }

  /** Where `obj[name] = value` puts the name: its old place, or last; no
      name is duplicated. */
  lemma {:induction false} SetHeaderOrder(hs: Headers, name: string, value: string)
    ensures var r := SetHeader(hs, name, value);
            && Names(r) == (if name in Names(hs) then Names(hs) else Names(hs) + [name])
            && (UniqueNames(hs) ==> UniqueNames(r))
  {
    var r := SetHeader(hs, name, value);
    SetHeaderNames(hs, name, value);
    if UniqueNames(hs) {
      forall i, j | 0 <= i < j < |r| ensures r[i].0 != r[j].0 {
        assert r[i].0 == Names(r)[i] && r[j].0 == Names(r)[j];
        if j < |hs| {
          assert Names(r)[i] == hs[i].0 && Names(r)[j] == hs[j].0;
        } else {
          assert Names(r)[i] == Names(hs)[i];
        }
      }
    }
  }

  lemma {:induction false} SetHeaderNames(hs: Headers, name: string, value: string)
    ensures Names(SetHeader(hs, name, value)) ==
              (if name in Names(hs) then Names(hs) else Names(hs) + [name])
    decreases |hs|
  {
    if |hs| > 0 {
      NamesCons(hs[0], hs[1..]);
      assert hs == [hs[0]] + hs[1..];
      if hs[0].0 == name {
        NamesCons((name, value), hs[1..]);
      } else {
        var rest := SetHeader(hs[1..], name, value);
        assert SetHeader(hs, name, value) == [hs[0]] + rest;
        SetHeaderNames(hs[1..], name, value);
        NamesCons(hs[0], rest);
        assert (name in Names(hs)) == (name in Names(hs[1..]));
        if name !in Names(hs[1..]) {
          assert [hs[0].0] + (Names(hs[1..]) + [name]) == Names(hs) + [name];
        }
      }
    }
  }

  lemma {:induction false} NamesCons(h: (string, string), hs: Headers)
    ensures Names([h] + hs) == [h.0] + Names(hs)
  {
  }

  /** Set and non-empty: the test `build` applies before adding a
      default. */
  predicate Present(hs: Headers, name: string) {
    Lookup(hs, name).Some? && Lookup(hs, name).value != ""
  }

  // ---------------------------------------------------------------------
  // The builder
  // ---------------------------------------------------------------------

  /** The builder's state: status code, headers and body text. */
  datatype Builder = Builder(statusCode: int, headers: Headers, body: string)

  /** A fresh builder: 200, no headers, an empty body. */
  function New(): Builder {
    Builder(200, [], "")
  }

  /** The invariant every step keeps: names are unique and lower case. */
  predicate Valid(b: Builder) {
    UniqueNames(b.headers) && forall i | 0 <= i < |b.headers| :: IsLower(b.headers[i].0)
  }

  /** `status`. */
  function Status(b: Builder, code: int): (r: Builder)
    ensures r.statusCode == code && r.headers == b.headers && r.body == b.body
  {
    b.(statusCode := code)
  }

  /** `header`: the name is stored in lower case and a later value for it
      replaces the earlier one; nothing else changes. */
  function Header(b: Builder, name: string, value: string): (r: Builder)
    ensures Lookup(r.headers, ToLower(name)) == Some(value)
    ensures forall n | n != ToLower(name) :: Lookup(r.headers, n) == Lookup(b.headers, n)
    ensures r.statusCode == b.statusCode && r.body == b.body
    ensures Valid(b) ==> Valid(r)
  {
    ToLowerIsLower(name);
    var r := b.(headers := SetHeader(b.headers, ToLower(name), value));
    SetHeaderOrder(b.headers, ToLower(name), value);
    assert Valid(b) ==> Valid(r) by {
      if Valid(b) {
        forall i | 0 <= i < |r.headers| ensures IsLower(r.headers[i].0) {
          assert r.headers[i].0 == Names(r.headers)[i];
          if ToLower(name) !in Names(b.headers) && i == |b.headers| {
            assert Names(r.headers)[i] == ToLower(name);
          } else {
            assert Names(r.headers)[i] == Names(b.headers)[i];
          }
        }
      }
    }
    r
  }

  /** Header names are case-insensitive: any spelling sets the same
      entry. */
  lemma {:induction false} HeaderIgnoresCase(b: Builder, name: string, value: string)
    ensures Header(b, name, value) == Header(b, ToLower(name), value)
    ensures Header(b, name, value) == Header(b, ToUpper(name), value)
  {
    ToLowerIsLower(name);
    assert ToLower(ToUpper(name)) == ToLower(name) by {
      forall i | 0 <= i < |name| ensures LowerChar(UpperChar(name[i])) == LowerChar(name[i]) { }
    }
  }

  /** `multipleHeaders`: `header` for each entry in order. */
  function MultipleHeaders(b: Builder, entries: seq<(string, string)>): (r: Builder)
    ensures r.statusCode == b.statusCode && r.body == b.body
    ensures Valid(b) ==> Valid(r)
    decreases |entries|
  {
    if |entries| == 0 then b
    else MultipleHeaders(Header(b, entries[0].0, entries[0].1), entries[1..])
  }

  /** Each name ends up with the value of its last entry, and names no
      entry mentions keep their value. */
  lemma {:induction false} MultipleHeadersSpec(b: Builder, entries: seq<(string, string)>, name: string)
    requires IsLower(name)
    ensures Lookup(MultipleHeaders(b, entries).headers, name) ==
              match LastEntry(entries, name) case Some(v) => Some(v) case None => Lookup(b.headers, name)
    decreases |entries|
  {
    if |entries| > 0 {
      var b1 := Header(b, entries[0].0, entries[0].1);
      MultipleHeadersSpec(b1, entries[1..], name);
      assert entries[1..] == entries[1..];
    }
  }

  /** The value of the last entry whose name is `name` in any letter
      case. */
  function LastEntry(entries: seq<(string, string)>, name: string): Option<string>
    decreases |entries|
  {
    if |entries| == 0 then None
    else
      match LastEntry(entries[1..], name)
      case Some(v) => Some(v)
      case None => if ToLower(entries[0].0) == name then Some(entries[0].1) else None
  }

  // The default header names are already in lower case; one lemma each
  // keeps the character-by-character checks small.
  lemma {:induction false} ContentTypeLower() ensures IsLower(CONTENT_TYPE) && ToLower(CONTENT_TYPE) == CONTENT_TYPE { ToLowerIsLower(CONTENT_TYPE); }
  lemma {:induction false} ContentLengthLower() ensures IsLower(CONTENT_LENGTH) && ToLower(CONTENT_LENGTH) == CONTENT_LENGTH { ToLowerIsLower(CONTENT_LENGTH); }
  lemma {:induction false} DateLower() ensures IsLower(DATE) && ToLower(DATE) == DATE { ToLowerIsLower(DATE); }
  lemma {:induction false} ServerLower() ensures IsLower(SERVER) && ToLower(SERVER) == SERVER { ToLowerIsLower(SERVER); }

  const JsonType := "application/json"
  const TextType := "text/plain"
  const HtmlType := "text/html"

  /** `json`: the body is the serialisation of the data and the content
      type is JSON. */
  function Json(b: Builder, data: JsonValue, stringify: JsonValue -> string): (r: Builder)
    ensures r.body == stringify(data) && r.statusCode == b.statusCode
    ensures Lookup(r.headers, CONTENT_TYPE) == Some(JsonType)
    ensures forall n | n != CONTENT_TYPE :: Lookup(r.headers, n) == Lookup(b.headers, n)
    ensures Valid(b) ==> Valid(r)
  {
    ContentTypeLower();
    Header(b.(body := stringify(data)), CONTENT_TYPE, JsonType)
  }

  /** `text`. */
  function PlainText(b: Builder, text: string): (r: Builder)
    ensures r.body == text && r.statusCode == b.statusCode
    ensures Lookup(r.headers, CONTENT_TYPE) == Some(TextType)
    ensures forall n | n != CONTENT_TYPE :: Lookup(r.headers, n) == Lookup(b.headers, n)
    ensures Valid(b) ==> Valid(r)
  {
    ContentTypeLower();
    Header(b.(body := text), CONTENT_TYPE, TextType)
  }

  /** `html`. */
  function Html(b: Builder, html: string): (r: Builder)
    ensures r.body == html && r.statusCode == b.statusCode
    ensures Lookup(r.headers, CONTENT_TYPE) == Some(HtmlType)
    ensures forall n | n != CONTENT_TYPE :: Lookup(r.headers, n) == Lookup(b.headers, n)
    ensures Valid(b) ==> Valid(r)
  {
    ContentTypeLower();
    Header(b.(body := html), CONTENT_TYPE, HtmlType)
  }

  /** The object `error` serialises: the status text (or "Unknown Error")
      under `error`, the message (or, when it is missing or empty, the
      status text) under `message` — a key `JSON.stringify` drops when
      neither exists — and the code under `statusCode`. */
  function ErrorBody(code: int, message: Option<string>): (j: JsonValue)
    ensures j.JObject? && |j.fields| >= 2
    ensures j.fields[0] == ("error", JString(StatusText(code).GetOr("Unknown Error")))
    ensures j.fields[|j.fields| - 1] == ("statusCode", JNumber(code))
    ensures |j.fields| == 3 <==> (message.Some? && message.value != "") || StatusText(code).Some?
  {
    var text := StatusText(code);
    var msg := if message.Some? && message.value != "" then message else text;
    JObject([("error", JString(text.GetOr("Unknown Error")))]
             + (if msg.Some? then [("message", JString(msg.value))] else [])
             + [("statusCode", JNumber(code))])
  }

  /** `error`. */
  function Error(b: Builder, code: int, message: Option<string>, stringify: JsonValue -> string): (r: Builder)
    ensures r.statusCode == code && r.body == stringify(ErrorBody(code, message))
    ensures Lookup(r.headers, CONTENT_TYPE) == Some(JsonType)
    ensures forall n | n != CONTENT_TYPE :: Lookup(r.headers, n) == Lookup(b.headers, n)
    ensures Valid(b) ==> Valid(r)
  {
    Json(Status(b, code), ErrorBody(code, message), stringify)
  }

  // ---------------------------------------------------------------------
  // build
  // ---------------------------------------------------------------------

  /** The status line: version, code and reason phrase, "Unknown" for a
      code the table lacks. */
  function StatusLine(code: int): string {
    VERSION + " " + IntToString(code) + " " + Reason(code)
  }

  /** The reason phrase of the status line. */
  function Reason(code: int): string {
    StatusText(code).GetOr("Unknown")
  }

  /** A status line reads back: split at spaces, the first piece is the
      version, the second reads as the code, and the rest joined with
      spaces is the reason phrase. */
  lemma {:induction false} StatusLineReadsBack(code: int)
    ensures var parts := Split(StatusLine(code), " ");
            && |parts| >= 3 && parts[0] == VERSION && ParseInt(parts[1]) == Some(code)
            && Join(parts[2..], " ") == Reason(code)
  {
    var c := IntToString(code);
    assert StatusLine(code) == VERSION + " " + (c + " " + Reason(code));
    NoSpaceInInt(code);
    SplitAtSpace(VERSION, c + " " + Reason(code));
    SplitAtSpace(c, Reason(code));
    ParseIntOfInt(code);
  }

  lemma {:induction false} NoSpaceInInt(code: int)
    ensures ' ' !in IntToString(code)
  {
    var d := NatToString(if code < 0 then -code else code);
    assert forall j | 0 <= j < |d| :: IsDigit(d[j]);
  }

  /** `formatHeaderName`: each `-`-separated part with its first character
      in upper case and the rest in lower case. */
  function FormatHeaderName(name: string): string {
    var parts := Split(name, "-");
    Join(seq(|parts|, i requires 0 <= i < |parts| => Capitalize(parts[i])), "-")
  }

  function Capitalize(part: string): string {
    if |part| == 0 then [] else [UpperChar(part[0])] + ToLower(part[1..])
  }

  /** The lines `Name: value`, in record order. */
  function HeaderLines(hs: Headers): (lines: seq<string>)
    ensures |lines| == |hs|
  {
    seq(|hs|, i requires 0 <= i < |hs| => FormatHeaderName(hs[i].0) + ": " + hs[i].1)
  }

  /** The defaults `build` stores: Content-Length (the UTF-8 length of the
      body), Date and Server, each only when it is missing or empty. */
  function WithDefaults(b: Builder, date: string): (r: Builder)
    ensures r.statusCode == b.statusCode && r.body == b.body
    ensures Lookup(r.headers, CONTENT_LENGTH) ==
              if Present(b.headers, CONTENT_LENGTH) then Lookup(b.headers, CONTENT_LENGTH)
              else Some(NatToString(Utf8Length(b.body)))
    ensures Lookup(r.headers, DATE) == if Present(b.headers, DATE) then Lookup(b.headers, DATE) else Some(date)
    ensures Lookup(r.headers, SERVER) == if Present(b.headers, SERVER) then Lookup(b.headers, SERVER) else Some(SERVER_NAME)
    ensures forall n | n != CONTENT_LENGTH && n != DATE && n != SERVER :: Lookup(r.headers, n) == Lookup(b.headers, n)
    ensures Valid(b) ==> Valid(r)
  {
    ContentLengthLower();
    DateLower();
    ServerLower();
    var b1 := if Present(b.headers, CONTENT_LENGTH) then b
              else Header(b, CONTENT_LENGTH, NatToString(Utf8Length(b.body)));
    var b2 := if Present(b1.headers, DATE) then b1 else Header(b1, DATE, date);
    if Present(b2.headers, SERVER) then b2 else Header(b2, SERVER, SERVER_NAME)
  }

  /** The response text of a builder whose defaults are in place. */
  function Render(b: Builder): (text: string)
    ensures StartsWith(text, StatusLine(b.statusCode) + CRLF)
    ensures |text| >= |b.body| && text[|text| - |b.body|..] == b.body
  {
    var head := StatusLine(b.statusCode) + CRLF;
    var text := head + (Join(HeaderLines(b.headers), CRLF) + CRLF + CRLF) + b.body;
    assert text[..|head|] == head;
    text
  }

  /** `build`: stores the defaults and renders the status line, the header
      lines and, after an empty line, the body unchanged. The builder it
      leaves behind is returned with the text. */
  function Build(b: Builder, date: string): (r: (string, Builder))
    ensures r.1 == WithDefaults(b, date)
    ensures StartsWith(r.0, StatusLine(b.statusCode) + CRLF)
    ensures |r.0| >= |b.body| && r.0[|r.0| - |b.body|..] == b.body
  {
    var b1 := WithDefaults(b, date);
    (Render(b1), b1)
  }

  /** Building twice without a change in between gives the same text, even
      at another time: the first build stored every default. */
  lemma {:induction false} BuildIdempotent(b: Builder, date: string, later: string)
    requires date != ""
    ensures Build(Build(b, date).1, later) == Build(b, date)
  {
    var b1 := WithDefaults(b, date);
    assert NatToString(Utf8Length(b.body)) != "";
    assert Present(b1.headers, CONTENT_LENGTH) && Present(b1.headers, DATE) && Present(b1.headers, SERVER);
    assert WithDefaults(b1, later) == b1;
  }

  /** An explicit Content-Length, Date or Server is kept as it is. */
  lemma {:induction false} BuildKeepsExplicit(b: Builder, date: string, name: string)
    requires name == CONTENT_LENGTH || name == DATE || name == SERVER
    requires Present(b.headers, name)
    ensures Lookup(Build(b, date).1.headers, name) == Lookup(b.headers, name)
  {
  }

  // ---------------------------------------------------------------------
  // formatHeaderName, character by character
  // ---------------------------------------------------------------------

  /** The reference: a character is upper-cased at the start and after a
      `-`, and lower-cased elsewhere. */
  function CapitalizeAt(name: string): (r: string)
    ensures |r| == |name|
  {
    seq(|name|, i requires 0 <= i < |name| =>
          if i == 0 || name[i - 1] == '-' then UpperChar(name[i]) else LowerChar(name[i]))
  }

  /** `formatHeaderName` is the character-by-character rule. */
  lemma {:induction false} FormatHeaderNameSpec(name: string)
    ensures FormatHeaderName(name) == CapitalizeAt(name)
  {
    var parts := Split(name, "-");
    var caps := seq(|parts|, i requires 0 <= i < |parts| => Capitalize(parts[i]));
    forall i | 0 <= i < |parts| ensures '-' !in parts[i] {
      NoDashPart(parts[i]);
    }
    JoinCapitalized(parts, caps);
  }

  lemma {:induction false} NoDashPart(p: string)
    requires !Contains(p, "-")
    ensures '-' !in p
  {
    forall j | 0 <= j < |p| ensures p[j] != '-' {
      assert !OccursAt(p, "-", j);
      assert p[j..j + 1] == [p[j]];
    }
  }

  lemma {:induction false} JoinCapitalized(parts: seq<string>, caps: seq<string>)
    requires |caps| == |parts| && forall i | 0 <= i < |parts| :: caps[i] == Capitalize(parts[i])
    requires forall i | 0 <= i < |parts| :: '-' !in parts[i]
    ensures Join(caps, "-") == CapitalizeAt(Join(parts, "-"))
    decreases |parts|
  {
    if |parts| == 1 {
      CapitalizePart(parts[0]);
    } else if |parts| > 1 {
      JoinCapitalized(parts[1..], caps[1..]);
      CapitalizePart(parts[0]);
      CapitalizeAtDash(parts[0], Join(parts[1..], "-"));
    }
  }

  /** Within one part the two definitions agree. */
  lemma {:induction false} CapitalizePart(p: string)
    requires '-' !in p
    ensures Capitalize(p) == CapitalizeAt(p)
  {
    if |p| > 0 {
      var c, d := Capitalize(p), CapitalizeAt(p);
      forall i | 0 <= i < |p| ensures c[i] == d[i] {
        if i > 0 {
          assert p[i - 1] != '-';
          assert c[i] == ToLower(p[1..])[i - 1] == LowerChar(p[i]);
        }
      }
    }
  }

  /** The rule restarts after a `-`. */
  lemma {:induction false} CapitalizeAtDash(a: string, b: string)
    requires '-' !in a
    ensures CapitalizeAt(a + "-" + b) == CapitalizeAt(a) + "-" + CapitalizeAt(b)
  {
    var s := a + "-" + b;
    var lhs := CapitalizeAt(s);
    var rhs := CapitalizeAt(a) + "-" + CapitalizeAt(b);
    forall i | 0 <= i < |s| ensures lhs[i] == rhs[i] {
      if i < |a| {
        assert s[i] == a[i];
        if i > 0 { assert s[i - 1] == a[i - 1]; }
      } else if i == |a| {
        assert s[i] == '-';
      } else {
        assert s[i] == b[i - |a| - 1];
        if i > |a| + 1 { assert s[i - 1] == b[i - |a| - 2]; }
      }
    }
  }

  /** Formatting changes letter case only, and the header parser's
      lower-casing undoes it; formatting twice changes nothing more. */
  lemma {:induction false} FormatHeaderNameCase(name: string)
    ensures |FormatHeaderName(name)| == |name|
    ensures ToLower(FormatHeaderName(name)) == ToLower(name)
    ensures FormatHeaderName(FormatHeaderName(name)) == FormatHeaderName(name)
  {
    FormatHeaderNameSpec(name);
    CapitalizeAtLower(name);
    FormatHeaderNameSpec(CapitalizeAt(name));
    CapitalizeAtTwice(name);
  }

  lemma {:induction false} CapitalizeAtLower(name: string)
    ensures ToLower(CapitalizeAt(name)) == ToLower(name)
  {
    var f := CapitalizeAt(name);
    forall i | 0 <= i < |name| ensures LowerChar(f[i]) == LowerChar(name[i]) { }
  }

  lemma {:induction false} CapitalizeAtTwice(name: string)
    ensures CapitalizeAt(CapitalizeAt(name)) == CapitalizeAt(name)
  {
    var f := CapitalizeAt(name);
    forall i | 0 <= i < |name| ensures CapitalizeAt(f)[i] == f[i] {
      if i > 0 {
        assert f[i - 1] == '-' <==> name[i - 1] == '-';
      }
    }
  }

  // ---------------------------------------------------------------------
  // Static helpers
  // ---------------------------------------------------------------------

  /** JavaScript truthiness of an optional JSON value (`if (data)`). */
  predicate Truthy(data: Option<JsonValue>) {
    match data
    case None => false
    case Some(JNull) => false
    case Some(JBool(b)) => b
    case Some(JNumber(n)) => n != 0
    case Some(JString(s)) => s != ""
    case Some(_) => true
  }

  /** `ok`: 200, with a JSON body only for truthy data. */
  function Ok(data: Option<JsonValue>, stringify: JsonValue -> string): (r: Builder)
    ensures r.statusCode == OK
    ensures Truthy(data) ==> r.body == stringify(data.value) && Lookup(r.headers, CONTENT_TYPE) == Some(JsonType)
    ensures !Truthy(data) ==> r.body == "" && r.headers == []
    ensures Valid(r)
  {
    var b := Status(New(), OK);
    if Truthy(data) then Json(b, data.value, stringify) else b
  }

  /** `created`: as `ok` with 201. */
  function Created(data: Option<JsonValue>, stringify: JsonValue -> string): (r: Builder)
    ensures r.statusCode == CREATED
    ensures Truthy(data) ==> r.body == stringify(data.value) && Lookup(r.headers, CONTENT_TYPE) == Some(JsonType)
    ensures !Truthy(data) ==> r.body == "" && r.headers == []
    ensures Valid(r)
  {
    var b := Status(New(), CREATED);
    if Truthy(data) then Json(b, data.value, stringify) else b
  }

  /** `noContent`: 204, nothing else. */
  function NoContent(): (r: Builder)
    ensures r.statusCode == NO_CONTENT && r.headers == [] && r.body == ""
  {
    Status(New(), NO_CONTENT)
  }

  function BadRequest(message: Option<string>, stringify: JsonValue -> string): (r: Builder)
    ensures r == Error(New(), BAD_REQUEST, message, stringify)
    ensures ErrorBody(BAD_REQUEST, message).fields[0] == ("error", JString("Bad Request"))
  {
    Error(New(), BAD_REQUEST, message, stringify)
  }

  function NotFound(message: Option<string>, stringify: JsonValue -> string): (r: Builder)
    ensures r == Error(New(), NOT_FOUND, message, stringify)
    ensures ErrorBody(NOT_FOUND, message).fields[0] == ("error", JString("Not Found"))
  {
    Error(New(), NOT_FOUND, message, stringify)
  }

  function MethodNotAllowed(message: Option<string>, stringify: JsonValue -> string): (r: Builder)
    ensures r == Error(New(), METHOD_NOT_ALLOWED, message, stringify)
    ensures ErrorBody(METHOD_NOT_ALLOWED, message).fields[0] == ("error", JString("Method Not Allowed"))
  {
    Error(New(), METHOD_NOT_ALLOWED, message, stringify)
  }

  function InternalError(message: Option<string>, stringify: JsonValue -> string): (r: Builder)
    ensures r == Error(New(), INTERNAL_SERVER_ERROR, message, stringify)
    ensures ErrorBody(INTERNAL_SERVER_ERROR, message).fields[0] == ("error", JString("Internal Server Error"))
  {
    Error(New(), INTERNAL_SERVER_ERROR, message, stringify)
  }

  /** Without a message, a known code's error body repeats the status text
      as the message; an unknown code's has no message at all. */
  lemma {:induction false} ErrorBodyDefaults(code: int)
    ensures StatusText(code).Some? ==>
              ErrorBody(code, None) == JObject([("error", JString(StatusText(code).value)),
                                                ("message", JString(StatusText(code).value)),
                                                ("statusCode", JNumber(code))])
    ensures StatusText(code).None? ==>
              ErrorBody(code, None) == JObject([("error", JString("Unknown Error")), ("statusCode", JNumber(code))])
    ensures ErrorBody(code, Some("")) == ErrorBody(code, None)
  {
  }
}
