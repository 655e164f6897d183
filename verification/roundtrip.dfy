/** How the response builder and the header parser fit together: the header
    lines `build` writes, read back the way a request's header lines are
    read (src/http/response-builder.ts and src/http/parsers/header.ts),
    give back exactly the builder's header record. */
module ResponseRoundTrip {
  import opened Wrappers
  import opened Text
  import opened Consts
  import opened ResponseBuilder
  import HeadersParser
  import LastWins
  import opened Validator

  /** Text that holds no carriage return, so no line break either. */
  predicate OneLine(s: string) {
    '\r' !in s
  }

  /** A name that survives the header parser's trimming and its search for
      the first colon, and that does not break a line. */
  predicate SafeName(k: string) {
    k != [] && !IsSpace(k[0]) && !IsSpace(k[|k| - 1]) && ':' !in k && OneLine(k)
  }

  /** A value that survives trimming and does not break a line. */
  predicate SafeValue(v: string) {
    HeadersParser.Trimmed(v) && OneLine(v)
  }

  predicate SafeHeaders(hs: Headers) {
    forall i | 0 <= i < |hs| :: SafeName(hs[i].0) && SafeValue(hs[i].1)
  }

  /** The record the header parser reads from a response text. */
  function ReadHeaders(text: string): map<string, string> {
    HeadersParser.Parse(Split(text, CRLF)).data
  }

  /** A rendered response splits into its status line first, and its
      header lines read back as the builder's record: a name is found
      exactly when the builder holds it, with the builder's value. */
  lemma {:induction false} RenderReadsBack(b: Builder)
    requires Valid(b) && SafeHeaders(b.headers)
    ensures Split(Render(b), CRLF)[0] == StatusLine(b.statusCode)
    ensures var h := ReadHeaders(Render(b));
            forall k :: Lookup(b.headers, k) == (if k in h then Some(h[k]) else None)
  {
    var sl := StatusLine(b.statusCode);
    var hl := HeaderLines(b.headers);
    HeaderLinesRead(b.headers);
    StatusLineNoCR(b.statusCode);
    var lines := RenderedLines(b, sl, hl);
    ReadBackFrom(Render(b), b.headers, sl, lines);
  }

  /** A text whose lines are a first line, the header lines of a record
      with unique names, an empty line and anything after reads back as
      that record. */
  lemma {:induction false} ReadBackFrom(text: string, hs: Headers, first: string, rest: seq<string>)
    requires UniqueNames(hs)
    requires var hl := HeaderLines(hs);
             && Split(text, CRLF) == [first] + hl + [""] + rest
             && forall i | 0 <= i < |hs| :: HeadersParser.Entry(hl[i]) == Some(hs[i]) && !AllSpace(hl[i])
    ensures var h := ReadHeaders(text);
            forall k :: Lookup(hs, k) == (if k in h then Some(h[k]) else None)
  {
    var hl := HeaderLines(hs);
    HeadersParser.ParseStopsAtBlank(first, hl, "", rest);
    AssignUnique(hs, HeadersParser.Entries(hl));
  }

  /** Each header line is a single non-blank line that reads back as its
      entry. */
  lemma {:induction false} HeaderLinesRead(hs: Headers)
    requires SafeHeaders(hs) && forall i | 0 <= i < |hs| :: IsLower(hs[i].0)
    ensures var hl := HeaderLines(hs);
            forall i | 0 <= i < |hs| ::
              && HeadersParser.Entry(hl[i]) == Some(hs[i])
              && OneLine(hl[i]) && !AllSpace(hl[i])
  {
    var hl := HeaderLines(hs);
    forall i | 0 <= i < |hs|
      ensures HeadersParser.Entry(hl[i]) == Some(hs[i]) && OneLine(hl[i]) && !AllSpace(hl[i])
    {
      assert hl[i] == FormatHeaderName(hs[i].0) + ": " + hs[i].1;
      LineEntry(hs[i].0, hs[i].1);
    }
  }

  /** The text of `Render(b)` split at CRLF: the status line, the header
      lines, the empty line, then the body's lines. */
  lemma {:induction false} RenderedLines(b: Builder, sl: string, hl: seq<string>) returns (rest: seq<string>)
    requires sl == StatusLine(b.statusCode) && hl == HeaderLines(b.headers)
    requires OneLine(sl) && forall i | 0 <= i < |hl| :: OneLine(hl[i])
    ensures Split(Render(b), CRLF) == [sl] + hl + [""] + rest
  {
    assert Render(b) == sl + CRLF + (Join(hl, CRLF) + CRLF + CRLF) + b.body;
    rest := TextLines(sl, hl, b.body);
  }

  /** The layout `build` writes, split at CRLF. */
  lemma {:induction false} TextLines(sl: string, hl: seq<string>, body: string) returns (rest: seq<string>)
    requires OneLine(sl) && forall i | 0 <= i < |hl| :: OneLine(hl[i])
    ensures Split(sl + CRLF + (Join(hl, CRLF) + CRLF + CRLF) + body, CRLF) == [sl] + hl + [""] + rest
  {
    var text := sl + CRLF + (Join(hl, CRLF) + CRLF + CRLF) + body;
    var ps: seq<string>, tail: string;
    AllOneLineOf(hl);
    AllOneLineAppend([sl], hl);
    AllOneLineAppend([sl] + hl, [""]);
    if |hl| > 0 {
      ps, tail := [sl] + hl + [""], body;
      JoinSnoc([sl] + hl, "", CRLF);
      JoinCons(sl, hl, CRLF);
      assert text == Join(ps, CRLF) + CRLF + tail;
    } else {
      ps, tail := [sl, ""], CRLF + body;
      assert ps == [sl] + hl + [""];
      assert Join(ps, CRLF) == sl + CRLF + "";
      assert text == Join(ps, CRLF) + CRLF + tail;
    }
    SplitLines(ps, tail);
    rest := Split(tail, CRLF);
  }

  /** With unique names, the record of the entries is the header list's
      lookup. */
  lemma {:induction false} AssignUnique(hs: Headers, es: seq<Option<(string, string)>>)
    requires UniqueNames(hs)
    requires |es| == |hs| && forall i | 0 <= i < |hs| :: es[i] == Some(hs[i])
    ensures var h := LastWins.Assign(es);
            forall k :: Lookup(hs, k) == (if k in h then Some(h[k]) else None)
  {
    var h := LastWins.Assign(es);
    LastWins.AssignSpec(es);
    forall k ensures Lookup(hs, k) == (if k in h then Some(h[k]) else None) {
      match Lookup(hs, k)
      case None =>
        forall i | 0 <= i < |es| ensures !LastWins.Writes(es, i, k) {
          assert hs[i].0 != k;
        }
      case Some(v) =>
        var i :| 0 <= i < |hs| && hs[i] == (k, v);
        assert LastWins.LastWrite(es, i, k);
    }
  }

  /** One header line reads back as the name and value it was written
      from. */
  lemma {:induction false} LineEntry(k: string, v: string)
    requires SafeName(k) && IsLower(k) && SafeValue(v)
    ensures var line := FormatHeaderName(k) + ": " + v;
            && HeadersParser.Entry(line) == Some((k, v))
            && OneLine(line) && !AllSpace(line)
  {
    var f := FormatHeaderName(k);
    FormatHeaderNameSpec(k);
    FormatHeaderNameCase(k);
    ToLowerIsLower(k);
    CapitalizedSafe(k);
    ParsedLine(f, k, v);
  }

  /** A line `f: v` with a safe name `f` is read as `f` in lower case and
      `v`. */
  lemma {:induction false} ParsedLine(f: string, k: string, v: string)
    requires SafeName(f) && ToLower(f) == k && SafeValue(v)
    ensures var line := f + ": " + v;
            && HeadersParser.Entry(line) == Some((k, v))
            && OneLine(line) && !AllSpace(line)
  {
    var line := f + ": " + v;
    assert HeadersParser.Entry(line) == Some((k, v)) by {
      HeaderLineOf(f, v);
      assert |k| == |f|;
    }
    assert OneLine(line) by {
      assert '\r' !in ": ";
    }
    assert line[0] == f[0];
  }

  lemma {:induction false} HeaderLineOf(f: string, v: string)
    requires SafeName(f) && SafeValue(v)
    ensures IsValidHeader(f + ": " + v)
    ensures HeadersParser.ParseHeaderLine(f + ": " + v) == (ToLower(f), Some(v))
  {
    TrimNoEdges(f);
    PaddedValue(v);
    ColonSpace(f, v);
    HeaderLineVia(f, " " + v, v, f + ": " + v);
  }

  lemma {:induction false} ColonSpace(f: string, v: string)
    ensures f + ": " + v == f + ":" + (" " + v)
  {
    assert ": " == ":" + " ";
  }

  /** The single space after the colon is trimmed away again. */
  lemma {:induction false} PaddedValue(v: string)
    requires HeadersParser.Trimmed(v)
    ensures Trim(" " + v) == v
  {
    TrimLeadingSpace(" ", v);
    TrimNoEdges(v);
  }

  lemma {:induction false} HeaderLineVia(f: string, w: string, v: string, line: string)
    requires ':' !in f && Trim(f) == f && Trim(w) == v && line == f + ":" + w
    ensures IsValidHeader(line) && HeadersParser.ParseHeaderLine(line) == (ToLower(f), Some(v))
  {
    HeadersParser.ParseHeaderLineAt(f, w);
  }

  /** Capitalising keeps a name safe. */
  lemma {:induction false} CapitalizedSafe(k: string)
    requires SafeName(k)
    ensures SafeName(CapitalizeAt(k))
  {
    var f := CapitalizeAt(k);
    assert forall i | 0 <= i < |k| :: f[i] == UpperChar(k[i]) || f[i] == LowerChar(k[i]);
  }

  lemma {:induction false} JoinCons<T>(a: seq<T>, ps: seq<seq<T>>, sep: seq<T>)
    requires |ps| > 0
    ensures Join([a] + ps, sep) == a + sep + Join(ps, sep)
  {
    assert ([a] + ps)[1..] == ps;
  }

  lemma {:induction false} JoinSnoc<T>(ps: seq<seq<T>>, x: seq<T>, sep: seq<T>)
    requires |ps| > 0
    ensures Join(ps + [x], sep) == Join(ps, sep) + sep + x
    decreases |ps|
  {
    if |ps| == 1 {
      assert (ps + [x])[1..] == [x];
    } else {
      assert (ps + [x])[1..] == ps[1..] + [x];
      JoinSnoc(ps[1..], x, sep);
    }
  }

  /** Lines without a carriage return, joined and followed by CRLF, split
      back into themselves. */
  lemma {:induction false} SplitLines(ps: seq<string>, rest: string)
    requires |ps| > 0 && AllOneLine(ps)
    ensures Split(Join(ps, CRLF) + CRLF + rest, CRLF) == ps + Split(rest, CRLF)
  {
    JoinLines(ps, rest);
    SplitEachLine(ps, rest);
  }

  /** Each line followed by CRLF, then `rest`. */
  function Terminated(ps: seq<string>, rest: string): string {
    if |ps| == 0 then rest else ps[0] + CRLF + Terminated(ps[1..], rest)
  }

  /** Every line is a single line. */
  predicate AllOneLine(ps: seq<string>) {
    |ps| == 0 || (OneLine(ps[0]) && AllOneLine(ps[1..]))
  }

  lemma {:induction false} AllOneLineOf(ps: seq<string>)
    requires forall i | 0 <= i < |ps| :: OneLine(ps[i])
    ensures AllOneLine(ps)
    decreases |ps|
  {
    if |ps| > 0 {
      assert forall i | 0 <= i < |ps| - 1 :: ps[1..][i] == ps[i + 1];
      AllOneLineOf(ps[1..]);
    }
  }

  lemma {:induction false} AllOneLineAppend(a: seq<string>, b: seq<string>)
    requires AllOneLine(a) && AllOneLine(b)
    ensures AllOneLine(a + b)
    decreases |a|
  {
    if |a| > 0 {
      assert (a + b)[1..] == a[1..] + b;
      AllOneLineAppend(a[1..], b);
    } else {
      assert a + b == b;
    }
  }

  lemma {:induction false} JoinLines(ps: seq<string>, rest: string)
    requires |ps| > 0
    ensures Join(ps, CRLF) + CRLF + rest == Terminated(ps, rest)
    decreases |ps|
  {
    if |ps| > 1 {
      JoinLines(ps[1..], rest);
    }
  }

  lemma {:induction false} SplitEachLine(ps: seq<string>, rest: string)
    requires AllOneLine(ps)
    ensures Split(Terminated(ps, rest), CRLF) == ps + Split(rest, CRLF)
    decreases |ps|
  {
    if |ps| > 0 {
      var p, t := ps[0], Terminated(ps[1..], rest);
      SplitEachLine(ps[1..], rest);
      SplitLine(p, t);
      assert ps == [p] + ps[1..];
    }
  }

  /** A line without a carriage return, then CRLF, splits off first. */
  lemma {:induction false} SplitLine(p: string, tail: string)
    requires OneLine(p)
    ensures Split(p + CRLF + tail, CRLF) == [p] + Split(tail, CRLF)
  {
    var whole := p + CRLF + tail;
    forall j | 0 <= j < |p| ensures !OccursAt(whole, CRLF, j) {
      assert whole[j] == p[j];
    }
    SplitCons(p, CRLF, tail);
  }

  lemma {:induction false} StatusLineNoCR(code: int)
    ensures OneLine(StatusLine(code))
  {
    var d := NatToString(if code < 0 then -code else code);
    assert forall j | 0 <= j < |d| :: IsDigit(d[j]);
    ReasonNoCR(code);
  }

  lemma {:induction false} ReasonNoCR(code: int)
    ensures OneLine(Reason(code))
  {
  }

  /** Every entry `build` leaves behind is safe when the builder's own
      entries and the date are. */
  lemma {:induction false} DefaultsSafe(b: Builder, date: string)
    requires Valid(b) && SafeHeaders(b.headers) && SafeValue(date)
    ensures SafeHeaders(WithDefaults(b, date).headers)
  {
    var r := WithDefaults(b, date).headers;
    forall i | 0 <= i < |r| ensures SafeName(r[i].0) && SafeValue(r[i].1) {
      UniqueLookup(r, i);
      DefaultEntrySafe(b, date, r[i].0, r[i].1);
    }
  }

  lemma {:induction false} DefaultEntrySafe(b: Builder, date: string, n: string, v: string)
    requires Valid(b) && SafeHeaders(b.headers) && SafeValue(date)
    requires Lookup(WithDefaults(b, date).headers, n) == Some(v)
    ensures SafeName(n) && SafeValue(v)
  {
    if (n != CONTENT_LENGTH && n != DATE && n != SERVER) || Present(b.headers, n) {
      FromLookup(b.headers, n, v);
    } else {
      DefaultNamesSafe();
      DecimalSafe(Utf8Length(b.body));
    }
  }

  lemma {:induction false} FromLookup(hs: Headers, n: string, v: string)
    requires SafeHeaders(hs) && Lookup(hs, n) == Some(v)
    ensures SafeName(n) && SafeValue(v)
  {
    var j :| 0 <= j < |hs| && hs[j] == (n, v);
  }

  lemma {:induction false} UniqueLookup(hs: Headers, i: int)
    requires UniqueNames(hs) && 0 <= i < |hs|
    ensures Lookup(hs, hs[i].0) == Some(hs[i].1)
  {
  }

  lemma {:induction false} DefaultNamesSafe()
    ensures SafeName(CONTENT_LENGTH) && SafeName(DATE) && SafeName(SERVER)
    ensures SafeValue(SERVER_NAME)
  {
    ContentLengthSafe();
    ServerNameSafe();
  }

  lemma {:induction false} ContentLengthSafe()
    ensures SafeName(CONTENT_LENGTH)
  {
  }

  lemma {:induction false} ServerNameSafe()
    ensures SafeValue(SERVER_NAME)
  {
  }

  lemma {:induction false} DecimalSafe(n: nat)
    ensures SafeValue(NatToString(n))
  {
    var d := NatToString(n);
    assert forall j | 0 <= j < |d| :: IsDigit(d[j]);
  }

  /** `build`: the response text's header lines read back as the record the
      builder holds after `build`, and that record always carries
      Content-Length, Date and Server. */
  lemma {:induction false} BuildReadsBack(b: Builder, date: string)
    requires Valid(b) && SafeHeaders(b.headers) && SafeValue(date)
    ensures var (text, built) := Build(b, date);
            var h := ReadHeaders(text);
            && Split(text, CRLF)[0] == StatusLine(b.statusCode)
            && (forall k :: Lookup(built.headers, k) == (if k in h then Some(h[k]) else None))
            && CONTENT_LENGTH in h && DATE in h && SERVER in h
  {
    var built := WithDefaults(b, date);
    DefaultsSafe(b, date);
    RenderReadsBack(built);
    var h := ReadHeaders(Render(built));
    assert Lookup(built.headers, CONTENT_LENGTH).Some?;
    assert Lookup(built.headers, DATE).Some?;
    assert Lookup(built.headers, SERVER).Some?;
  }
}
