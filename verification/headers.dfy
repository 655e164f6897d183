/** `HeadersParser` (src/http/parsers/header.ts): reads the header lines that
    follow the request line into a record keyed by lower-case name. */
module HeadersParser {
  import opened Wrappers
  import opened Text
  import opened Types
  import opened Validator
  import LastWins

  /** `parseHeaderLine`: the name before the first colon, trimmed and
      lower-cased, and the trimmed text after it; no value without a
      colon. */
  function ParseHeaderLine(line: string): (r: (string, Option<string>))
    ensures r.1.None? <==> !IsValidHeader(line)
    ensures r.1.None? ==> r.0 == ""
  {
    match IndexOf(line, ":")
    case None => ("", None)
    case Some(i) => (ToLower(Trim(line[..i])), Some(Trim(line[i + 1..])))
  }

  /** The name ends at the first colon: a line `k:w` with no colon in `k`
      has the name `k` and the value `w`, later colons included, both
      trimmed. */
  lemma {:induction false} ParseHeaderLineAt(k: string, w: string)
    requires ':' !in k
    ensures IsValidHeader(k + ":" + w)
    ensures ParseHeaderLine(k + ":" + w) == (ToLower(Trim(k)), Some(Trim(w)))
  {
    ColonAfter(k, w);
  }

  /** The first colon of `f + ":" + w` is the one after `f` when `f` has
      none. */
  lemma {:induction false} ColonAfter(f: string, w: string)
    requires ':' !in f
    ensures var line := f + ":" + w;
            && IndexOf(line, ":") == Some(|f|)
            && line[..|f|] == f && line[|f| + 1..] == w
  {
    var line := f + ":" + w;
    assert OccursAt(line, ":", |f|);
    forall j | 0 <= j < |f| ensures !OccursAt(line, ":", j) {
      assert line[j..j + 1] == [f[j]];
    }
  }

  /** Text without white space at either end. */
  predicate Trimmed(s: string) {
    s == [] || (!IsSpace(s[0]) && !IsSpace(s[|s| - 1]))
  }

  /** A parsed name is lower case and trimmed, and so is the value. */
  lemma {:induction false} HeaderLineShape(line: string)
    requires IsValidHeader(line)
    ensures var r := ParseHeaderLine(line);
            IsLower(r.0) && Trimmed(r.0) && Trimmed(r.1.value)
  {
    var i := IndexOf(line, ":").value;
    var name := Trim(line[..i]);
    ToLowerIsLower(name);
    LowerTrimmed(name);
    assert Trimmed(Trim(line[i + 1..]));
  }

  lemma {:induction false} LowerTrimmed(s: string)
    requires Trimmed(s)
    ensures Trimmed(ToLower(s))
  {
    if |s| > 0 {
      assert ToLower(s)[0] == LowerChar(s[0]);
      assert ToLower(s)[|s| - 1] == LowerChar(s[|s| - 1]);
    }
  }

  /** What one header line contributes: its name and value when the line
      has a colon and a non-empty name. */
  function Entry(line: string): (e: Option<(string, string)>)
    ensures e.Some? ==> IsValidHeader(line) && e.value.0 != []
  {
    if !IsValidHeader(line) then None
    else
      var kv := ParseHeaderLine(line);
      if kv.0 != [] && kv.1.Some? then Some((kv.0, kv.1.value)) else None
  }

  /** The index of the first empty or blank line at or after `i`, or the
      number of lines when there is none. */
  function BlockEnd(lines: seq<string>, i: nat): (e: nat)
    requires i <= |lines|
    ensures i <= e <= |lines|
    ensures e < |lines| ==> AllSpace(lines[e])
    ensures forall j | i <= j < e :: !AllSpace(lines[j])
    decreases |lines| - i
  {
    if i == |lines| || AllSpace(lines[i]) then i else BlockEnd(lines, i + 1)
  }

  /** The header lines: those after the request line, up to the first empty
      or blank line. */
  function HeaderBlock(lines: seq<string>): seq<string> {
    if |lines| == 0 then [] else lines[1..BlockEnd(lines, 1)]
  }

  function Entries(block: seq<string>): (es: seq<Option<(string, string)>>)
    ensures |es| == |block|
    ensures forall j | 0 <= j < |block| :: es[j] == Entry(block[j])
  {
    seq(|block|, j requires 0 <= j < |block| => Entry(block[j]))
  }

  /** `parse`: every header line with a colon and a non-empty name is
      written in order into the record, so a later line wins. It never
      fails. */
  function Parse(lines: seq<string>): (r: ParseResult<map<string, string>>)
    ensures r.Success?
  {
    Success(LastWins.Assign(Entries(HeaderBlock(lines))))
  }

  /** A line of the block writes the name `k` with value `v`. */
  ghost predicate Writes(lines: seq<string>, j: int, k: string, v: string) {
    var block := HeaderBlock(lines);
    0 <= j < |block| && Entry(block[j]) == Some((k, v))
  }

  /** The record holds a name exactly when some header line carries it, and
      then the value of the last such line. */
  lemma {:induction false} ParseSpec(lines: seq<string>)
    ensures var h := Parse(lines).data;
            && (forall k :: k in h <==> exists j, v :: Writes(lines, j, k, v))
            && (forall j, k, v | Writes(lines, j, k, v) &&
                                 (forall j', v' | j < j' :: !Writes(lines, j', k, v')) ::
                  k in h && h[k] == v)
  {
    ParseNames(lines);
    ParseValues(lines);
  }

  lemma {:induction false} ParseNames(lines: seq<string>)
    ensures var h := Parse(lines).data;
            forall k :: k in h <==> exists j, v :: Writes(lines, j, k, v)
  {
    var es := Entries(HeaderBlock(lines));
    var h := LastWins.Assign(es);
    LastWins.AssignSpec(es);
    forall k ensures k in h <==> exists j, v :: Writes(lines, j, k, v) {
      if k in h {
        var j :| LastWins.Writes(es, j, k);
        assert Writes(lines, j, k, es[j].value.1);
      }
      if exists j, v :: Writes(lines, j, k, v) {
        var j, v :| Writes(lines, j, k, v);
        assert LastWins.Writes(es, j, k);
      }
    }
  }

  lemma {:induction false} ParseValues(lines: seq<string>)
    ensures var h := Parse(lines).data;
            forall j, k, v | Writes(lines, j, k, v) &&
                             (forall j', v' | j < j' :: !Writes(lines, j', k, v')) ::
              k in h && h[k] == v
  {
    var es := Entries(HeaderBlock(lines));
    var h := LastWins.Assign(es);
    LastWins.AssignSpec(es);
    forall j, k, v | Writes(lines, j, k, v) && (forall j', v' | j < j' :: !Writes(lines, j', k, v'))
      ensures k in h && h[k] == v
    {
      forall j' | j < j' < |es| ensures !LastWins.Writes(es, j', k) {
        assert !Writes(lines, j', k, if es[j'].Some? then es[j'].value.1 else "");
      }
      assert LastWins.LastWrite(es, j, k);
    }
  }

  /** Every name in the record is non-empty, lower case and trimmed, and
      every value is trimmed. */
  lemma {:induction false} ParseShape(lines: seq<string>)
    ensures var h := Parse(lines).data;
            forall k | k in h :: k != [] && IsLower(k) && Trimmed(k) && Trimmed(h[k])
  {
    var es := Entries(HeaderBlock(lines));
    var ok := (k: string, v: string) => k != [] && IsLower(k) && Trimmed(k) && Trimmed(v);
    forall i | 0 <= i < |es| && es[i].Some? ensures ok(es[i].value.0, es[i].value.1) {
      EntryShape(HeaderBlock(lines)[i]);
    }
    LastWins.AssignKeeps(es, ok);
  }

  lemma {:induction false} EntryShape(line: string)
    requires Entry(line).Some?
    ensures var e := Entry(line).value;
            e.0 != [] && IsLower(e.0) && Trimmed(e.0) && Trimmed(e.1)
  {
    HeaderLineShape(line);
  }

  /** Nothing after the first empty or blank line, and not the request line
      itself, is read as a header. */
  lemma {:induction false} ParseStopsAtBlank(first: string, headerLines: seq<string>, blank: string, rest: seq<string>)
    requires forall j | 0 <= j < |headerLines| :: !AllSpace(headerLines[j])
    requires AllSpace(blank)
    ensures HeaderBlock([first] + headerLines + [blank] + rest) == headerLines
    ensures Parse([first] + headerLines + [blank] + rest) == Parse([""] + headerLines)
  {
    var a := [first] + headerLines + [blank] + rest;
    var b := [""] + headerLines;
    assert HeaderBlock(a) == headerLines by {
      assert a[1 + |headerLines|] == blank;
      assert forall j | 1 <= j < 1 + |headerLines| :: a[j] == headerLines[j - 1];
      BlockEndAt(a, 1, 1 + |headerLines|);
      assert forall j | 0 <= j < |headerLines| :: a[1..1 + |headerLines|][j] == headerLines[j];
      assert a[1..1 + |headerLines|] == headerLines;
    }
    assert HeaderBlock(b) == headerLines by {
      assert forall j | 1 <= j < |b| :: b[j] == headerLines[j - 1];
      BlockEndAt(b, 1, |b|);
    }
  }

  lemma {:induction false} BlockEndAt(lines: seq<string>, i: nat, e: nat)
    requires i <= e <= |lines|
    requires forall j | i <= j < e :: !AllSpace(lines[j])
    requires e < |lines| ==> AllSpace(lines[e])
    ensures BlockEnd(lines, i) == e
    decreases e - i
  {
    if i < e {
      BlockEndAt(lines, i + 1, e);
    }
  }

  /** `getHeader`: the name is looked up in lower case. */
  function GetHeader(headers: map<string, string>, name: string): (r: Option<string>)
    ensures r.Some? <==> ToLower(name) in headers
    ensures r.Some? ==> r.value == headers[ToLower(name)]
  {
    if ToLower(name) in headers then Some(headers[ToLower(name)]) else None
  }

  /** `hasHeader`. */
  predicate HasHeader(headers: map<string, string>, name: string) {
    ToLower(name) in headers
  }

  /** Lookups ignore the letter case of the name, and `hasHeader` agrees
      with `getHeader`. */
  lemma {:induction false} LookupIgnoresCase(headers: map<string, string>, name: string)
    ensures GetHeader(headers, name) == GetHeader(headers, ToLower(name))
    ensures GetHeader(headers, name) == GetHeader(headers, ToUpper(name))
    ensures HasHeader(headers, name) <==> GetHeader(headers, name).Some?
  {
    ToLowerIsLower(name);
    assert ToLower(ToUpper(name)) == ToLower(name) by {
      forall i | 0 <= i < |name| ensures LowerChar(UpperChar(name[i])) == LowerChar(name[i]) { }
    }
  }

  /** Looking a name up, in any letter case, in a parsed record finds it
      exactly when some header line carries its lower-case form, and then
      gives the value of the last such line. */
  lemma {:induction false} ParsedLookup(lines: seq<string>, name: string)
    ensures var k := ToLower(name);
            GetHeader(Parse(lines).data, name).Some? <==> exists j, v :: Writes(lines, j, k, v)
    ensures var k := ToLower(name);
            forall j, v | Writes(lines, j, k, v) && (forall j', v' | j < j' :: !Writes(lines, j', k, v')) ::
              GetHeader(Parse(lines).data, name) == Some(v)
  {
    ParseNames(lines);
    ParseValues(lines);
  }
}
