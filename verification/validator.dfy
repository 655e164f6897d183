/** `HTTPValidator` (src/http/validator.ts): the token-level checks the
    request-line and header parsers apply. */
module Validator {
  import opened Wrappers
  import opened Text
  import opened Consts
  import opened JsParseInt

  // ---------------------------------------------------------------------
  // Methods
  // ---------------------------------------------------------------------

  /** The upper-case form `toUpperCase` gives a character, exact whenever
      that form is ASCII: the ASCII letters, dotless i, long s, sharp s and
      the Latin ligatures ff, fi, fl, ffi, ffl, long s t and st. Any other
      character is kept as it is; its true upper-case form then holds a
      non-ASCII character as well, so a comparison with ASCII text comes
      out the same. */
  function UpperForm(c: char): (u: string)
    ensures 1 <= |u| <= 3
    ensures c as int < 128 ==> u == [UpperChar(c)]
  {
    if 'a' <= c <= 'z' then [UpperChar(c)]
    else if c == '\U{0131}' then "I"
    else if c == '\U{017F}' then "S"
    else if c == '\U{00DF}' then "SS"
    else if c == '\U{FB00}' then "FF"
    else if c == '\U{FB01}' then "FI"
    else if c == '\U{FB02}' then "FL"
    else if c == '\U{FB03}' then "FFI"
    else if c == '\U{FB04}' then "FFL"
    else if c == '\U{FB05}' || c == '\U{FB06}' then "ST"
    else [c]
  }

  /** `toUpperCase` as seen by a comparison with ASCII text. */
  function JsToUpper(s: string): (r: string)
    ensures |r| >= |s|
    decreases |s|
  {
    if |s| == 0 then [] else UpperForm(s[0]) + JsToUpper(s[1..])
  }

  predicate IsAscii(s: string) {
    forall i | 0 <= i < |s| :: s[i] as int < 128
  }

  /** On ASCII text the full upper-casing is the ASCII one. */
  lemma {:induction false} JsToUpperAscii(s: string)
    requires IsAscii(s)
    ensures JsToUpper(s) == ToUpper(s)
    decreases |s|
  {
    if |s| > 0 {
      JsToUpperAscii(s[1..]);
      assert ToUpper(s) == [UpperChar(s[0])] + ToUpper(s[1..]);
    }
  }

  /** `isValidMethod`, returning the method `method.toUpperCase()` names:
      the token is accepted exactly when its upper-case form is one of the
      seven method names. */
  function MethodOf(token: string): (r: Option<Method>)
    ensures r.Some? ==> MethodName(r.value) == JsToUpper(token)
    ensures r.None? <==> forall m: Method :: MethodName(m) != JsToUpper(token)
  {
    MethodFromName(JsToUpper(token))
  }

  predicate IsValidMethod(token: string) {
    MethodOf(token).Some?
  }

  /** Every method name is accepted in upper and in lower case. */
  lemma {:induction false} MethodCaseInsensitive(m: Method)
    ensures MethodOf(MethodName(m)) == Some(m)
    ensures MethodOf(ToLower(MethodName(m))) == Some(m)
  {
    var name := MethodName(m);
    assert UpperLetters(name) by {
      match m
      case GET => case POST => case PUT => case DELETE =>
      case PATCH => case OPTIONS => case HEAD =>
    }
    UpperLettersCase(name);
    JsToUpperAscii(name);
    JsToUpperAscii(ToLower(name));
  }

  predicate UpperLetters(u: string) {
    forall i | 0 <= i < |u| :: 'A' <= u[i] <= 'Z'
  }

  lemma {:induction false} UpperLettersCase(u: string)
    requires UpperLetters(u)
    ensures IsAscii(u) && IsAscii(ToLower(u))
    ensures ToUpper(u) == u && ToUpper(ToLower(u)) == u
  {
  }

  /** On ASCII tokens the check is a case-insensitive comparison. */
  lemma {:induction false} MethodOfAscii(token: string, m: Method)
    requires IsAscii(token)
    ensures MethodOf(token) == Some(m) <==> ToUpper(token) == MethodName(m)
  {
    JsToUpperAscii(token);
  }

  /** A token with a long s is accepted: `"poſt".toUpperCase()` is
      `"POST"`. */
  lemma {:induction false} LongSMethod()
    ensures MethodOf("po\U{017F}t") == Some(POST)
  {
    var t := "po\U{017F}t";
    assert t[1..][1..][1..][1..] == [];
    assert JsToUpper(t[1..][1..][1..]) == "T";
    assert JsToUpper(t[1..][1..]) == "ST";
    assert JsToUpper(t[1..]) == "OST";
    assert JsToUpper(t) == "POST";
  }

  // ---------------------------------------------------------------------
  // Versions
  // ---------------------------------------------------------------------

  /** `isValidVersion`: `/^HTTP\/\d\.\d$/`. */
  predicate IsValidVersion(v: string) {
    |v| == 8 && v[..5] == "HTTP/" && IsDigit(v[5]) && v[6] == '.' && IsDigit(v[7])
  }

  /** The version text for a major and a minor digit. */
  function VersionText(major: char, minor: char): (v: string)
    ensures |v| == 8
  {
    "HTTP/" + [major] + "." + [minor]
  }

  /** The accepted versions are exactly `HTTP/<digit>.<digit>`. */
  lemma {:induction false} ValidVersionShape(v: string)
    ensures IsValidVersion(v) ==> v == VersionText(v[5], v[7])
    ensures forall a: char, b: char :: IsValidVersion(VersionText(a, b)) <==> IsDigit(a) && IsDigit(b)
  {
    forall a: char, b: char ensures IsValidVersion(VersionText(a, b)) <==> IsDigit(a) && IsDigit(b) {
      var w := VersionText(a, b);
      assert w[..5] == "HTTP/" && w[5] == a && w[6] == '.' && w[7] == b;
    }
  }

  /** The server's own version passes. */
  lemma {:induction false} OwnVersionValid()
    ensures IsValidVersion(VERSION)
  {
    assert VERSION == VersionText('1', '1');
    ValidVersionShape(VERSION);
  }

  // ---------------------------------------------------------------------
  // Paths, header lines, Content-Length values
  // ---------------------------------------------------------------------

  /** `isValidPath`: starts with `/` and contains no `..`. */
  predicate IsValidPath(p: string) {
    StartsWith(p, "/") && !Contains(p, "..")
  }

  /** `includes`, read positionally. */
  lemma {:induction false} ContainsAt<T>(s: seq<T>, pat: seq<T>)
    ensures Contains(s, pat) <==> exists i :: OccursAt(s, pat, i)
  {
  }

  /** A valid path is one that starts with `/` and has no two adjacent
      dots anywhere. */
  lemma {:induction false} ValidPathMeaning(p: string)
    ensures IsValidPath(p) <==>
              |p| > 0 && p[0] == '/' && forall i | 0 <= i < |p| - 1 :: !(p[i] == '.' && p[i + 1] == '.')
  {
    ContainsAt(p, "..");
    if Contains(p, "..") {
      var i :| OccursAt(p, "..", i);
      assert p[i..i + 2] == "..";
      assert p[i] == '.' && p[i + 1] == '.';
    } else {
      forall i | 0 <= i < |p| - 1 ensures !(p[i] == '.' && p[i + 1] == '.') {
        assert !OccursAt(p, "..", i);
        assert p[i..i + 2] == [p[i], p[i + 1]];
      }
    }
    if |p| > 0 {
      assert StartsWith(p, "/") <==> p[..1] == [p[0]] == "/";
    }
  }

  /** Every piece of a split occurs in the text that was split. */
  lemma {:induction false} JoinHasParts<T>(parts: seq<seq<T>>, sep: seq<T>, i: nat)
    requires i < |parts|
    ensures exists off :: OccursAt(Join(parts, sep), parts[i], off)
    decreases |parts|
  {
    var j := Join(parts, sep);
    if |parts| == 1 {
      assert OccursAt(j, parts[0], 0);
    } else {
      var rest := Join(parts[1..], sep);
      assert j == parts[0] + sep + rest;
      if i == 0 {
        assert j[..|parts[0]|] == parts[0];
        assert OccursAt(j, parts[0], 0);
      } else {
        JoinHasParts(parts[1..], sep, i - 1);
        var off :| OccursAt(rest, parts[1..][i - 1], off);
        var k := |parts[0]| + |sep| + off;
        assert j[k..k + |parts[i]|] == rest[off..off + |parts[i]|];
        assert OccursAt(j, parts[i], k);
      }
    }
  }

  /** A valid path is absolute and has no parent-directory segment, so
      it cannot climb out of the root. */
  lemma {:induction false} ValidPathNoParentSegment(p: string)
    requires IsValidPath(p)
    ensures Split(p, "/")[0] == ""
    ensures forall i | 0 <= i < |Split(p, "/")| :: Split(p, "/")[i] != ".."
  {
    var parts := Split(p, "/");
    assert p == "/" + p[1..] by { assert p[..1] == "/"; }
    SplitCons("", "/", p[1..]);
    assert "" + "/" + p[1..] == p;
    ContainsAt(p, "..");
    forall i | 0 <= i < |parts| ensures parts[i] != ".." {
      if parts[i] == ".." {
        JoinHasParts(parts, "/", i);
      }
    }
  }

  /** `isValidHeader`: the line holds a colon. */
  predicate IsValidHeader(line: string) {
    Contains(line, ":")
  }

  lemma {:induction false} ValidHeaderMeaning(line: string)
    ensures IsValidHeader(line) <==> ':' in line
  {
    ContainsAt(line, ":");
    if ':' in line {
      var i :| 0 <= i < |line| && line[i] == ':';
      assert line[i..i + 1] == ":";
      assert OccursAt(line, ":", i);
    }
    if IsValidHeader(line) {
      var i :| OccursAt(line, ":", i);
      assert line[i..i + 1][0] == line[i];
    }
  }

  /** `isValidContentLength`: `/^\d+$/`, then `parseInt(value, 10)` must be
      a number that is not negative. */
  predicate IsValidContentLength(v: string) {
    && |v| > 0 && AllDigits(v)
    && match ParseInt(v)
       case None => false
       case Some(n) => n >= 0
  }

  /** The `parseInt` test adds nothing: a value is valid exactly when it is
      a non-empty run of decimal digits, and then it reads as their value. */
  lemma {:induction false} ValidContentLengthMeaning(v: string)
    ensures IsValidContentLength(v) <==> |v| > 0 && AllDigits(v)
    ensures IsValidContentLength(v) ==> ParseInt(v) == Some(DigitsValue(v))
  {
    if |v| > 0 && AllDigits(v) {
      ParseIntOfDigits(v);
    }
  }

  /** Every decimal rendering is a valid Content-Length and reads back. */
  lemma {:induction false} ContentLengthRoundTrip(n: nat)
    ensures IsValidContentLength(NatToString(n))
    ensures ParseInt(NatToString(n)) == Some(n)
  {
    ValidContentLengthMeaning(NatToString(n));
  }
}
