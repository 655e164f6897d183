/** The JavaScript string primitives the source leans on: `trim`, the `\s`
    and `\d` character classes, `toLowerCase`/`toUpperCase` (on ASCII),
    `indexOf`, `includes`, `split`/`join`, number-to-decimal rendering and the
    UTF-16 and UTF-8 lengths of a string. A string is a sequence of Unicode
    scalar values. */
module Text {
  import opened Wrappers

  // ---------------------------------------------------------------------
  // White space
  // ---------------------------------------------------------------------

  /** ECMAScript WhiteSpace or LineTerminator: exactly the characters that
      `String.prototype.trim` removes and the regular-expression class `\s`
      matches. */
  predicate IsSpace(c: char) {
    var n := c as int;
    || n == 0x09 || n == 0x0A || n == 0x0B || n == 0x0C || n == 0x0D
    || n == 0x20 || n == 0xA0 || n == 0x1680
    || (0x2000 <= n <= 0x200A)
    || n == 0x2028 || n == 0x2029 || n == 0x202F || n == 0x205F
    || n == 0x3000 || n == 0xFEFF
  }

  predicate AllSpace(s: string) {
    forall i | 0 <= i < |s| :: IsSpace(s[i])
  }

  /** `trimStart`: the suffix left after dropping leading white space. */
  function TrimStart(s: string): (r: string)
    ensures |r| <= |s| && r == s[|s| - |r|..]
    ensures AllSpace(s[..|s| - |r|])
    ensures r == [] || !IsSpace(r[0])
  {
    if |s| > 0 && IsSpace(s[0]) then
      var r := TrimStart(s[1..]);
      assert s[..|s| - |r|] == [s[0]] + s[1..][..|s| - 1 - |r|];
      r
    else s
  }

  /** `trimEnd`: the prefix left after dropping trailing white space. */
  function TrimEnd(s: string): (r: string)
    ensures |r| <= |s| && r == s[..|r|]
    ensures AllSpace(s[|r|..])
    ensures r == [] || !IsSpace(r[|r| - 1])
  {
    if |s| > 0 && IsSpace(s[|s| - 1]) then
      var r := TrimEnd(s[..|s| - 1]);
      assert s[|r|..] == s[..|s| - 1][|r|..] + [s[|s| - 1]];
      r
    else s
  }

  /** `trim`: the infix left after dropping white space at both ends. */
  function Trim(s: string): (r: string)
    ensures r == [] <==> AllSpace(s)
    ensures r == [] || (!IsSpace(r[0]) && !IsSpace(r[|r| - 1]))
  {
    TrimEmpty(s);
    TrimEnd(TrimStart(s))
  }

  lemma {:induction false} TrimEmpty(s: string)
    ensures TrimEnd(TrimStart(s)) == [] <==> AllSpace(s)
  {
    var t := TrimStart(s);
    var i := |s| - |t|;
    if t == [] {
      assert s[..i] == s;
    } else {
      assert s[i] == t[0];
      TrimEndKeepsFirst(t);
    }
  }

  /** `trimEnd` stops at a first character that is not white space. */
  lemma {:induction false} TrimEndKeepsFirst(t: string)
    requires |t| > 0 && !IsSpace(t[0])
    ensures TrimEnd(t) != []
  {
  }

  /** Text without white space at either end is left alone by `trim`. */
  lemma {:induction false} TrimNoEdges(s: string)
    requires s == [] || (!IsSpace(s[0]) && !IsSpace(s[|s| - 1]))
    ensures Trim(s) == s
  {
  }

  /** White space put in front of a string does not survive `trim`. */
  lemma {:induction false} TrimLeadingSpace(w: string, v: string)
    requires AllSpace(w)
    ensures Trim(w + v) == Trim(v)
    decreases |w|
  {
    if |w| > 0 {
      assert (w + v)[1..] == w[1..] + v;
      assert TrimStart(w + v) == TrimStart(w[1..] + v);
      TrimLeadingSpace(w[1..], v);
    } else {
      assert w + v == v;
    }
  }

  /** `trim` removes exactly the white space around a text whose own ends
      are not white space. */
  lemma {:induction false} TrimSurrounded(w1: string, x: string, w2: string)
    requires AllSpace(w1) && AllSpace(w2)
    requires |x| > 0 && !IsSpace(x[0]) && !IsSpace(x[|x| - 1])
    ensures Trim(w1 + x + w2) == x
  {
    assert w1 + x + w2 == w1 + (x + w2);
    TrimLeadingSpace(w1, x + w2);
    TrimStartKeeps(x + w2);
    TrimEndDrops(x, w2);
  }

  lemma {:induction false} TrimStartKeeps(s: string)
    requires |s| > 0 && !IsSpace(s[0])
    ensures TrimStart(s) == s
  {
  }

  lemma {:induction false} TrimEndDrops(x: string, w: string)
    requires AllSpace(w)
    requires |x| > 0 && !IsSpace(x[|x| - 1])
    ensures TrimEnd(x + w) == x
    decreases |w|
  {
    var s := x + w;
    if |w| == 0 {
      assert s == x;
    } else {
      assert s[|s| - 1] == w[|w| - 1];
      assert s[..|s| - 1] == x + w[..|w| - 1];
      TrimEndDrops(x, w[..|w| - 1]);
    }
  }

  // ---------------------------------------------------------------------
  // Case mapping
  // ---------------------------------------------------------------------

  /** The lower-case form of a character, for the ASCII letters and for the
      one other character whose lower-case form is ASCII (KELVIN SIGN, which
      becomes `k`). Every other character is left alone. */
  function LowerChar(c: char): char {
    if 'A' <= c <= 'Z' then (c as int + 32) as char
    else if c == '\U{212A}' then 'k'
    else c
  }

  function UpperChar(c: char): char {
    if 'a' <= c <= 'z' then (c as int - 32) as char else c
  }

  /** `toLowerCase`, exact on every character whose lower-case form is
      ASCII; other letters keep their case. */
  function ToLower(s: string): (r: string)
    ensures |r| == |s|
    ensures forall i | 0 <= i < |s| :: r[i] == LowerChar(s[i])
  {
    seq(|s|, i requires 0 <= i < |s| => LowerChar(s[i]))
  }

  /** `toUpperCase`, restricted to the ASCII letters. */
  function ToUpper(s: string): (r: string)
    ensures |r| == |s|
    ensures forall i | 0 <= i < |s| :: r[i] == UpperChar(s[i])
  {
    seq(|s|, i requires 0 <= i < |s| => UpperChar(s[i]))
  }

  /** A string `toLowerCase` leaves alone. */
  predicate IsLower(s: string) {
    forall i | 0 <= i < |s| :: !('A' <= s[i] <= 'Z') && s[i] != '\U{212A}'
  }

  lemma {:induction false} ToLowerIsLower(s: string)
    ensures IsLower(ToLower(s))
    ensures ToLower(ToLower(s)) == ToLower(s)
    ensures IsLower(s) ==> ToLower(s) == s
  {
  }

  // ---------------------------------------------------------------------
  // Searching
  // ---------------------------------------------------------------------

  /** `pat` occurs in `s` starting at index `i`. */
  predicate OccursAt<T(==)>(s: seq<T>, pat: seq<T>, i: int) {
    0 <= i && i + |pat| <= |s| && s[i..i + |pat|] == pat
  }

  function IndexOfFrom<T(==)>(s: seq<T>, pat: seq<T>, from: nat): (r: Option<nat>)
    ensures r.Some? ==> from <= r.value && OccursAt(s, pat, r.value)
    ensures forall j | from <= j && (r.None? || j < r.value) :: !OccursAt(s, pat, j)
    decreases |s| - from
  {
    if from + |pat| > |s| then None
    else if s[from..from + |pat|] == pat then Some(from)
    else IndexOfFrom(s, pat, from + 1)
  }

  /** `indexOf`: the first index at which `pat` occurs in `s`, if any. */
  function IndexOf<T(==)>(s: seq<T>, pat: seq<T>): (r: Option<nat>)
    ensures r.Some? ==> OccursAt(s, pat, r.value)
    ensures forall j | 0 <= j && (r.None? || j < r.value) :: !OccursAt(s, pat, j)
  {
    IndexOfFrom(s, pat, 0)
  }

  /** `includes`. */
  predicate Contains<T(==)>(s: seq<T>, pat: seq<T>) {
    IndexOf(s, pat).Some?
  }

  /** `startsWith`. */
  predicate StartsWith<T(==)>(s: seq<T>, prefix: seq<T>) {
    |prefix| <= |s| && s[..|prefix|] == prefix
  }

  /** A first occurrence stays the first occurrence when text is appended. */
  lemma {:induction false} IndexOfExtend<T>(s: seq<T>, pat: seq<T>, more: seq<T>)
    requires IndexOf(s, pat).Some?
    ensures IndexOf(s + more, pat) == IndexOf(s, pat)
  {
    var i := IndexOf(s, pat).value;
    assert (s + more)[i..i + |pat|] == s[i..i + |pat|];
    assert OccursAt(s + more, pat, i);
    forall j | 0 <= j < i ensures !OccursAt(s + more, pat, j) {
      assert !OccursAt(s, pat, j);
      assert (s + more)[j..j + |pat|] == s[j..j + |pat|];
    }
  }

  // ---------------------------------------------------------------------
  // split / join
  // ---------------------------------------------------------------------

  /** `Array.prototype.join`. */
  function Join<T>(parts: seq<seq<T>>, sep: seq<T>): seq<T> {
    if |parts| == 0 then []
    else if |parts| == 1 then parts[0]
    else parts[0] + sep + Join(parts[1..], sep)
  }

  /** `String.prototype.split` with a non-empty separator: the pieces
      between the successive leftmost occurrences of `sep`. Joining them
      back gives `s`, and no piece contains `sep`. */
  function Split<T(==)>(s: seq<T>, sep: seq<T>): (parts: seq<seq<T>>)
    requires |sep| > 0
    ensures |parts| >= 1
    ensures Join(parts, sep) == s
    ensures forall i | 0 <= i < |parts| :: !Contains(parts[i], sep)
    decreases |s|
  {
    match IndexOf(s, sep)
    case None => [s]
    case Some(i) =>
      var rest := Split(s[i + |sep|..], sep);
      var parts := [s[..i]] + rest;
      assert s == s[..i] + sep + s[i + |sep|..];
      assert parts[1..] == rest;
      forall j | 0 <= j && j + |sep| <= i ensures !OccursAt(s[..i], sep, j) {
        assert !OccursAt(s, sep, j);
        assert s[..i][j..j + |sep|] == s[j..j + |sep|];
      }
      parts
  }

  /** Splitting text that starts with a piece free of the separator. */
  lemma {:induction false} SplitCons<T>(a: seq<T>, sep: seq<T>, b: seq<T>)
    requires |sep| > 0
    requires forall j | 0 <= j < |a| :: !OccursAt(a + sep + b, sep, j)
    ensures Split(a + sep + b, sep) == [a] + Split(b, sep)
  {
    var s := a + sep + b;
    assert OccursAt(s, sep, |a|) by { assert s[|a|..|a| + |sep|] == sep; }
    var i := IndexOf(s, sep).value;
    assert i == |a|;
    assert s[..i] == a;
    assert s[i + |sep|..] == b;
  }

  /** Pieces free of a one-element separator, joined by it, split back
      into themselves. */
  lemma {:induction false} SplitJoin<T>(parts: seq<seq<T>>, c: T)
    requires |parts| > 0
    requires forall i, j | 0 <= i < |parts| && 0 <= j < |parts[i]| :: parts[i][j] != c
    ensures Split(Join(parts, [c]), [c]) == parts
    decreases |parts|
  {
    var a := parts[0];
    if |parts| == 1 {
      forall j | 0 <= j && j + 1 <= |a| ensures !OccursAt(a, [c], j) {
        assert a[j..j + 1][0] == a[j];
      }
    } else {
      var b := Join(parts[1..], [c]);
      assert Join(parts, [c]) == a + [c] + b;
      forall j | 0 <= j < |a| ensures !OccursAt(a + [c] + b, [c], j) {
        assert (a + [c] + b)[j..j + 1][0] == a[j];
      }
      SplitCons(a, [c], b);
      SplitJoin(parts[1..], c);
      assert parts == [a] + parts[1..];
    }
  }

  /** Splitting at a one-element separator after a piece without it. */
  lemma {:induction false} SplitAtElem<T>(a: seq<T>, x: T, b: seq<T>)
    requires x !in a
    ensures Split(a + [x] + b, [x]) == [a] + Split(b, [x])
  {
    forall j | 0 <= j < |a| ensures !OccursAt(a + [x] + b, [x], j) {
      assert (a + [x] + b)[j..j + 1] == [a[j]];
    }
    SplitCons(a, [x], b);
  }

  /** Splitting at spaces after a piece without a space. */
  lemma {:induction false} SplitAtSpace(a: string, b: string)
    requires ' ' !in a
    ensures Split(a + " " + b, " ") == [a] + Split(b, " ")
  {
    forall j | 0 <= j < |a| ensures !OccursAt(a + " " + b, " ", j) {
      assert (a + " " + b)[j..j + 1] == [a[j]];
    }
    SplitCons(a, " ", b);
  }

  /** Text free of the separator splits into itself alone. */
  lemma {:induction false} SplitNone<T>(a: seq<T>, sep: seq<T>)
    requires |sep| > 0
    requires !Contains(a, sep)
    ensures Split(a, sep) == [a]
  {
  }

  // ---------------------------------------------------------------------
  // Decimal digits and number rendering
  // ---------------------------------------------------------------------

  /** The regular-expression class `\d`. */
  predicate IsDigit(c: char) {
    '0' <= c <= '9'
  }

  predicate AllDigits(s: string) {
    forall i | 0 <= i < |s| :: IsDigit(s[i])
  }

  function DigitChar(d: nat): (c: char)
    requires d < 10
    ensures IsDigit(c) && c as int - '0' as int == d
  {
    ('0' as int + d) as char
  }

  /** The number a string of decimal digits denotes. */
  function DigitsValue(s: string): nat
    requires AllDigits(s)
  {
    if |s| == 0 then 0
    else DigitsValue(s[..|s| - 1]) * 10 + (s[|s| - 1] as int - '0' as int)
  }

  /** The decimal rendering of a natural number (`n.toString()`). */
  function NatToString(n: nat): (s: string)
    ensures |s| >= 1 && AllDigits(s)
    ensures DigitsValue(s) == n
    ensures |s| > 1 ==> s[0] != '0'
  {
    if n < 10 then [DigitChar(n)]
    else
      var p := NatToString(n / 10);
      var s := p + [DigitChar(n % 10)];
      assert s[..|s| - 1] == p;
      s
  }

  /** The decimal rendering of an integer, with a leading `-` when negative. */
  function IntToString(i: int): (s: string)
    ensures i >= 0 ==> s == NatToString(i)
    ensures i < 0 ==> s == "-" + NatToString(-i)
  {
    if i < 0 then "-" + NatToString(-i) else NatToString(i)
  }

  // ---------------------------------------------------------------------
  // Lengths
  // ---------------------------------------------------------------------

  /** `s.length` in JavaScript: a character outside the Basic Multilingual
      Plane takes two UTF-16 code units. */
  function Utf16Length(s: string): (n: nat)
    ensures |s| <= n <= 2 * |s|
    ensures n == |s| <==> forall i | 0 <= i < |s| :: s[i] as int < 0x10000
  {
    if |s| == 0 then 0
    else (if s[0] as int < 0x10000 then 1 else 2) + Utf16Length(s[1..])
  }

  /** The number of bytes UTF-8 uses for one character. */
  function Utf8Width(c: char): (n: nat)
    ensures 1 <= n <= 4
  {
    if c as int < 0x80 then 1
    else if c as int < 0x800 then 2
    else if c as int < 0x10000 then 3
    else 4
  }

  /** `Buffer.byteLength(s)`: the size of the UTF-8 encoding of `s`. */
  function Utf8Length(s: string): (n: nat)
    ensures |s| <= n <= 4 * |s|
    ensures n == |s| <==> forall i | 0 <= i < |s| :: s[i] as int < 0x80
  {
    if |s| == 0 then 0 else Utf8Width(s[0]) + Utf8Length(s[1..])
  }
}
