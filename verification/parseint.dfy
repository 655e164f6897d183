/** JavaScript's `parseInt(s, 10)` as the body parser uses it: leading white
    space is skipped, one optional sign is read, then the longest run of
    decimal digits; with no digit the result is NaN, here `None`. */
module JsParseInt {
  import opened Wrappers
  import opened Text

  /** The length of the longest prefix of `s` made of decimal digits. */
  function DigitRun(s: string): (n: nat)
    ensures n <= |s| && AllDigits(s[..n])
    ensures n < |s| ==> !IsDigit(s[n])
  {
    if |s| > 0 && IsDigit(s[0]) then
      var n := 1 + DigitRun(s[1..]);
      assert s[..n] == [s[0]] + s[1..][..n - 1];
      n
    else 0
  }

  /** The sign `parseInt` reads, and the text after it. */
  function SignAndRest(t: string): (int, string) {
    if |t| > 0 && t[0] == '-' then (-1, t[1..])
    else if |t| > 0 && t[0] == '+' then (1, t[1..])
    else (1, t)
  }

  /** The value of the leading run of digits, if there is one. */
  function ReadDigits(u: string): (r: Option<nat>)
    ensures r.None? <==> |u| == 0 || !IsDigit(u[0])
  {
    var n := DigitRun(u);
    if n == 0 then None else Some(DigitsValue(u[..n]))
  }

  function ParseInt(s: string): (r: Option<int>)
  {
    var (sign, u) := SignAndRest(TrimStart(s));
    match ReadDigits(u)
    case None => None
    case Some(v) =>
      var x: int := v;
      Some(if sign < 0 then -x else x)
  }

  /** The digits before a non-digit are read, and nothing after them. */
  lemma {:induction false} ReadDigitsStops(d: string, rest: string)
    requires |d| > 0 && AllDigits(d)
    requires rest == [] || !IsDigit(rest[0])
    ensures ReadDigits(d + rest) == Some(DigitsValue(d))
  {
    DigitRunStops(d, rest);
    assert (d + rest)[..|d|] == d;
  }

  /** `parseInt` is NaN exactly when no digit follows the leading white space
      and the optional sign. */
  lemma {:induction false} ParseIntNaN(s: string)
    ensures ParseInt(s).None? <==>
              var u := SignAndRest(TrimStart(s)).1; |u| == 0 || !IsDigit(u[0])
  {
  }

  /** Reading a decimal rendering back gives the number. */
  lemma {:induction false} ParseIntOfDecimal(n: nat)
    ensures ParseInt(NatToString(n)) == Some(n)
  {
    ParseIntOfDigits(NatToString(n));
  }

  /** Reading any decimal rendering back, with its sign, gives the
      integer. */
  lemma {:induction false} ParseIntOfInt(i: int)
    ensures ParseInt(IntToString(i)) == Some(i)
  {
    if i >= 0 {
      ParseIntOfDecimal(i);
    } else {
      NegativeRendering(i);
    }
  }

  lemma {:induction false} NegativeRendering(i: int)
    requires i < 0
    ensures ParseInt(IntToString(i)) == Some(i)
  {
    var s := IntToString(i);
    var d := NatToString(-i);
    assert s[1..] == d && DigitsValue(d) == -i;
    ParseIntNegative(s);
  }

  /** A minus sign followed by digits reads as the negated number. */
  lemma {:induction false} ParseIntNegative(s: string)
    requires |s| > 1 && s[0] == '-' && AllDigits(s[1..])
    ensures ParseInt(s) == Some(-(DigitsValue(s[1..]) as int))
  {
    DigitsAlone(s[1..]);
    MinusRead(s);
  }

  lemma {:induction false} DigitsAlone(d: string)
    requires |d| > 0 && AllDigits(d)
    ensures ReadDigits(d) == Some(DigitsValue(d))
  {
    DigitRunAll(d);
    assert d[..|d|] == d;
  }

  /** A run of digits on its own reads as its value. */
  lemma {:induction false} ParseIntOfDigits(d: string)
    requires |d| > 0 && AllDigits(d)
    ensures ParseInt(d) == Some(DigitsValue(d))
  {
    DigitKept(d);
    DigitsAlone(d);
    ParseIntFrom(d, 1, d, DigitsValue(d));
  }

  /** How `parseInt` puts its three steps together. */
  lemma {:induction false} ParseIntFrom(s: string, sign: int, u: string, v: nat)
    requires SignAndRest(TrimStart(s)) == (sign, u)
    requires ReadDigits(u) == Some(v)
    ensures ParseInt(s) == Some(if sign < 0 then -(v as int) else v)
  {
  }

  lemma {:induction false} MinusRead(s: string)
    requires |s| > 0 && s[0] == '-' && ReadDigits(s[1..]).Some?
    ensures ParseInt(s) == Some(-(ReadDigits(s[1..]).value as int))
  {
    MinusKept(s);
  }

  lemma {:induction false} MinusKept(s: string)
    requires |s| > 0 && s[0] == '-'
    ensures SignAndRest(TrimStart(s)) == (-1, s[1..])
  {
    TrimStartKeeps(s);
  }

  /** Text after the digits does not change what `parseInt` reads:
      `parseInt("12abc") == 12`. */
  lemma {:induction false} ParseIntPrefix(w: string, d: string, rest: string)
    requires AllSpace(w) && |d| > 0 && AllDigits(d)
    requires rest == [] || !IsDigit(rest[0])
    ensures ParseInt(w + d + rest) == Some(DigitsValue(d))
  {
    DigitsStart(w, d, rest);
    ReadDigitsStops(d, rest);
    ParseIntFrom(w + d + rest, 1, d + rest, DigitsValue(d));
  }

  /** A decimal rendering followed by text that does not start with a
      digit reads as the number. */
  lemma {:induction false} ParseIntLeading(n: nat, rest: string)
    requires rest == [] || !IsDigit(rest[0])
    ensures ParseInt(NatToString(n) + rest) == Some(n)
  {
    ParseIntDigits(NatToString(n), rest);
  }

  lemma {:induction false} ParseIntDigits(d: string, rest: string)
    requires |d| > 0 && AllDigits(d)
    requires rest == [] || !IsDigit(rest[0])
    ensures ParseInt(d + rest) == Some(DigitsValue(d))
  {
    var v := d + rest;
    DigitKept(v);
    ReadDigitsStops(d, rest);
    ParseIntFrom(v, 1, v, DigitsValue(d));
  }

  /** Text that starts with a digit is read as it stands. */
  lemma {:induction false} DigitKept(v: string)
    requires |v| > 0 && IsDigit(v[0])
    ensures SignAndRest(TrimStart(v)) == (1, v)
  {
    TrimStartKeeps(v);
  }

  /** White space before a digit is skipped and no sign is read. */
  lemma {:induction false} DigitsStart(w: string, d: string, rest: string)
    requires AllSpace(w) && |d| > 0 && AllDigits(d)
    ensures SignAndRest(TrimStart(w + d + rest)) == (1, d + rest)
  {
    var v := d + rest;
    assert v[0] == d[0] && IsDigit(d[0]);
    assert w + d + rest == w + v;
    TrimStartSpaces(w, v);
  }

  lemma {:induction false} DigitRunAll(s: string)
    requires AllDigits(s)
    ensures DigitRun(s) == |s|
    decreases |s|
  {
    if |s| > 0 { DigitRunAll(s[1..]); }
  }

  lemma {:induction false} DigitRunStops(d: string, rest: string)
    requires AllDigits(d)
    requires rest == [] || !IsDigit(rest[0])
    ensures DigitRun(d + rest) == |d|
    decreases |d|
  {
    if |d| > 0 {
      assert (d + rest)[1..] == d[1..] + rest;
      DigitRunStops(d[1..], rest);
    } else {
      assert d + rest == rest;
    }
  }

  lemma {:induction false} TrimStartSpaces(w: string, v: string)
    requires AllSpace(w)
    requires v == [] || !IsSpace(v[0])
    ensures TrimStart(w + v) == v
    decreases |w|
  {
    if |w| > 0 {
      assert (w + v)[1..] == w[1..] + v;
      TrimStartSpaces(w[1..], v);
    } else {
      assert w + v == v;
    }
  }
}
