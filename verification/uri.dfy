/** `decodeURIComponent`, following the Decode operation of ECMAScript
    (section 19.2.6.1.2 of ECMA-262, 13th edition, ECMAScript 2022) with
    an empty reserved set: every `%XY` escape is decoded, escapes of bytes
    above 0x7F must together form one well-formed UTF-8 sequence (section 3
    of RFC 3629), and anything else throws a URIError, modelled as `None`.
    Percent-encoding itself follows section 2.1 of RFC 3986. */
module UriDecode {
  import opened Wrappers
  import opened Text

  predicate IsHexDigit(c: char) {
    '0' <= c <= '9' || 'a' <= c <= 'f' || 'A' <= c <= 'F'
  }

  function HexValue(c: char): (v: nat)
    requires IsHexDigit(c)
    ensures v < 16
  {
    if '0' <= c <= '9' then c as int - '0' as int
    else if 'a' <= c <= 'f' then c as int - 'a' as int + 10
    else c as int - 'A' as int + 10
  }

  /** The octet written by the `%XY` escape that `s` starts with, if it
      starts with one. */
  function EscapedOctet(s: string): (r: Option<nat>)
    ensures r.Some? ==> r.value < 256 && |s| >= 3
  {
    if |s| >= 3 && s[0] == '%' && IsHexDigit(s[1]) && IsHexDigit(s[2]) then
      Some(HexValue(s[1]) * 16 + HexValue(s[2]))
    else None
  }

  /** The number of leading one bits of an octet: 0 for ASCII, 1 for a
      continuation byte, 2 to 4 for the lead byte of a multi-byte sequence,
      and 5 for the bytes UTF-8 never uses. */
  function LeadingOnes(b: nat): (n: nat)
    requires b < 256
    ensures n <= 5
  {
    if b < 0x80 then 0
    else if b < 0xC0 then 1
    else if b < 0xE0 then 2
    else if b < 0xF0 then 3
    else if b < 0xF8 then 4
    else 5
  }

  predicate IsContinuation(b: nat) {
    0x80 <= b < 0xC0
  }

  /** Reads `count` escaped continuation octets from the front of `s`. */
  function Continuations(s: string, count: nat): (r: Option<seq<nat>>)
    ensures r.Some? ==> |r.value| == count && 3 * count <= |s|
    ensures r.Some? ==> forall i | 0 <= i < count :: IsContinuation(r.value[i])
    decreases count
  {
    if count == 0 then Some([])
    else
      match EscapedOctet(s)
      case None => None
      case Some(b) =>
        if !IsContinuation(b) then None
        else
          match Continuations(s[3..], count - 1)
          case None => None
          case Some(rest) => Some([b] + rest)
  }

  /** A Unicode scalar value: what a Dafny `char` can hold. */
  predicate IsScalar(cp: int) {
    0 <= cp < 0xD800 || 0xE000 <= cp < 0x110000
  }

  /** The code point a multi-byte UTF-8 sequence encodes, or `None` when the
      sequence is not a well-formed encoding (an overlong form, a surrogate
      or a value above U+10FFFF). */
  function CodePoint(os: seq<nat>): (r: Option<int>)
    ensures r.Some? ==> IsScalar(r.value) && r.value >= 0x80
    ensures r.Some? ==> 2 <= |os| <= 4 && |os| == Utf8Width(r.value as char)
  {
    if |os| == 2 && 0xC0 <= os[0] < 0xE0 && IsContinuation(os[1]) then
      var cp := (os[0] - 0xC0) * 64 + (os[1] - 0x80);
      if cp >= 0x80 then Some(cp) else None
    else if |os| == 3 && 0xE0 <= os[0] < 0xF0 && IsContinuation(os[1]) && IsContinuation(os[2]) then
      var cp := (os[0] - 0xE0) * 4096 + (os[1] - 0x80) * 64 + (os[2] - 0x80);
      if cp >= 0x800 && !(0xD800 <= cp < 0xE000) then Some(cp) else None
    else if |os| == 4 && 0xF0 <= os[0] < 0xF8 && IsContinuation(os[1]) && IsContinuation(os[2])
            && IsContinuation(os[3]) then
      var cp := (os[0] - 0xF0) * 262144 + (os[1] - 0x80) * 4096 + (os[2] - 0x80) * 64 + (os[3] - 0x80);
      if 0x10000 <= cp < 0x110000 then Some(cp) else None
    else None
  }

  function Prepend(c: char, r: Option<string>): Option<string> {
    match r
    case None => None
    case Some(t) => Some([c] + t)
  }

  /** `decodeURIComponent(s)`; `None` is the URIError it throws. */
  function Decode(s: string): (r: Option<string>)
    decreases |s|
  {
    if |s| == 0 then Some([])
    else if s[0] != '%' then Prepend(s[0], Decode(s[1..]))
    else
      match EscapedOctet(s)
      case None => None
      case Some(b) =>
        var n := LeadingOnes(b);
        if n == 0 then Prepend(b as char, Decode(s[3..]))
        else if n == 1 || n > 4 then None
        else
          match Continuations(s[3..], n - 1)
          case None => None
          case Some(cs) =>
            match CodePoint([b] + cs)
            case None => None
            case Some(cp) => Prepend(cp as char, Decode(s[3 * n..]))
  }

  // ---------------------------------------------------------------------
  // The inverse: percent-encoding every character
  // ---------------------------------------------------------------------

  /** The UTF-8 octets of one character. */
  function Utf8Octets(c: char): (os: seq<nat>)
    ensures |os| == Utf8Width(c)
    ensures forall i | 0 <= i < |os| :: os[i] < 256
  {
    var cp := c as int;
    if cp < 0x80 then [cp]
    else if cp < 0x800 then [0xC0 + cp / 64, 0x80 + cp % 64]
    else if cp < 0x10000 then [0xE0 + cp / 4096, 0x80 + (cp / 64) % 64, 0x80 + cp % 64]
    else [0xF0 + cp / 262144, 0x80 + (cp / 4096) % 64, 0x80 + (cp / 64) % 64, 0x80 + cp % 64]
  }

  function HexDigitChar(v: nat): (c: char)
    requires v < 16
    ensures IsHexDigit(c) && HexValue(c) == v
  {
    if v < 10 then ('0' as int + v) as char else ('A' as int + v - 10) as char
  }

  /** `%XY` for one octet. */
  function EscapeOctet(b: nat): string
    requires b < 256
  {
    ['%', HexDigitChar(b / 16), HexDigitChar(b % 16)]
  }

  function EscapeOctets(os: seq<nat>): (e: string)
    requires forall i | 0 <= i < |os| :: os[i] < 256
    ensures |e| == 3 * |os|
  {
    if |os| == 0 then [] else EscapeOctet(os[0]) + EscapeOctets(os[1..])
  }

  /** Percent-encodes every character of `s` through its UTF-8 octets. */
  function Encode(s: string): string {
    if |s| == 0 then [] else EscapeOctets(Utf8Octets(s[0])) + Encode(s[1..])
  }

  /** The characters percent-encoding produces: `%` and upper-case hex
      digits. */
  predicate IsEscapeChar(c: char) {
    c == '%' || '0' <= c <= '9' || 'A' <= c <= 'F'
  }

  lemma {:induction false} EscapeOctetsChars(os: seq<nat>)
    requires forall i | 0 <= i < |os| :: os[i] < 256
    ensures forall i | 0 <= i < |EscapeOctets(os)| :: IsEscapeChar(EscapeOctets(os)[i])
    decreases |os|
  {
    if |os| > 0 {
      EscapeOctetsChars(os[1..]);
      var e := EscapeOctet(os[0]);
      assert forall i | 0 <= i < 3 :: IsEscapeChar(e[i]);
    }
  }

  /** Percent-encoding leaves only `%` and hex digits, and keeps text
      non-empty. */
  lemma {:induction false} EncodeChars(s: string)
    ensures forall i | 0 <= i < |Encode(s)| :: IsEscapeChar(Encode(s)[i])
    ensures |Encode(s)| >= |s|
    decreases |s|
  {
    if |s| > 0 {
      EncodeChars(s[1..]);
      EscapeOctetsChars(Utf8Octets(s[0]));
    }
  }

  /** Text without `%` decodes to itself. */
  lemma {:induction false} DecodeNoPercent(s: string)
    requires forall i | 0 <= i < |s| :: s[i] != '%'
    ensures Decode(s) == Some(s)
    decreases |s|
  {
    if |s| > 0 {
      DecodeNoPercent(s[1..]);
      assert [s[0]] + s[1..] == s;
    }
  }

  /** An escape of an octet reads back as that octet. */
  lemma {:induction false} EscapeOctetReads(b: nat, rest: string)
    requires b < 256
    ensures EscapedOctet(EscapeOctet(b) + rest) == Some(b)
    ensures (EscapeOctet(b) + rest)[3..] == rest
  {
    var e := EscapeOctet(b) + rest;
    assert e[0] == '%' && e[1] == HexDigitChar(b / 16) && e[2] == HexDigitChar(b % 16);
  }

  /** Decoding the encoding of one character yields that character and
      continues with what follows. */
  lemma {:induction false} DecodeEscapedChar(c: char, rest: string)
    ensures Decode(EscapeOctets(Utf8Octets(c)) + rest) == Prepend(c, Decode(rest))
  {
    var os := Utf8Octets(c);
    var cp := c as int;
    var e := EscapeOctets(os) + rest;
    var tail := EscapeOctets(os[1..]) + rest;
    assert e == EscapeOctet(os[0]) + tail;
    EscapeOctetReads(os[0], tail);
    if |os| == 1 {
      assert tail == rest;
      assert (os[0] as char) == c;
    } else {
      var n := |os|;
      assert LeadingOnes(os[0]) == n;
      ContinuationsRead(os[1..], rest);
      assert e[3 * n..] == rest by {
        assert e[3..] == tail;
        assert tail[3 * (n - 1)..] == rest;
      }
      assert [os[0]] + os[1..] == os;
      Utf8RoundTrip(c);
    }
  }

  /** Escaped continuation octets read back as themselves. */
  lemma {:induction false} ContinuationsRead(os: seq<nat>, rest: string)
    requires forall i | 0 <= i < |os| :: os[i] < 256 && IsContinuation(os[i])
    ensures Continuations(EscapeOctets(os) + rest, |os|) == Some(os)
    ensures (EscapeOctets(os) + rest)[3 * |os|..] == rest
    decreases |os|
  {
    if |os| > 0 {
      var tail := EscapeOctets(os[1..]) + rest;
      assert EscapeOctets(os) + rest == EscapeOctet(os[0]) + tail;
      EscapeOctetReads(os[0], tail);
      ContinuationsRead(os[1..], rest);
      assert [os[0]] + os[1..] == os;
    }
  }

  /** A multi-byte UTF-8 encoding decodes back to its code point. */
  lemma {:induction false} Utf8RoundTrip(c: char)
    requires c as int >= 0x80
    ensures CodePoint(Utf8Octets(c)) == Some(c as int)
  {
    var cp := c as int;
    if cp < 0x800 {
      TwoOctets(cp);
    } else if cp < 0x10000 {
      ThreeOctets(cp);
    } else {
      FourOctets(cp);
    }
  }

  lemma {:induction false} TwoOctets(cp: int)
    requires 0x80 <= cp < 0x800
    ensures CodePoint([0xC0 + cp / 64, 0x80 + cp % 64]) == Some(cp)
  {
    assert cp == (cp / 64) * 64 + cp % 64;
  }

  lemma {:induction false} ThreeOctets(cp: int)
    requires 0x800 <= cp < 0x10000 && IsScalar(cp)
    ensures CodePoint([0xE0 + cp / 4096, 0x80 + (cp / 64) % 64, 0x80 + cp % 64]) == Some(cp)
  {
    assert cp / 64 == (cp / 4096) * 64 + (cp / 64) % 64;
    assert cp == (cp / 64) * 64 + cp % 64;
  }

  lemma {:induction false} FourOctets(cp: int)
    requires 0x10000 <= cp < 0x110000
    ensures CodePoint([0xF0 + cp / 262144, 0x80 + (cp / 4096) % 64, 0x80 + (cp / 64) % 64, 0x80 + cp % 64]) == Some(cp)
  {
    assert cp / 4096 == (cp / 262144) * 64 + (cp / 4096) % 64;
    assert cp / 64 == (cp / 4096) * 64 + (cp / 64) % 64;
    assert cp == (cp / 64) * 64 + cp % 64;
  }

  /** Decoding inverts percent-encoding: `decodeURIComponent` recovers any
      string from the escapes of its UTF-8 octets. */
  lemma {:induction false} DecodeEncode(s: string)
    ensures Decode(Encode(s)) == Some(s)
    decreases |s|
  {
    if |s| > 0 {
      DecodeEncode(s[1..]);
      DecodeEscapedChar(s[0], Encode(s[1..]));
      assert [s[0]] + s[1..] == s;
    }
  }

  /** Malformed escapes throw: a `%` without two hex digits, a stray
      continuation byte, a truncated sequence, an overlong form and an
      encoded surrogate. */
  lemma {:induction false} MalformedEscapes()
    ensures Decode("%").None? && Decode("%4").None? && Decode("%zz").None?
    ensures Decode("%80").None?
    ensures Decode("%C3").None? && Decode("%C3A9").None?
    ensures Decode("%C0%80").None?
    ensures Decode("%ED%A0%80").None?
  {
    var overlong := "%C0%80";
    assert EscapedOctet(overlong) == Some(0xC0);
    var stray := "%80";
    assert EscapedOctet(stray) == Some(0x80);
    assert Continuations(stray[3..], 0) == Some([]);
    assert IsContinuation(0x80);
    assert [0x80] + [] == [0x80];
    assert Continuations(stray, 1) == Some([0x80]);
    var surrogate := "%ED%A0%80";
    var tail := surrogate[3..];
    assert tail == "%A0%80" && tail[3..] == stray;
    assert EscapedOctet(surrogate) == Some(0xED);
    assert EscapedOctet(tail) == Some(0xA0);
    assert IsContinuation(0xA0);
    assert [0xA0] + [0x80] == [0xA0, 0x80];
    assert Continuations(tail, 2) == Some([0xA0, 0x80]);
    assert [0xED] + [0xA0, 0x80] == [0xED, 0xA0, 0x80];
    var bare := "%C3A9";
    assert EscapedOctet(bare) == Some(0xC3);
    assert bare[3..] == "A9";
    assert EscapedOctet("A9").None?;
  }

  /** Well-formed escapes decode: a two-byte sequence and an escaped space. */
  lemma {:induction false} WellFormedEscapes()
    ensures Decode("%C3%A9") == Some("\U{00E9}")
    ensures Decode("a%20b") == Some("a b")
  {
    var e := "%C3%A9";
    var tail := e[3..];
    assert tail == "%A9";
    assert EscapedOctet(e) == Some(0xC3);
    assert EscapedOctet(tail) == Some(0xA9);
    assert Continuations(tail[3..], 0) == Some([]);
    assert IsContinuation(0xA9);
    assert [0xA9] + [] == [0xA9];
    assert Continuations(tail, 1) == Some([0xA9]);
    assert [0xC3] + [0xA9] == [0xC3, 0xA9];
    assert CodePoint([0xC3, 0xA9]) == Some(0xE9);
    assert e[6..] == [];
    assert Decode(e[6..]) == Some([]);
    assert [0xE9 as char] + [] == "\U{00E9}";
    var sp := "a%20b";
    var t1 := sp[1..];
    var t2 := t1[3..];
    assert t1 == "%20b" && t2 == "b";
    assert EscapedOctet(t1) == Some(0x20);
    assert Decode(t2[1..]) == Some([]);
    assert ['b'] + [] == "b";
    assert Decode(t2) == Some("b");
    assert [0x20 as char] + "b" == " b";
    assert Decode(t1) == Some(" b");
    assert ['a'] + " b" == "a b";
  }
}
