/** The per-connection stream framer (`RequestBuffer`,
    src/http/buffer/request-buffer.ts). It accumulates the bytes of a
    connection and, on every feed, re-derives its framing mode from the
    buffer's prefix: HTTP framing (a header block ended by CRLF CRLF, then
    Content-Length body bytes, loosely after sections 2.1 and 6.3 of
    RFC 9112) when the buffer starts with a method token and white space,
    and line framing on LF otherwise. */
module RequestBuffer {
  import opened Wrappers
  import opened Text
  import opened Consts
  import UriDecode

  newtype byte = b: int | 0 <= b < 256

  const LF: byte := 0x0A

  /** CRLF CRLF: the end of the header block. */
  const HeaderEnd: seq<byte> := [0x0D, 0x0A, 0x0D, 0x0A]

  /** The bytes of an ASCII string. */
  function Ascii(s: string): (bs: seq<byte>)
    requires forall i | 0 <= i < |s| :: s[i] as int < 128
    ensures |bs| == |s|
    ensures forall i | 0 <= i < |s| :: bs[i] as int == s[i] as int
  {
    seq(|s|, i requires 0 <= i < |s| => s[i] as int as byte)
  }

  /** Byte-for-character decoding. It agrees with UTF-8 decoding on ASCII,
      which is all the parsers downstream look at. */
  function Latin1(bs: seq<byte>): (s: string)
    ensures |s| == |bs|
    ensures forall i | 0 <= i < |bs| :: s[i] as int == bs[i] as int
  {
    seq(|bs|, i requires 0 <= i < |bs| => bs[i] as int as char)
  }

  /** The UTF-8 encoding of one character, as bytes. */
  function Utf8Bytes(c: char): (bs: seq<byte>)
    ensures |bs| == Utf8Width(c)
  {
    var os := UriDecode.Utf8Octets(c);
    seq(|os|, k requires 0 <= k < |os| => os[k] as byte)
  }

  /** The framer's state: the bytes received and not yet consumed. */
  datatype Buffer = Buffer(bytes: seq<byte>)

  const Empty: Buffer := Buffer([])

  /** `getSize`. */
  function Size(b: Buffer): nat {
    |b.bytes|
  }

  /** `reset`: drops every buffered byte. */
  function Reset(b: Buffer): (r: Buffer)
    ensures Size(r) == 0
  {
    Empty
  }

  // ---------------------------------------------------------------------
  // Mode selection
  // ---------------------------------------------------------------------

  /** The width of the UTF-8 encoding of a white-space character (`\s`)
      that starts at index `i`, or 0 when none does. */
  function SpaceWidth(buf: seq<byte>, i: nat): (n: nat)
    ensures n <= 3 && (n > 0 ==> i + n <= |buf|)
  {
    if i >= |buf| then 0
    else
      var b := buf[i];
      if b == 0x09 || b == 0x0A || b == 0x0B || b == 0x0C || b == 0x0D || b == 0x20 then 1
      else if b == 0xC2 && i + 1 < |buf| && buf[i + 1] == 0xA0 then 2
      else if i + 2 < |buf| then
        var b1 := buf[i + 1];
        var b2 := buf[i + 2];
        if || (b == 0xE1 && b1 == 0x9A && b2 == 0x80)
           || (b == 0xE2 && b1 == 0x80 && (0x80 <= b2 <= 0x8A || b2 == 0xA8 || b2 == 0xA9 || b2 == 0xAF))
           || (b == 0xE2 && b1 == 0x81 && b2 == 0x9F)
           || (b == 0xE3 && b1 == 0x80 && b2 == 0x80)
           || (b == 0xEF && b1 == 0xBB && b2 == 0xBF)
        then 3
        else 0
      else 0
  }

  /** The bytes of a method token. */
  function MethodBytes(m: Method): (bs: seq<byte>)
    ensures 3 <= |bs| <= 7
    ensures forall k | 0 <= k < |bs| :: 0x41 <= bs[k] <= 0x5A
  {
    Ascii(MethodName(m))
  }

  /** The position of a method in `AllMethods`. */
  function MethodIndex(m: Method): (k: nat)
    ensures k < |AllMethods| && AllMethods[k] == m
  {
    match m
    case GET => 0
    case POST => 1
    case PUT => 2
    case DELETE => 3
    case PATCH => 4
    case OPTIONS => 5
    case HEAD => 6
  }

  /** `/^(GET|POST|PUT|DELETE|PATCH|OPTIONS|HEAD)\s/`: the buffer starts,
      case-sensitively, with a method token followed by white space. */
  predicate IsHttpMode(buf: seq<byte>) {
    exists k | 0 <= k < |AllMethods| ::
      StartsWith(buf, MethodBytes(AllMethods[k])) && SpaceWidth(buf, |MethodBytes(AllMethods[k])|) > 0
  }

  // ---------------------------------------------------------------------
  // The Content-Length scan: /content-length:\s*(\d+)/i
  // ---------------------------------------------------------------------

  const ContentLengthName: seq<byte> := Ascii("content-length:")

  function LowerByte(b: byte): byte {
    if 0x41 <= b <= 0x5A then b + 32 else b
  }

  predicate IsDigitByte(b: byte) {
    0x30 <= b <= 0x39
  }

  /** `content-length:` in any letter case at index `p`. */
  predicate NameAt(h: seq<byte>, p: nat) {
    p + |ContentLengthName| <= |h|
    && forall j | 0 <= j < |ContentLengthName| :: LowerByte(h[p + j]) == ContentLengthName[j]
  }

  /** The end of the run of white space that starts at `q` (`\s*`). */
  function SkipSpace(h: seq<byte>, q: nat): (r: nat)
    requires q <= |h|
    ensures q <= r <= |h|
    ensures SpaceWidth(h, r) == 0
    decreases |h| - q
  {
    var w := SpaceWidth(h, q);
    if w == 0 then q else SkipSpace(h, q + w)
  }

  /** The length of the run of ASCII digits that starts at `q` (`\d+`). */
  function DigitCount(h: seq<byte>, q: nat): (n: nat)
    requires q <= |h|
    ensures q + n <= |h|
    ensures forall k | q <= k < q + n :: IsDigitByte(h[k])
    ensures q + n < |h| ==> !IsDigitByte(h[q + n])
    decreases |h| - q
  {
    if q < |h| && IsDigitByte(h[q]) then 1 + DigitCount(h, q + 1) else 0
  }

  /** The regular expression matches at index `p`. */
  predicate MatchAt(h: seq<byte>, p: nat) {
    NameAt(h, p) && DigitCount(h, SkipSpace(h, p + |ContentLengthName|)) > 0
  }

  /** The digits captured by a match at `p`. */
  function CapturedDigits(h: seq<byte>, p: nat): (d: string)
    requires NameAt(h, p)
    ensures AllDigits(d)
  {
    var q := SkipSpace(h, p + |ContentLengthName|);
    Latin1(h[q..q + DigitCount(h, q)])
  }

  /** The leftmost match at or after `from`. */
  function FindMatch(h: seq<byte>, from: nat): (r: Option<nat>)
    ensures r.Some? ==> from <= r.value && MatchAt(h, r.value)
    ensures forall p | from <= p && (r.None? || p < r.value) :: !MatchAt(h, p)
    decreases |h| - from
  {
    if from + |ContentLengthName| > |h| then None
    else if MatchAt(h, from) then Some(from)
    else FindMatch(h, from + 1)
  }

  /** The Content-Length the framer waits for: `parseInt` of the digits of
      the leftmost match in the header block, if there is one. */
  function ContentLength(h: seq<byte>): Option<nat> {
    match FindMatch(h, 0)
    case None => None
    case Some(p) => Some(DigitsValue(CapturedDigits(h, p)))
  }

  /** The framer waits for a body exactly when the expression matches the
      header block, and then for the value of the leftmost match. */
  lemma {:induction false} ContentLengthLeftmost(h: seq<byte>)
    ensures ContentLength(h).None? <==> forall p: nat :: !MatchAt(h, p)
    ensures ContentLength(h).Some? ==>
              exists p: nat :: && MatchAt(h, p)
                               && DigitsValue(CapturedDigits(h, p)) == ContentLength(h).value
                               && forall p': nat | p' < p :: !MatchAt(h, p')
  {
  }

  // ---------------------------------------------------------------------
  // Framing
  // ---------------------------------------------------------------------

  /** A complete message and the number of buffered bytes it uses up. */
  datatype Frame = Frame(message: seq<byte>, consumed: nat)

  /** A frame is the front of the buffer, optionally followed by one LF. */
  predicate WellFramed(buf: seq<byte>, f: Frame) {
    && |f.message| <= f.consumed <= |buf|
    && f.message == buf[..|f.message|]
    && (f.consumed == |f.message| || (f.consumed == |f.message| + 1 && buf[|f.message|] == LF))
  }

  /** The message `buf[..end]`, also consuming the byte after it when that
      byte is LF. */
  function TakeMessage(buf: seq<byte>, end: nat): (f: Frame)
    requires end <= |buf|
    ensures WellFramed(buf, f) && f.message == buf[..end]
  {
    Frame(buf[..end], if end < |buf| && buf[end] == LF then end + 1 else end)
  }

  /** `parsePlainTextMessage`: everything before the first LF, which is
      consumed with it. */
  function ExtractPlain(buf: seq<byte>): (r: Option<Frame>)
    ensures r.Some? ==> WellFramed(buf, r.value)
  {
    match IndexOf(buf, [LF])
    case None => None
    case Some(i) => Some(Frame(buf[..i], i + 1))
  }

  /** `parseHTTPMessage`: the header block through CRLF CRLF, then
      `parseHTTPWithBody` or `parseHTTPWithoutBody`. */
  function ExtractHttp(buf: seq<byte>): (r: Option<Frame>)
    ensures r.Some? ==> WellFramed(buf, r.value)
  {
    match IndexOf(buf, HeaderEnd)
    case None => None
    case Some(i) =>
      var headersEnd := i + |HeaderEnd|;
      match ContentLength(buf[..headersEnd])
      case None => Some(TakeMessage(buf, headersEnd))
      case Some(n) =>
        if |buf| < headersEnd + n then None
        else Some(TakeMessage(buf, headersEnd + n))
  }

  function Extract(buf: seq<byte>): (r: Option<Frame>)
    ensures r.Some? ==> WellFramed(buf, r.value)
  {
    if IsHttpMode(buf) then ExtractHttp(buf) else ExtractPlain(buf)
  }

  /** What a feed returns: the new state and a message, if one completed. */
  datatype Fed = Fed(buffer: Buffer, message: Option<seq<byte>>)

  /** `feedBuffer`. No byte is lost or reordered: without a message the
      chunk is appended; with one, the old bytes and the chunk are exactly
      the message, at most one LF, and what stays buffered. */
  function Feed(b: Buffer, chunk: seq<byte>): (r: Fed)
    ensures r.message.None? ==> r.buffer.bytes == b.bytes + chunk
    ensures r.message.None? ==> Size(r.buffer) == Size(b) + |chunk|
    ensures r.message.Some? ==>
              || b.bytes + chunk == r.message.value + r.buffer.bytes
              || b.bytes + chunk == r.message.value + [LF] + r.buffer.bytes
  {
    var buf := b.bytes + chunk;
    match Extract(buf)
    case None => Fed(Buffer(buf), None)
    case Some(f) =>
      FrameSplit(buf, f);
      Fed(Buffer(buf[f.consumed..]), Some(f.message))
  }

  /** A framed buffer is the message, at most one LF, and the rest. */
  lemma {:induction false} FrameSplit(buf: seq<byte>, f: Frame)
    requires WellFramed(buf, f)
    ensures || buf == f.message + buf[f.consumed..]
            || buf == f.message + [LF] + buf[f.consumed..]
  {
    assert buf == buf[..|f.message|] + buf[|f.message|..f.consumed] + buf[f.consumed..];
    if f.consumed > |f.message| {
      assert buf[|f.message|..f.consumed] == [LF];
    }
  }

  // ---------------------------------------------------------------------
  // Properties of each mode
  // ---------------------------------------------------------------------

  /** Line framing: a message completes exactly when the buffer holds an
      LF; it is the text before the first LF, holds no LF, and only that LF
      is dropped with it. */
  lemma {:induction false} PlainTextFraming(b: Buffer, chunk: seq<byte>)
    requires !IsHttpMode(b.bytes + chunk)
    ensures var buf := b.bytes + chunk; var r := Feed(b, chunk);
            && (r.message.Some? <==> LF in buf)
            && (r.message.Some? ==>
                  var i := |r.message.value|;
                  && i < |buf| && buf[i] == LF
                  && LF !in r.message.value
                  && r.message.value == buf[..i]
                  && r.buffer.bytes == buf[i + 1..])
  {
    var buf := b.bytes + chunk;
    match IndexOf(buf, [LF])
    case None =>
      forall k | 0 <= k < |buf| ensures buf[k] != LF {
        assert !OccursAt(buf, [LF], k);
        assert buf[k..k + 1] == [buf[k]];
      }
    case Some(i) =>
      assert buf[i..i + 1] == [LF];
      forall k | 0 <= k < i ensures buf[k] != LF {
        assert !OccursAt(buf, [LF], k);
        assert buf[k..k + 1] == [buf[k]];
      }
  }

  /** HTTP framing without a Content-Length match: nothing completes until
      CRLF CRLF arrives; then the message is the buffer through the first
      CRLF CRLF, and one LF right after it is consumed too. */
  lemma {:induction false} HttpFramingWithoutLength(b: Buffer, chunk: seq<byte>)
    requires IsHttpMode(b.bytes + chunk)
    ensures var buf := b.bytes + chunk; var r := Feed(b, chunk);
            match IndexOf(buf, HeaderEnd)
            case None => r.message.None?
            case Some(i) =>
              ContentLength(buf[..i + 4]).None? ==>
                && r.message == Some(buf[..i + 4])
                && r.buffer.bytes == (if i + 4 < |buf| && buf[i + 4] == LF then buf[i + 5..] else buf[i + 4..])
  {
  }

  /** HTTP framing with Content-Length N: nothing completes while fewer than
      headersEnd + N bytes are buffered; then the message is exactly the
      first headersEnd + N bytes, one LF right after it is consumed, and
      every later byte stays buffered. */
  lemma {:induction false} HttpFramingWithLength(b: Buffer, chunk: seq<byte>, i: nat, n: nat)
    requires IsHttpMode(b.bytes + chunk)
    requires IndexOf(b.bytes + chunk, HeaderEnd) == Some(i)
    requires ContentLength((b.bytes + chunk)[..i + 4]) == Some(n)
    ensures var buf := b.bytes + chunk; var r := Feed(b, chunk); var end := i + 4 + n;
            && (r.message.None? <==> |buf| < end)
            && (r.message.Some? ==>
                  && r.message.value == buf[..end]
                  && |r.message.value| == end
                  && r.buffer.bytes == (if end < |buf| && buf[end] == LF then buf[end + 1..] else buf[end..]))
  {
    FeedUnfold(b, chunk);
    HttpExtractWithLength(b.bytes + chunk, i, n);
  }

  /** `Feed` in terms of `Extract`. */
  lemma {:induction false} FeedUnfold(b: Buffer, chunk: seq<byte>)
    ensures var buf := b.bytes + chunk; var r := Feed(b, chunk);
            match Extract(buf)
            case None => r == Fed(Buffer(buf), None)
            case Some(f) => r == Fed(Buffer(buf[f.consumed..]), Some(f.message))
  {
  }

  lemma {:induction false} HttpExtractWithLength(buf: seq<byte>, i: nat, n: nat)
    requires IsHttpMode(buf)
    requires IndexOf(buf, HeaderEnd) == Some(i)
    requires ContentLength(buf[..i + 4]) == Some(n)
    ensures var end := i + 4 + n;
            && (Extract(buf).None? <==> |buf| < end)
            && (Extract(buf).Some? ==>
                  && Extract(buf).value.message == buf[..end]
                  && buf[Extract(buf).value.consumed..] ==
                       (if end < |buf| && buf[end] == LF then buf[end + 1..] else buf[end..]))
  {
  }

  /** In either HTTP case, the byte after the message is consumed exactly
      when it is LF; any other byte stays at the front of the buffer. */
  lemma {:induction false} HttpTrailingLineFeed(b: Buffer, chunk: seq<byte>)
    requires IsHttpMode(b.bytes + chunk)
    requires Feed(b, chunk).message.Some?
    ensures var buf := b.bytes + chunk; var r := Feed(b, chunk); var end := |r.message.value|;
            && (end < |buf| && buf[end] == LF ==> r.buffer.bytes == buf[end + 1..])
            && (end < |buf| && buf[end] != LF ==> r.buffer.bytes == buf[end..] && r.buffer.bytes[0] == buf[end])
            && (end == |buf| ==> r.buffer.bytes == [])
  {
    var buf := b.bytes + chunk;
    FeedUnfold(b, chunk);
    ExtractHttpTakes(buf);
  }

  /** In HTTP mode every frame is a `TakeMessage` of its own length. */
  lemma {:induction false} ExtractHttpTakes(buf: seq<byte>)
    requires ExtractHttp(buf).Some?
    ensures var f := ExtractHttp(buf).value;
            |f.message| <= |buf| && f == TakeMessage(buf, |f.message|)
  {
  }

  /** After `reset` a feed behaves exactly as on a fresh buffer. */
  lemma {:induction false} ResetForgets(b: Buffer, chunk: seq<byte>)
    ensures Size(Reset(b)) == 0
    ensures Feed(Reset(b), chunk) == Feed(Empty, chunk)
  {
  }

  // ---------------------------------------------------------------------
  // The mode test is the regular expression on the decoded text
  // ---------------------------------------------------------------------

  /** Every byte pattern `SpaceWidth` accepts is the UTF-8 encoding of a
      white-space character. */
  lemma {:induction false} SpaceWidthSound(buf: seq<byte>, i: nat)
    requires SpaceWidth(buf, i) > 0
    ensures exists c :: IsSpace(c) && buf[i..i + SpaceWidth(buf, i)] == Utf8Bytes(c)
  {
    var w := SpaceWidth(buf, i);
    var b := buf[i];
    if w == 1 {
      var c := b as int as char;
      assert Utf8Bytes(c) == [b];
      assert buf[i..i + 1] == [b];
    } else if w == 2 {
      var c := 0xA0 as char;
      assert Utf8Bytes(c) == [0xC2, 0xA0];
      assert buf[i..i + 2] == [buf[i], buf[i + 1]];
    } else {
      var b1 := buf[i + 1];
      var b2 := buf[i + 2];
      assert buf[i..i + 3] == [b, b1, b2];
      var cp :=
        if b == 0xE1 then 0x1680
        else if b == 0xE2 && b1 == 0x80 then 0x2000 + (b2 as int - 0x80)
        else if b == 0xE2 then 0x205F
        else if b == 0xE3 then 0x3000
        else 0xFEFF;
      var c := cp as char;
      assert IsSpace(c);
      assert Utf8Bytes(c) == [b, b1, b2];
    }
  }

  /** Conversely, `SpaceWidth` recognises the UTF-8 encoding of every
      white-space character. */
  lemma {:induction false} SpaceWidthComplete(buf: seq<byte>, i: nat, c: char)
    requires IsSpace(c)
    requires i + |Utf8Bytes(c)| <= |buf| && buf[i..i + |Utf8Bytes(c)|] == Utf8Bytes(c)
    ensures SpaceWidth(buf, i) == |Utf8Bytes(c)|
  {
    var e := Utf8Bytes(c);
    var n := c as int;
    assert buf[i] == e[0] by { assert buf[i..i + |e|][0] == buf[i]; }
    if n < 0x80 {
      assert e == [n as byte];
    } else if n < 0x800 {
      assert e == [0xC2, 0xA0];
      assert buf[i + 1] == e[1] by { assert buf[i..i + |e|][1] == buf[i + 1]; }
    } else {
      assert |e| == 3;
      assert buf[i + 1] == e[1] by { assert buf[i..i + |e|][1] == buf[i + 1]; }
      assert buf[i + 2] == e[2] by { assert buf[i..i + |e|][2] == buf[i + 2]; }
    }
  }

  /** The byte-level mode test says what the source's regular expression
      says about the decoded text: a method token, then the UTF-8 encoding
      of a white-space character. */
  lemma {:induction false} HttpModeMeaning(buf: seq<byte>)
    ensures IsHttpMode(buf) <==>
              exists m: Method, c: char ::
                IsSpace(c) && StartsWith(buf, MethodBytes(m) + Utf8Bytes(c))
  {
    if IsHttpMode(buf) {
      HttpModeHasToken(buf);
    }
    if exists m: Method, c: char :: IsSpace(c) && StartsWith(buf, MethodBytes(m) + Utf8Bytes(c)) {
      var m: Method, c: char :| IsSpace(c) && StartsWith(buf, MethodBytes(m) + Utf8Bytes(c));
      TokenGivesHttpMode(buf, m, c);
    }
  }

  lemma {:induction false} HttpModeHasToken(buf: seq<byte>)
    requires IsHttpMode(buf)
    ensures exists m: Method, c: char :: IsSpace(c) && StartsWith(buf, MethodBytes(m) + Utf8Bytes(c))
  {
    var k :| 0 <= k < |AllMethods| && StartsWith(buf, MethodBytes(AllMethods[k]))
             && SpaceWidth(buf, |MethodBytes(AllMethods[k])|) > 0;
    var m := AllMethods[k];
    var mb := MethodBytes(m);
    var w := SpaceWidth(buf, |mb|);
    SpaceWidthSound(buf, |mb|);
    var c :| IsSpace(c) && buf[|mb|..|mb| + w] == Utf8Bytes(c);
    StartsWithBoth(buf, mb, Utf8Bytes(c));
  }

  lemma {:induction false} StartsWithBoth(buf: seq<byte>, a: seq<byte>, b: seq<byte>)
    requires StartsWith(buf, a)
    requires |a| + |b| <= |buf| && buf[|a|..|a| + |b|] == b
    ensures StartsWith(buf, a + b)
  {
    assert buf[..|a| + |b|] == buf[..|a|] + buf[|a|..|a| + |b|];
  }

  lemma {:induction false} TokenGivesHttpMode(buf: seq<byte>, m: Method, c: char)
    requires IsSpace(c) && StartsWith(buf, MethodBytes(m) + Utf8Bytes(c))
    ensures IsHttpMode(buf)
  {
    var mb := MethodBytes(m);
    var e := Utf8Bytes(c);
    assert buf[..|mb|] == (mb + e)[..|mb|] == mb;
    assert buf[|mb|..|mb| + |e|] == (mb + e)[|mb|..] == e;
    SpaceWidthComplete(buf, |mb|, c);
    var k := MethodIndex(m);
    assert StartsWith(buf, MethodBytes(AllMethods[k]));
  }

  // ---------------------------------------------------------------------
  // Chunking does not matter
  // ---------------------------------------------------------------------

  /** White space found in a prefix is found in any extension. */
  lemma {:induction false} SpaceWidthExtend(p: seq<byte>, x: seq<byte>, i: nat)
    requires SpaceWidth(p, i) > 0
    ensures SpaceWidth(p + x, i) == SpaceWidth(p, i)
  {
    var q := p + x;
    assert q[i] == p[i];
    if i + 1 < |p| { assert q[i + 1] == p[i + 1]; }
    if i + 2 < |p| { assert q[i + 2] == p[i + 2]; }
  }

  /** White space found in an extension lies in the prefix when the prefix
      is long enough to hold it. */
  lemma {:induction false} SpaceWidthShrink(p: seq<byte>, x: seq<byte>, i: nat)
    requires SpaceWidth(p + x, i) > 0
    requires i + SpaceWidth(p + x, i) <= |p|
    ensures SpaceWidth(p, i) == SpaceWidth(p + x, i)
  {
    var q := p + x;
    assert q[i] == p[i];
    if i + 1 < |p| { assert q[i + 1] == p[i + 1]; }
    if i + 2 < |p| { assert q[i + 2] == p[i + 2]; }
  }

  /** Only the last byte of a white-space encoding can be ASCII. */
  lemma {:induction false} SpaceWidthLeadBytes(buf: seq<byte>, i: nat, k: nat)
    requires SpaceWidth(buf, i) > 1
    requires i <= k < i + SpaceWidth(buf, i) - 1
    ensures buf[k] >= 0x80
  {
  }

  /** A buffer that is not yet in HTTP mode but grows into it holds no LF:
      it is a proper prefix of a method token and its white space. */
  lemma {:induction false} GrowingIntoHttpMode(p: seq<byte>, x: seq<byte>)
    requires !IsHttpMode(p) && IsHttpMode(p + x)
    ensures LF !in p
  {
    var q := p + x;
    var k :| 0 <= k < |AllMethods| && StartsWith(q, MethodBytes(AllMethods[k]))
             && SpaceWidth(q, |MethodBytes(AllMethods[k])|) > 0;
    var mb := MethodBytes(AllMethods[k]);
    var w := SpaceWidth(q, |mb|);
    if |mb| + w <= |p| {
      assert p[..|mb|] == q[..|mb|];
      SpaceWidthShrink(p, x, |mb|);
      assert false;
    }
    forall j | 0 <= j < |p| ensures p[j] != LF {
      assert p[j] == q[j];
      if j < |mb| {
        assert q[j] == q[..|mb|][j] == mb[j];
      } else {
        SpaceWidthLeadBytes(q, |mb|, j);
      }
    }
  }

  /** HTTP mode survives growth of the buffer. */
  lemma {:induction false} HttpModeExtend(p: seq<byte>, x: seq<byte>)
    requires IsHttpMode(p)
    ensures IsHttpMode(p + x)
  {
    var k :| 0 <= k < |AllMethods| && StartsWith(p, MethodBytes(AllMethods[k]))
             && SpaceWidth(p, |MethodBytes(AllMethods[k])|) > 0;
    var mb := MethodBytes(AllMethods[k]);
    SpaceWidthExtend(p, x, |mb|);
    assert (p + x)[..|mb|] == p[..|mb|];
  }

  lemma {:induction false} ExtractHttpMonotone(p: seq<byte>, x: seq<byte>)
    requires ExtractHttp(p).Some?
    ensures ExtractHttp(p + x).Some?
    ensures ExtractHttp(p + x).value.message == ExtractHttp(p).value.message
  {
    var q := p + x;
    var i := IndexOf(p, HeaderEnd).value;
    IndexOfExtend(p, HeaderEnd, x);
    assert q[..i + 4] == p[..i + 4];
    match ContentLength(p[..i + 4])
    case None =>
    case Some(n) =>
      assert q[..i + 4 + n] == p[..i + 4 + n];
  }

  lemma {:induction false} ExtractPlainMonotone(p: seq<byte>, x: seq<byte>)
    requires ExtractPlain(p).Some?
    ensures ExtractPlain(p + x).Some?
    ensures ExtractPlain(p + x).value.message == ExtractPlain(p).value.message
  {
    var i := IndexOf(p, [LF]).value;
    IndexOfExtend(p, [LF], x);
    assert (p + x)[..i] == p[..i];
  }

  /** Once a prefix of the stream holds a complete message, every longer
      prefix yields the same message. */
  lemma {:induction false} ExtractMonotone(p: seq<byte>, x: seq<byte>)
    requires Extract(p).Some?
    ensures Extract(p + x).Some?
    ensures Extract(p + x).value.message == Extract(p).value.message
  {
    if IsHttpMode(p) {
      HttpModeExtend(p, x);
      ExtractHttpMonotone(p, x);
    } else {
      var i := IndexOf(p, [LF]).value;
      assert p[i..i + 1] == [LF];
      assert p[i] == LF;
      if IsHttpMode(p + x) {
        GrowingIntoHttpMode(p, x);
      }
      ExtractPlainMonotone(p, x);
    }
  }

  /** The concatenation of a sequence of chunks. */
  function Concat(chunks: seq<seq<byte>>): seq<byte> {
    if |chunks| == 0 then [] else chunks[0] + Concat(chunks[1..])
  }

  /** The first message a sequence of feeds returns, starting from `b`. */
  function FirstMessage(b: Buffer, chunks: seq<seq<byte>>): Option<seq<byte>>
    decreases |chunks|
  {
    if |chunks| == 0 then None
    else
      var r := Feed(b, chunks[0]);
      if r.message.Some? then r.message else FirstMessage(r.buffer, chunks[1..])
  }

  function MessageOf(f: Option<Frame>): Option<seq<byte>> {
    match f
    case None => None
    case Some(fr) => Some(fr.message)
  }

  lemma {:induction false} FirstMessageFrom(b: Buffer, chunks: seq<seq<byte>>)
    requires Extract(b.bytes).None?
    ensures FirstMessage(b, chunks) == MessageOf(Extract(b.bytes + Concat(chunks)))
    decreases |chunks|
  {
    if |chunks| == 0 {
      assert b.bytes + Concat(chunks) == b.bytes;
    } else {
      var buf1 := b.bytes + chunks[0];
      assert b.bytes + Concat(chunks) == buf1 + Concat(chunks[1..]);
      if Extract(buf1).Some? {
        ExtractMonotone(buf1, Concat(chunks[1..]));
      } else {
        FirstMessageFrom(Buffer(buf1), chunks[1..]);
      }
    }
  }

  /** However a stream is cut into chunks, feeding the pieces one by one
      into a fresh buffer returns, at its first message, exactly the message
      that feeding the whole stream at once returns, and neither returns a
      message without the other. */
  lemma {:induction false} ChunkingInvariance(chunks: seq<seq<byte>>)
    ensures FirstMessage(Empty, chunks) == Feed(Empty, Concat(chunks)).message
  {
    assert Extract([]).None? by {
      assert !IsHttpMode([]);
    }
    FirstMessageFrom(Empty, chunks);
    assert Empty.bytes + Concat(chunks) == Concat(chunks);
  }
}
