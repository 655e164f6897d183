/** `BodyParser` (src/http/parsers/body.ts), together with the
    `key=value&...` decoding it shares with the query-string parser of
    src/http/parsers/http.ts. */
module BodyParser {
  import opened Wrappers
  import opened Text
  import opened Consts
  import opened Types
  import opened JsParseInt
  import UriDecode
  import LastWins

  // ---------------------------------------------------------------------
  // key=value&... decoding
  // ---------------------------------------------------------------------

  /** `s.replace(/\+/g, " ")`. */
  function PlusToSpace(s: string): (r: string)
    ensures |r| == |s|
    ensures forall i | 0 <= i < |s| :: r[i] == (if s[i] == '+' then ' ' else s[i])
  {
    seq(|s|, i requires 0 <= i < |s| => if s[i] == '+' then ' ' else s[i])
  }

  /** `decodeURIComponent`, after turning `+` into a space when
      `plusAsSpace` holds; `None` when it throws. */
  function DecodeComponent(s: string, plusAsSpace: bool): Option<string> {
    UriDecode.Decode(if plusAsSpace then PlusToSpace(s) else s)
  }

  /** One `key=value` piece: the text before the first `=` is the key, the
      text between the first and a second `=` is the value (missing: empty),
      anything after a second `=` is dropped. A piece with an empty key
      writes nothing. The outer `None` is a `decodeURIComponent` that
      throws. */
  function PairEntry(pair: string, plusAsSpace: bool): Option<Option<(string, string)>> {
    var pieces := Split(pair, "=");
    var key := pieces[0];
    var value := if |pieces| > 1 then pieces[1] else "";
    if key == "" then Some(None)
    else
      match DecodeComponent(key, plusAsSpace)
      case None => None
      case Some(k) =>
        match DecodeComponent(value, plusAsSpace)
        case None => None
        case Some(v) => Some(Some((k, v)))
  }

  /** The entries of all pieces in order, or `None` as soon as one throws. */
  function PairEntries(pairs: seq<string>, plusAsSpace: bool): (r: Option<seq<Option<(string, string)>>>)
    ensures r.Some? ==> |r.value| == |pairs|
    ensures r.Some? ==> forall i | 0 <= i < |pairs| :: PairEntry(pairs[i], plusAsSpace) == Some(r.value[i])
    ensures r.None? ==> exists i | 0 <= i < |pairs| :: PairEntry(pairs[i], plusAsSpace).None?
    decreases |pairs|
  {
    if |pairs| == 0 then Some([])
    else
      match PairEntry(pairs[0], plusAsSpace)
      case None => None
      case Some(e) =>
        match PairEntries(pairs[1..], plusAsSpace)
        case None => None
        case Some(es) => Some([e] + es)
  }

  /** The record a `key=value&...` text describes, written in order so that
      a later key wins; `None` when any piece fails to decode. */
  function DecodePairs(s: string, plusAsSpace: bool): Option<map<string, string>> {
    match PairEntries(Split(s, "&"), plusAsSpace)
    case None => None
    case Some(es) => Some(LastWins.Assign(es))
  }

  /** `parseFormUrlEncoded`: `+` is a space; a decoding error gives `null`. */
  function ParseFormUrlEncoded(bodyRaw: string): Option<map<string, string>> {
    DecodePairs(bodyRaw, true)
  }

  /** Percent-encodes a list of fields as `k=v&k=v...`. */
  function EncodePairs(fields: seq<(string, string)>): string {
    Join(seq(|fields|, i requires 0 <= i < |fields| =>
                UriDecode.Encode(fields[i].0) + "=" + UriDecode.Encode(fields[i].1)), "&")
  }

  function AsEntries(fields: seq<(string, string)>): (es: seq<Option<(string, string)>>)
    ensures |es| == |fields| && forall i | 0 <= i < |fields| :: es[i] == Some(fields[i])
  {
    seq(|fields|, i requires 0 <= i < |fields| => Some(fields[i]))
  }

  /** Percent-encoded text holds no `+`, so both decodings read it alike. */
  lemma {:induction false} EncodedPlusFree(s: string)
    ensures PlusToSpace(UriDecode.Encode(s)) == UriDecode.Encode(s)
    ensures forall i | 0 <= i < |UriDecode.Encode(s)| ::
              UriDecode.Encode(s)[i] != '&' && UriDecode.Encode(s)[i] != '='
  {
    UriDecode.EncodeChars(s);
  }

  /** One encoded field reads back as itself. */
  lemma {:induction false} PairEntryEncoded(k: string, v: string, plusAsSpace: bool)
    requires k != ""
    ensures PairEntry(UriDecode.Encode(k) + "=" + UriDecode.Encode(v), plusAsSpace) == Some(Some((k, v)))
  {
    var ek := UriDecode.Encode(k);
    var ev := UriDecode.Encode(v);
    EncodedPlusFree(k);
    EncodedPlusFree(v);
    UriDecode.EncodeChars(k);
    SplitJoin([ek, ev], '=');
    assert Join([ek, ev], "=") == ek + "=" + ev by {
      assert [ek, ev][1..] == [ev];
    }
    UriDecode.DecodeEncode(k);
    UriDecode.DecodeEncode(v);
  }

  /** Encoding a list of fields with non-empty keys and decoding it again
      gives the record of those fields, a later key winning, in either
      decoding mode. The empty list encodes as the empty text, which gives
      the empty record. */
  lemma {:induction false} DecodeEncodePairs(fields: seq<(string, string)>, plusAsSpace: bool)
    requires forall i | 0 <= i < |fields| :: fields[i].0 != ""
    ensures DecodePairs(EncodePairs(fields), plusAsSpace) == Some(LastWins.Assign(AsEntries(fields)))
  {
    if |fields| == 0 {
      assert EncodePairs(fields) == "";
      EmptyPairs(plusAsSpace);
      return;
    }
    var parts := seq(|fields|, i requires 0 <= i < |fields| =>
                       UriDecode.Encode(fields[i].0) + "=" + UriDecode.Encode(fields[i].1));
    forall i, j | 0 <= i < |parts| && 0 <= j < |parts[i]| ensures parts[i][j] != '&' {
      EncodedPlusFree(fields[i].0);
      EncodedPlusFree(fields[i].1);
      var ek := UriDecode.Encode(fields[i].0);
      if j < |ek| {
        assert parts[i][j] == ek[j];
      } else if j > |ek| {
        assert parts[i][j] == UriDecode.Encode(fields[i].1)[j - |ek| - 1];
      }
    }
    SplitJoin(parts, '&');
    forall i | 0 <= i < |parts| ensures PairEntry(parts[i], plusAsSpace) == Some(Some(fields[i])) {
      PairEntryEncoded(fields[i].0, fields[i].1, plusAsSpace);
    }
    PairEntriesAll(parts, plusAsSpace, AsEntries(fields));
  }

  lemma {:induction false} PairEntriesAll(pairs: seq<string>, plusAsSpace: bool, es: seq<Option<(string, string)>>)
    requires |es| == |pairs|
    requires forall i | 0 <= i < |pairs| :: PairEntry(pairs[i], plusAsSpace) == Some(es[i])
    ensures PairEntries(pairs, plusAsSpace) == Some(es)
    decreases |pairs|
  {
    if |pairs| > 0 {
      PairEntriesAll(pairs[1..], plusAsSpace, es[1..]);
      assert es == [es[0]] + es[1..];
    }
  }

  /** Text with neither `%` nor `=`: a form value reads `+` as a space,
      a query value keeps it. */
  lemma {:induction false} PlainValue(k: string, v: string)
    requires k != "" && (forall i | 0 <= i < |k| :: k[i] != '%' && k[i] != '=' && k[i] != '+')
    requires forall i | 0 <= i < |v| :: v[i] != '%' && v[i] != '='
    ensures PairEntry(k + "=" + v, true) == Some(Some((k, PlusToSpace(v))))
    ensures PairEntry(k + "=" + v, false) == Some(Some((k, v)))
  {
    SplitJoin([k, v], '=');
    assert Join([k, v], "=") == k + "=" + v by {
      assert [k, v][1..] == [v];
    }
    UriDecode.DecodeNoPercent(k);
    UriDecode.DecodeNoPercent(v);
    UriDecode.DecodeNoPercent(PlusToSpace(v));
    assert PlusToSpace(k) == k;
  }

  /** Text after a second `=` is dropped: `a=b=c` gives `a` the value `b`. */
  lemma {:induction false} SecondEqualsDropsRest(k: string, v: string, rest: string, plusAsSpace: bool)
    requires k != "" && (forall i | 0 <= i < |k| :: k[i] != '=')
    requires forall i | 0 <= i < |v| :: v[i] != '='
    ensures PairEntry(k + "=" + v + "=" + rest, plusAsSpace) == PairEntry(k + "=" + v, plusAsSpace)
  {
    assert k + "=" + v + "=" + rest == k + "=" + (v + "=" + rest);
    SplitAtElem(k, '=', v + "=" + rest);
    SplitAtElem(v, '=', rest);
    SplitJoin([k, v], '=');
    assert Join([k, v], "=") == k + "=" + v by {
      assert [k, v][1..] == [v];
    }
  }

  /** A piece with an empty key writes nothing, whatever follows its `=`. */
  lemma {:induction false} EmptyKeyPair(v: string, plusAsSpace: bool)
    ensures PairEntry("=" + v, plusAsSpace) == Some(None)
  {
    assert "=" + v == "" + ['='] + v;
    SplitAtElem("", '=', v);
  }

  /** A piece without `=` is a key whose value is the empty text; with no
      escape in it, a query reads it as it stands. */
  lemma {:induction false} MissingValue(k: string, plusAsSpace: bool)
    requires k != "" && '=' !in k
    ensures PairEntry(k, plusAsSpace) ==
              match DecodeComponent(k, plusAsSpace)
              case None => None
              case Some(dk) => Some(Some((dk, "")))
    ensures '%' !in k ==> PairEntry(k, false) == Some(Some((k, "")))
  {
    forall j | 0 <= j && j + 1 <= |k| ensures !OccursAt(k, "=", j) {
      assert k[j..j + 1][0] == k[j];
    }
    SplitNone(k, "=");
    assert PlusToSpace("") == "";
    UriDecode.DecodeNoPercent("");
    if '%' !in k {
      UriDecode.DecodeNoPercent(k);
    }
  }

  /** The empty text decodes to the empty record: its one piece has an
      empty key. */
  lemma {:induction false} EmptyPairs(plusAsSpace: bool)
    ensures DecodePairs("", plusAsSpace) == Some(map[])
  {
    var empty: string := "";
    SplitNone(empty, "&");
    SplitNone(empty, "=");
    PairEntriesAll([empty], plusAsSpace, [None]);
    LastWins.AssignNothing<string, string>([None]);
  }

  // ---------------------------------------------------------------------
  // Content type
  // ---------------------------------------------------------------------

  /** The substring tests of `getContentType`, in their order. */
  function Classify(mediaType: string): ContentType {
    if Contains(mediaType, "application/json") then JSON
    else if Contains(mediaType, "application/x-www-form-urlencoded") then FORM_URLENCODED
    else if Contains(mediaType, "text/plain") then TEXT
    else if Contains(mediaType, "text/html") then HTML
    else if Contains(mediaType, "multipart/form-data") then MULTIPART
    else UNKNOWN
  }

  /** `getContentType`: the part of the Content-Type header before the first
      `;`, trimmed and lower-cased, classified; a missing or empty header is
      `UNKNOWN`. */
  function ContentTypeOf(headers: map<string, string>): ContentType {
    if CONTENT_TYPE !in headers || headers[CONTENT_TYPE] == "" then UNKNOWN
    else Classify(ToLower(Trim(Split(headers[CONTENT_TYPE], ";")[0])))
  }

  /** Parameters after the first `;` never change the classification. */
  lemma {:induction false} ContentTypeIgnoresParameters(headers: map<string, string>, v: string, params: string)
    requires ';' !in v
    ensures ContentTypeOf(headers[CONTENT_TYPE := v + ";" + params]) == ContentTypeOf(headers[CONTENT_TYPE := v])
  {
    forall j | 0 <= j < |v| ensures !OccursAt(v + ";" + params, ";", j) {
      assert (v + ";" + params)[j..j + 1][0] == v[j];
    }
    SplitCons(v, ";", params);
    NoSemicolon(v);
  }

  lemma {:induction false} NoSemicolon(v: string)
    requires ';' !in v
    ensures Split(v, ";") == [v]
  {
    forall j | 0 <= j && j + 1 <= |v| ensures !OccursAt(v, ";", j) {
      assert v[j..j + 1][0] == v[j];
    }
    SplitNone(v, ";");
  }

  /** Each content type's own name, in lower or upper case and with or
      without parameters after a `;`, is classified as that type; so is
      the name written in any mix of ASCII cases, with or without
      parameters. */
  lemma {:induction false} ContentTypeRoundTrip(headers: map<string, string>, t: ContentType, params: string)
    ensures ContentTypeOf(headers[CONTENT_TYPE := ContentTypeName(t)]) == t
    ensures ContentTypeOf(headers[CONTENT_TYPE := ToUpper(ContentTypeName(t))]) == t
    ensures ContentTypeOf(headers[CONTENT_TYPE := ContentTypeName(t) + ";" + params]) == t
    ensures forall v | v != "" && IsLowerName(v) && ToLower(v) == ContentTypeName(t) ::
              && ContentTypeOf(headers[CONTENT_TYPE := v]) == t
              && ContentTypeOf(headers[CONTENT_TYPE := v + ";" + params]) == t
  {
    ClassifyNames(t);
    NameLower(t);
    NameRoundTrip(headers, ContentTypeName(t), params);
    forall v | v != "" && IsLowerName(v) && ToLower(v) == ContentTypeName(t)
      ensures ContentTypeOf(headers[CONTENT_TYPE := v]) == t
      ensures ContentTypeOf(headers[CONTENT_TYPE := v + ";" + params]) == t
    {
      MixedCaseName(headers, v, t, params);
    }
  }

  lemma {:induction false} MixedCaseName(headers: map<string, string>, v: string, t: ContentType, params: string)
    requires v != "" && IsLowerName(v) && ToLower(v) == ContentTypeName(t)
    ensures ContentTypeOf(headers[CONTENT_TYPE := v]) == t
    ensures ContentTypeOf(headers[CONTENT_TYPE := v + ";" + params]) == t
  {
    ClassifyNames(t);
    ClassifiedAs(headers, v, t);
    assert forall i | 0 <= i < |v| :: v[i] != ';';
    ContentTypeIgnoresParameters(headers, v, params);
  }

  lemma {:induction false} NameRoundTrip(headers: map<string, string>, name: string, params: string)
    requires name != "" && IsLowerName(name) && IsLower(name)
    ensures ContentTypeOf(headers[CONTENT_TYPE := name]) == Classify(name)
    ensures ContentTypeOf(headers[CONTENT_TYPE := ToUpper(name)]) == Classify(name)
    ensures ContentTypeOf(headers[CONTENT_TYPE := name + ";" + params]) == Classify(name)
  {
    ToLowerIsLower(name);
    ClassifiedAs(headers, name, Classify(name));
    NameTrimmed(name);
    ContentTypeIgnoresParameters(headers, name, params);
    UpperOfName(name);
    ClassifiedAs(headers, ToUpper(name), Classify(name));
  }

  /** A header value made of letters, `/` and `-` is classified by its
      lower-case form. */
  lemma {:induction false} ClassifiedAs(headers: map<string, string>, v: string, t: ContentType)
    requires v != "" && IsLowerName(v) && Classify(ToLower(v)) == t
    ensures ContentTypeOf(headers[CONTENT_TYPE := v]) == t
  {
    NameTrimmed(v);
    NoSemicolon(v);
    TrimNoEdges(v);
  }

  /** Letters, `/` and `-` only. */
  predicate IsLowerName(s: string) {
    forall i | 0 <= i < |s| :: s[i] == '/' || s[i] == '-' || 'a' <= s[i] <= 'z' || 'A' <= s[i] <= 'Z'
  }

  lemma {:induction false} UpperOfName(s: string)
    requires IsLowerName(s) && IsLower(s)
    ensures IsLowerName(ToUpper(s)) && ToLower(ToUpper(s)) == s
  {
    assert forall i | 0 <= i < |s| :: LowerChar(UpperChar(s[i])) == s[i];
  }

  lemma {:induction false} NameTrimmed(s: string)
    requires IsLowerName(s)
    ensures ';' !in s
    ensures s == [] || (!IsSpace(s[0]) && !IsSpace(s[|s| - 1]))
  {
  }

  /** A pattern holding a character the text lacks does not occur in it. */
  lemma {:induction false} MissingChar(s: string, pat: string, i: nat)
    requires i < |pat| && pat[i] !in s
    ensures !Contains(s, pat)
  {
    forall j | 0 <= j ensures !OccursAt(s, pat, j) {
      if j + |pat| <= |s| {
        assert s[j..j + |pat|][i] == s[j + i];
      }
    }
  }

  lemma {:induction false} Itself(s: string)
    ensures Contains(s, s)
  {
    assert OccursAt(s, s, 0);
  }

  lemma {:induction false} TooLong(s: string, pat: string)
    requires |pat| > |s|
    ensures !Contains(s, pat)
  {
  }

  lemma {:induction false} NameLower(t: ContentType)
    ensures IsLowerName(ContentTypeName(t)) && IsLower(ContentTypeName(t))
  {
    match t
    case JSON => JsonLower();
    case FORM_URLENCODED => FormLower();
    case TEXT => TextLower();
    case HTML => HtmlLower();
    case MULTIPART => MultipartLower();
    case UNKNOWN => UnknownLower();
  }

  // One lemma per name keeps each character-by-character check small.
  lemma {:induction false} JsonLower() ensures IsLowerName(ContentTypeName(JSON)) && IsLower(ContentTypeName(JSON)) { }
  lemma {:induction false} FormLower() ensures IsLowerName(ContentTypeName(FORM_URLENCODED)) && IsLower(ContentTypeName(FORM_URLENCODED)) { }
  lemma {:induction false} TextLower() ensures IsLowerName(ContentTypeName(TEXT)) && IsLower(ContentTypeName(TEXT)) { }
  lemma {:induction false} HtmlLower() ensures IsLowerName(ContentTypeName(HTML)) && IsLower(ContentTypeName(HTML)) { }
  lemma {:induction false} MultipartLower() ensures IsLowerName(ContentTypeName(MULTIPART)) && IsLower(ContentTypeName(MULTIPART)) { }
  lemma {:induction false} UnknownLower() ensures IsLowerName(ContentTypeName(UNKNOWN)) && IsLower(ContentTypeName(UNKNOWN)) { }

  lemma {:induction false} ClassifyNames(t: ContentType)
    ensures IsLowerName(ContentTypeName(t)) && ToLower(ContentTypeName(t)) == ContentTypeName(t)
    ensures Classify(ContentTypeName(t)) == t
  {
    NameLower(t);
    ToLowerIsLower(ContentTypeName(t));
    match t
    case JSON => Itself(ContentTypeName(JSON));
    case FORM_URLENCODED => ClassifyForm();
    case TEXT => ClassifyText();
    case HTML => ClassifyHtml();
    case MULTIPART => ClassifyMultipart();
    case UNKNOWN => ClassifyUnknown();
  }

  lemma {:induction false} ClassifyForm() ensures Classify(ContentTypeName(FORM_URLENCODED)) == FORM_URLENCODED {
    var name := ContentTypeName(FORM_URLENCODED);
    Itself(name);
    assert "application/json"[12] == 'j';
    MissingChar(name, "application/json", 12);
  }

  lemma {:induction false} ClassifyText() ensures Classify(ContentTypeName(TEXT)) == TEXT {
    var name := ContentTypeName(TEXT);
    Itself(name);
    assert "application/json"[12] == 'j';
    assert "application/x-www-form-urlencoded"[14] == 'w';
    MissingChar(name, "application/json", 12);
    MissingChar(name, "application/x-www-form-urlencoded", 14);
  }

  lemma {:induction false} ClassifyHtml() ensures Classify(ContentTypeName(HTML)) == HTML {
    var name := ContentTypeName(HTML);
    Itself(name);
    assert "application/json"[12] == 'j';
    assert "application/x-www-form-urlencoded"[14] == 'w';
    assert "text/plain"[5] == 'p';
    MissingChar(name, "application/json", 12);
    MissingChar(name, "application/x-www-form-urlencoded", 14);
    MissingChar(name, "text/plain", 5);
  }

  lemma {:induction false} ClassifyMultipart() ensures Classify(ContentTypeName(MULTIPART)) == MULTIPART {
    var name := ContentTypeName(MULTIPART);
    Itself(name);
    MultipartLacks();
    assert "application/json"[12] == 'j';
    assert "application/x-www-form-urlencoded"[14] == 'w';
    assert "text/plain"[2] == 'x' && "text/html"[2] == 'x';
    MissingChar(name, "application/json", 12);
    MissingChar(name, "application/x-www-form-urlencoded", 14);
    MissingChar(name, "text/plain", 2);
    MissingChar(name, "text/html", 2);
  }

  lemma {:induction false} MultipartLacks()
    ensures var name := ContentTypeName(MULTIPART); 'j' !in name && 'w' !in name && 'x' !in name
  {
  }

  lemma {:induction false} ClassifyUnknown() ensures Classify(ContentTypeName(UNKNOWN)) == UNKNOWN {
    var name := ContentTypeName(UNKNOWN);
    TooLong(name, "application/json");
    TooLong(name, "application/x-www-form-urlencoded");
    TooLong(name, "text/plain");
    TooLong(name, "text/html");
    TooLong(name, "multipart/form-data");
  }

  // ---------------------------------------------------------------------
  // The body
  // ---------------------------------------------------------------------

  /** `parseByContentType`. JSON goes through `jsonParse` (`None` is the
      error `parseJSON` turns into `null`); a form is decoded with `+` as a
      space (an error gives `null`); text, HTML and unknown types keep the
      raw text; multipart is not supported and gives `null`. */
  function ParseByContentType(bodyRaw: string, t: ContentType, jsonParse: string -> Option<JsonValue>): (p: ParsedValue)
    ensures t == TEXT || t == HTML || t == UNKNOWN ==> p == PText(bodyRaw)
    ensures t == MULTIPART ==> p == PNull
    ensures t == JSON ==> (p == PNull <==> jsonParse(bodyRaw).None?)
    ensures t == FORM_URLENCODED ==> (p == PNull <==> ParseFormUrlEncoded(bodyRaw).None?)
    ensures t == JSON && jsonParse(bodyRaw).Some? ==> p == PJson(jsonParse(bodyRaw).value)
    ensures t == FORM_URLENCODED && ParseFormUrlEncoded(bodyRaw).Some? ==>
              p == PForm(ParseFormUrlEncoded(bodyRaw).value)
  {
    match t
    case JSON => (match jsonParse(bodyRaw) case None => PNull case Some(v) => PJson(v))
    case FORM_URLENCODED =>
      (match ParseFormUrlEncoded(bodyRaw) case None => PNull case Some(m) => PForm(m))
    case TEXT => PText(bodyRaw)
    case HTML => PText(bodyRaw)
    case MULTIPART => PNull
    case UNKNOWN => PText(bodyRaw)
  }

  /** The body of a request without one. */
  const NoBody := Body("", PNull, UNKNOWN, 0)

  /** `parse`: the body is the text after the first CRLF CRLF; when there is
      none, or it is blank, the result is the empty body; otherwise the raw
      text, its parsed value, its content type and its UTF-16 length. It
      never fails. */
  function Parse(rawRequest: string, headers: map<string, string>, jsonParse: string -> Option<JsonValue>): (r: ParseResult<Body>)
    ensures r.Success?
    ensures !Contains(rawRequest, HEADER_END) ==> r.data == NoBody
    ensures r.data.size == 0 <==> r.data == NoBody
    ensures r.data.size == Utf16Length(r.data.raw)
  {
    match IndexOf(rawRequest, HEADER_END)
    case None => Success(NoBody)
    case Some(i) =>
      var bodyRaw := rawRequest[i + |HEADER_END|..];
      if AllSpace(bodyRaw) then Success(NoBody)
      else
        var t := ContentTypeOf(headers);
        Success(Body(bodyRaw, ParseByContentType(bodyRaw, t, jsonParse), t, Utf16Length(bodyRaw)))
  }

  /** A request is its head, CRLF CRLF and the payload: the parsed body is
      the payload, read according to the Content-Type header, unless the
      payload is blank. */
  lemma {:induction false} ParseSplitsAtHeaderEnd(head: string, payload: string, headers: map<string, string>,
                               jsonParse: string -> Option<JsonValue>)
    requires IndexOf(head + HEADER_END, HEADER_END) == Some(|head|)
    ensures var b := Parse(head + HEADER_END + payload, headers, jsonParse).data;
            && (AllSpace(payload) ==> b == NoBody)
            && (!AllSpace(payload) ==>
                  b == Body(payload, ParseByContentType(payload, ContentTypeOf(headers), jsonParse),
                            ContentTypeOf(headers), Utf16Length(payload)))
  {
    var raw := head + HEADER_END + payload;
    IndexOfExtend(head + HEADER_END, HEADER_END, payload);
    assert raw[|head| + |HEADER_END|..] == payload;
  }

  // ---------------------------------------------------------------------
  // Content-Length checks
  // ---------------------------------------------------------------------

  /** `validateContentLength`: no (or an empty) Content-Length passes; one
      `parseInt` cannot read fails; otherwise the size must equal it. */
  function ValidateContentLength(bodySize: int, headers: map<string, string>): bool {
    if CONTENT_LENGTH !in headers || headers[CONTENT_LENGTH] == "" then true
    else
      match ParseInt(headers[CONTENT_LENGTH])
      case None => false
      case Some(n) => bodySize == n
  }

  /** A Content-Length that starts with a decimal number accepts exactly
      the size it names, whatever non-digit text follows (`parseInt`
      leniency); a missing one accepts any size. */
  lemma {:induction false} ValidateContentLengthSpec(bodySize: int, headers: map<string, string>, n: nat, rest: string)
    requires rest == [] || !IsDigit(rest[0])
    ensures ValidateContentLength(bodySize, headers[CONTENT_LENGTH := NatToString(n) + rest]) <==> bodySize == n
    ensures ValidateContentLength(bodySize, headers - {CONTENT_LENGTH})
  {
    ParseIntLeading(n, rest);
  }

  /** A Content-Length with no digit to read always fails. */
  lemma {:induction false} ValidateContentLengthNaN(bodySize: int, headers: map<string, string>, value: string)
    requires value != "" && ParseInt(value).None?
    ensures !ValidateContentLength(bodySize, headers[CONTENT_LENGTH := value])
  {
  }

  /** `hasBody`: a Content-Length that reads as a positive number, or a
      Transfer-Encoding that mentions `chunked` in any letter case. */
  predicate HasBody(headers: map<string, string>) {
    || (CONTENT_LENGTH in headers && headers[CONTENT_LENGTH] != ""
        && ParseInt(headers[CONTENT_LENGTH]).Some? && ParseInt(headers[CONTENT_LENGTH]).value > 0)
    || (TRANSFER_ENCODING in headers && Contains(ToLower(headers[TRANSFER_ENCODING]), "chunked"))
  }

  /** Without a Transfer-Encoding, a Content-Length that starts with a
      decimal number announces a body exactly when that number is
      positive. */
  lemma {:induction false} HasBodyByLength(headers: map<string, string>, n: nat, rest: string)
    requires TRANSFER_ENCODING !in headers
    requires rest == [] || !IsDigit(rest[0])
    ensures HasBody(headers[CONTENT_LENGTH := NatToString(n) + rest]) <==> n > 0
  {
    ParseIntLeading(n, rest);
    assert CONTENT_LENGTH != TRANSFER_ENCODING;
  }

  /** `chunked` announces a body in any letter case, and without either
      header there is none. */
  lemma {:induction false} HasBodyChunked(headers: map<string, string>, te: string)
    requires Contains(ToLower(te), "chunked")
    ensures HasBody(headers[TRANSFER_ENCODING := te])
    ensures HasBody(headers[TRANSFER_ENCODING := ToUpper(te)])
    ensures !HasBody(headers - {CONTENT_LENGTH, TRANSFER_ENCODING})
  {
    assert ToLower(ToUpper(te)) == ToLower(te) by {
      forall i | 0 <= i < |te| ensures LowerChar(UpperChar(te[i])) == LowerChar(te[i]) { }
    }
  }
}
