/** `parseDataUrl`: the `data:` URL processor of the WHATWG Fetch Standard
    (section 4.5), applied to the text of the URL after `data:`. The media
    type is what precedes the first `,`; the body, everything after it, is
    percent-decoded; a media type ending in `;base64` has its body decoded by
    `atob`; the media type is then parsed by the media type grammar with
    escapes in quoted values. */
module DataUrl {
  import opened Text
  import opened HttpGrammar
  import opened MediaType
  import opened Base64
  import opened PercentDecode

  /** The parsed URL. `mimeType == None` stands for `type` and `subtype`
      left `undefined` and no parameters. */
  datatype DataUrlRecord = DataUrlRecord(mimeType: Option<MimeType>, isBase64: bool, body: seq<byte>)

  const Comma: set<char> := {','}

  /** What `.` in a regular expression without the `s` flag does not match. */
  const LineTerminators: set<char> := {'\n', '\r', '\U{2028}', '\U{2029}'}

  /** `.replace(/^[ \t\n\f\r]+/, "").replace(/[ \t\n\f\r]+$/, "")`. */
  function TrimAsciiWhitespace(s: string): string {
    TrimEnd(TrimStart(s, AsciiWhitespace), AsciiWhitespace)
  }

  // ---------------------------------------------------------------------------
  // The expression `/(.*); *[Bb][Aa][Ss][Ee]64$/`

  /** `[Bb][Aa][Ss][Ee]64`. */
  predicate IsBase64Flag(w: string) {
    && |w| == 6
    && (w[0] == 'B' || w[0] == 'b') && (w[1] == 'A' || w[1] == 'a')
    && (w[2] == 'S' || w[2] == 's') && (w[3] == 'E' || w[3] == 'e')
    && w[4] == '6' && w[5] == '4'
  }

  /** The expression matches `m` from `k` with its `;` at `semi`: the group
      `(.*)` covers `m[k..semi]`, which holds no line terminator, only spaces
      lie between the `;` and the last six characters, and those spell the
      flag (`$` without the `m` flag is the end of the text). */
  predicate Base64MatchAt(m: string, k: nat, semi: nat) {
    && k <= semi && semi + 7 <= |m| && m[semi] == ';'
    && (forall i :: k <= i < semi ==> m[i] !in LineTerminators)
    && (forall i :: semi < i < |m| - 6 ==> m[i] == ' ')
    && IsBase64Flag(m[|m| - 6..])
  }

  /** The `;` before the spaces that precede a final flag, if there is one. */
  function FlagSemicolon(m: string): (r: Option<nat>)
    ensures r.Some? ==> r.value + 7 <= |m|
  {
    if |m| < 7 || !IsBase64Flag(m[|m| - 6..]) then None
    else
      var j := |TrimEnd(m[..|m| - 6], {' '})|;
      if j == 0 || m[j - 1] != ';' then None else Some(j - 1)
  }

  /** Just after the last line terminator before `j`, or 0. */
  function LineStart(m: string, j: nat): (r: nat)
    requires j <= |m|
    ensures r <= j && (r == 0 || m[r - 1] in LineTerminators)
    ensures forall i :: r <= i < j ==> m[i] !in LineTerminators
  {
    if j == 0 || m[j - 1] in LineTerminators then j else LineStart(m, j - 1)
  }

  /** `exec`: where the match starts and where its `;` is; the captured
      media type is `m[k..semi]`. */
  function Base64Match(m: string): (r: Option<(nat, nat)>)
    ensures r.Some? ==> r.value.0 <= r.value.1 < |m|
  {
    match FlagSemicolon(m)
    case None => None
    case Some(semi) => Some((LineStart(m, semi), semi))
  }

  /** Every match has its `;` where `FlagSemicolon` finds it. */
  lemma MatchSemicolon(m: string, k: nat, semi: nat)
    requires Base64MatchAt(m, k, semi)
    ensures FlagSemicolon(m) == Some(semi)
  {
    var front := m[..|m| - 6];
    forall i | semi + 1 <= i < |front| ensures front[i] in {' '} {
      assert front[i] == m[i];
    }
    assert front[semi] == ';';
    TrimEndUnique(front, {' '}, semi + 1);
  }

  /** What `FlagSemicolon` finds is the `;` of a match from `LineStart`. */
  lemma FlaggedMatches(m: string)
    requires FlagSemicolon(m).Some?
    ensures Base64MatchAt(m, LineStart(m, FlagSemicolon(m).value), FlagSemicolon(m).value)
  {
    var semi := FlagSemicolon(m).value;
    var front := m[..|m| - 6];
    forall i | semi < i < |m| - 6 ensures m[i] == ' ' {
      assert front[i] in {' '};
    }
  }

  /** `exec` returns the leftmost match: `Base64Match` is `(k, semi)` exactly
      when the expression matches from `k` with its `;` at `semi` and matches
      from no earlier position. */
  lemma Base64MatchIsLeftmost(m: string, k: nat, semi: nat)
    ensures Base64Match(m) == Some((k, semi)) <==>
      Base64MatchAt(m, k, semi) && forall j, t :: 0 <= j < k ==> !Base64MatchAt(m, j, t)
  {
    if Base64Match(m) == Some((k, semi)) {
      FlaggedMatches(m);
      forall j, t | 0 <= j < k ensures !Base64MatchAt(m, j, t) {
        if Base64MatchAt(m, j, t) {
          MatchSemicolon(m, j, t);
        }
      }
    }
    if Base64MatchAt(m, k, semi) && forall j, t :: 0 <= j < k ==> !Base64MatchAt(m, j, t) {
      MatchSemicolon(m, k, semi);
      FlaggedMatches(m);
      assert LineStart(m, semi) == k;
    }
  }

  /** `exec` returns `null` exactly when the expression matches nowhere. */
  lemma Base64MatchNone(m: string)
    ensures Base64Match(m).None? <==> forall k, semi :: !Base64MatchAt(m, k, semi)
  {
    if Base64Match(m).Some? {
      FlaggedMatches(m);
    } else {
      forall k, semi ensures !Base64MatchAt(m, k, semi) {
        if Base64MatchAt(m, k, semi) {
          MatchSemicolon(m, k, semi);
        }
      }
    }
  }

  // ---------------------------------------------------------------------------
  // The processor

  /** The media type: the text before the first `,`, ASCII white space trimmed. */
  function MediaTypeText(input: string): string {
    TrimAsciiWhitespace(input[..ScanUntil(input, 0, Comma)])
  }

  /** `Buffer.from(percentDecodeBytes(Buffer.from(encodedBody, "utf8")))`. */
  function BodyBytes(encodedBody: string): seq<byte> {
    PercentDecoded(Utf8Encode(encodedBody))
  }

  /** A media type that starts with `;` is read as `text/plain` with it appended. */
  function WithDefaultType(mediaType: string): string {
    if |mediaType| > 0 && mediaType[0] == ';' then "text/plain " + mediaType else mediaType
  }

  /** The type, subtype and parameters of the result: none for an empty media
      type, otherwise those the grammar reads from the media type with HTTP
      white space trimmed. */
  function MediaTypeOf(mediaType: string): Option<MimeType> {
    if mediaType == "" then None else ParseMediaType(TrimHttpWhitespace(mediaType), Escaping)
  }

  /** What the processor has once the base64 step is done: the media type
      text still to be parsed, whether it was flagged, and the body. */
  datatype Payload = Payload(mediaType: string, isBase64: bool, body: seq<byte>)

  /** The base64 step, from the trimmed media type and the percent-decoded
      body: a flagged media type has its body decoded by `atob` (`null` when
      that fails) and is replaced by the captured group. */
  function PayloadFrom(mediaType: string, body: seq<byte>): Option<Payload> {
    match Base64Match(mediaType)
    case None => Some(Payload(mediaType, false, body))
    case Some(g) =>
      match AtobSpec(Latin1Decode(body))
      case None => None
      case Some(decoded) => Some(Payload(mediaType[g.0..g.1], true, Latin1Encode(decoded)))
  }

  /** Everything up to the media type parsing: `null` without a `,`. */
  function PayloadOf(input: string): Option<Payload> {
    var comma := ScanUntil(input, 0, Comma);
    if comma == |input| then None
    else PayloadFrom(MediaTypeText(input), BodyBytes(input[comma + 1..]))
  }

  /** The processor's result on the text after `data:`, `None` for `null`. */
  function DataUrlSpec(input: string): Option<DataUrlRecord> {
    match PayloadOf(input)
    case None => None
    case Some(p) => Some(DataUrlRecord(MediaTypeOf(WithDefaultType(p.mediaType)), p.isBase64, p.body))
  }

  /** `parseDataUrl` from the text after `data:` on. */
  method ParseDataUrl(input: string) returns (r: Option<DataUrlRecord>)
    ensures r == DataUrlSpec(input)
  {
    var mediaType, position := CollectUntil(input, 0, Comma);
    mediaType := TrimAsciiWhitespace(mediaType);
    if position == |input| {
      return None;
    }
    position := position + 1;
    var encodedBody := input[position..];
    var body := PercentDecodeBytes(Utf8Encode(encodedBody));
    var payload := DecodeBase64(mediaType, body);
    if payload.None? {
      return None;
    }
    var mimeType := ReadMediaType(payload.value.mediaType);
    r := Some(DataUrlRecord(mimeType, payload.value.isBase64, payload.value.body));
  }

  /** The base64 step of `parseDataUrl`. */
  method DecodeBase64(mediaType: string, body: seq<byte>) returns (r: Option<Payload>)
    ensures r == PayloadFrom(mediaType, body)
  {
    var matchResult := Base64Match(mediaType);
    if matchResult.None? {
      return Some(Payload(mediaType, false, body));
    }
    var asString := Atob(Latin1Decode(body));
    if asString.None? {
      return None;
    }
    r := Some(Payload(mediaType[matchResult.value.0..matchResult.value.1], true, Latin1Encode(asString.value)));
  }

  /** The media type steps of `parseDataUrl`: the `text/plain` default, the
      empty media type, and the grammar. */
  method ReadMediaType(mediaType: string) returns (mimeType: Option<MimeType>)
    ensures mimeType == MediaTypeOf(WithDefaultType(mediaType))
  {
    var text := mediaType;
    if |text| > 0 && text[0] == ';' {
      text := "text/plain " + text;
    }
    if text == "" {
      return None;
    }
    mimeType := ParseMediaTypeText(TrimHttpWhitespace(text), Escaping);
  }

  // ---------------------------------------------------------------------------
  // Properties

  /** Without a `,` there is no data URL. */
  lemma DataUrlNoComma(input: string)
    requires forall i :: 0 <= i < |input| ==> input[i] != ','
    ensures DataUrlSpec(input).None?
  {
  }

  /** In `m + "," + t` with no `,` in `m`, the media type comes from `m` and
      the body from `t`. */
  lemma CommaSplit(m: string, t: string)
    requires forall i :: 0 <= i < |m| ==> m[i] != ','
    ensures var input := m + "," + t;
      ScanUntil(input, 0, Comma) == |m| && input[..|m|] == m && input[|m| + 1..] == t
  {
    var input := m + "," + t;
    assert input[|m|] == ',';
    ScanUntilUnique(input, 0, Comma, |m|);
  }

  /** A body of ASCII characters without `%` reaches the decoder as its own
      character codes. */
  lemma BodyIdentity(t: string)
    requires IsAscii(t) && forall i :: 0 <= i < |t| ==> t[i] != '%'
    ensures BodyBytes(t) == Latin1Encode(t) && Latin1Decode(BodyBytes(t)) == t
  {
    var u := Utf8Encode(t);
    assert forall k :: 0 <= k < |u| ==> u[k] != 0x25 by {
      forall k | 0 <= k < |u| ensures u[k] != 0x25 {
        assert u[k] as int == t[k] as int;
      }
    }
    PercentDecodedIdentity(u);
    var e := Latin1Encode(t);
    forall k | 0 <= k < |t| ensures u[k] == e[k] {
      assert u[k] as int == t[k] as int == e[k] as int;
    }
    var d := Latin1Decode(u);
    forall k | 0 <= k < |t| ensures d[k] == t[k] {
      assert d[k] as int == u[k] as int;
    }
  }

  /** `m + "," + t` with no `,` in `m` is processed from `m` and `t`. */
  lemma PayloadSplit(m: string, t: string)
    requires forall i :: 0 <= i < |m| ==> m[i] != ','
    ensures PayloadOf(m + "," + t) == PayloadFrom(TrimAsciiWhitespace(m), BodyBytes(t))
  {
    CommaSplit(m, t);
  }

  /** A media type without a base64 flag keeps the percent-decoded body. */
  lemma PayloadPlain(m: string, t: string)
    requires forall i :: 0 <= i < |m| ==> m[i] != ','
    requires Base64Match(TrimAsciiWhitespace(m)).None?
    requires IsAscii(t) && forall i :: 0 <= i < |t| ==> t[i] != '%'
    ensures PayloadOf(m + "," + t) == Some(Payload(TrimAsciiWhitespace(m), false, Latin1Encode(t)))
  {
    PayloadSplit(m, t);
    BodyIdentity(t);
  }

  /** The same for the whole processor: the body is `t`'s character codes,
      not flagged as base64, and the media type is read from `m`. */
  lemma DataUrlPlain(m: string, t: string)
    requires forall i :: 0 <= i < |m| ==> m[i] != ','
    requires Base64Match(TrimAsciiWhitespace(m)).None?
    requires IsAscii(t) && forall i :: 0 <= i < |t| ==> t[i] != '%'
    ensures DataUrlSpec(m + "," + t) ==
      Some(DataUrlRecord(MediaTypeOf(WithDefaultType(TrimAsciiWhitespace(m))), false, Latin1Encode(t)))
  {
    PayloadPlain(m, t);
  }

  /** A flagged media type with a body `atob` rejects yields `null`. */
  lemma DataUrlBadBase64(m: string, t: string)
    requires forall i :: 0 <= i < |m| ==> m[i] != ','
    requires Base64Match(TrimAsciiWhitespace(m)).Some?
    requires IsAscii(t) && forall i :: 0 <= i < |t| ==> t[i] != '%'
    requires AtobSpec(t).None?
    ensures DataUrlSpec(m + "," + t).None?
  {
    PayloadSplit(m, t);
    BodyIdentity(t);
  }

  /** The characters of `m + ";base64"`. */
  lemma FlaggedChars(m: string, f: string)
    requires f == m + ";base64"
    requires forall i :: 0 <= i < |m| ==> m[i] != ',' && m[i] !in LineTerminators
    requires m == [] || m[0] !in AsciiWhitespace
    ensures FlaggedShape(f, m)
  {
    var w := ";base64";
    assert |w| == 7 && |f| == |m| + 7;
    forall i | 0 <= i < |f| ensures f[i] != ',' {
      if i < |m| { assert f[i] == m[i]; } else { assert f[i] == w[i - |m|]; }
    }
    if m == [] { assert f[0] == w[0]; } else { assert f[0] == m[0]; }
    assert f[|f| - 1] == w[6];
    assert f[|m|] == w[0];
    assert f[|f| - 6..] == w[1..];
    forall i | 0 <= i < |m| ensures f[i] !in LineTerminators {
      assert f[i] == m[i];
    }
  }

  /** `f` has no `,`, is its own trim, and the expression matches it from 0
      with the group `m`. */
  predicate FlaggedText(f: string, m: string) {
    && (forall i :: 0 <= i < |f| ==> f[i] != ',')
    && TrimAsciiWhitespace(f) == f && Base64Match(f) == Some((0, |m|)) && f[0..|m|] == m
  }

  /** `m + ";base64"` for a media type `m` without `,` or line terminators
      that does not start with white space: trimming keeps it and the
      expression matches it from 0 with its `;` just after `m`. */
  lemma FlaggedMediaType(m: string)
    requires forall i :: 0 <= i < |m| ==> m[i] != ',' && m[i] !in LineTerminators
    requires m == [] || m[0] !in AsciiWhitespace
    ensures FlaggedText(m + ";base64", m)
  {
    FlaggedChars(m, m + ";base64");
    FlaggedTextOf(m + ";base64", m);
  }

  lemma FlaggedTextOf(f: string, m: string)
    requires FlaggedShape(f, m)
    ensures FlaggedText(f, m)
  {
    TrimNoop(f, AsciiWhitespace);
    Base64MatchIsLeftmost(f, 0, |m|);
  }

  /** The characters of `f` that make it `FlaggedText` with the group `m`. */
  predicate FlaggedShape(f: string, m: string) {
    && (forall i :: 0 <= i < |f| ==> f[i] != ',')
    && f != [] && f[0] !in AsciiWhitespace && f[|f| - 1] !in AsciiWhitespace
    && Base64MatchAt(f, 0, |m|) && f[0..|m|] == m
  }

  /** Text made of encoding characters is ASCII without `%`. */
  lemma EncodedBody(enc: string)
    requires forall i :: 0 <= i < |enc| ==> IsEncodingChar(enc[i])
    ensures IsAscii(enc) && forall i :: 0 <= i < |enc| ==> enc[i] != '%'
  {
  }

  /** A flagged media type whose body `atob` accepts. */
  lemma PayloadFlagged(mediaType: string, body: seq<byte>, k: nat, semi: nat, decoded: string)
    requires Base64Match(mediaType) == Some((k, semi)) && AtobSpec(Latin1Decode(body)) == Some(decoded)
    ensures PayloadFrom(mediaType, body) == Some(Payload(mediaType[k..semi], true, Latin1Encode(decoded)))
  {
  }

  /** The base64 round trip: the URL text `m;base64,` followed by the RFC 4648
      encoding of any bytes yields exactly those bytes, flagged as base64,
      with the media type read from `m`. */
  lemma DataUrlBase64RoundTrip(m: string, b: seq<byte>)
    requires forall i :: 0 <= i < |m| ==> m[i] != ',' && m[i] !in LineTerminators
    requires m == [] || m[0] !in AsciiWhitespace
    ensures DataUrlSpec(m + ";base64" + "," + Base64Encode(b)) ==
      Some(DataUrlRecord(MediaTypeOf(WithDefaultType(m)), true, b))
  {
    PayloadRoundTrip(m, b);
  }

  /** The base64 round trip up to the media type parsing. */
  lemma PayloadRoundTrip(m: string, b: seq<byte>)
    requires forall i :: 0 <= i < |m| ==> m[i] != ',' && m[i] !in LineTerminators
    requires m == [] || m[0] !in AsciiWhitespace
    ensures PayloadOf(m + ";base64" + "," + Base64Encode(b)) == Some(Payload(m, true, b))
  {
    EncodingChars(b);
    AtobRoundTrip(b);
    PayloadFlaggedText(m, Base64Encode(b), b);
  }

  /** `m;base64,` before a body of encoding characters that `atob` decodes
      to the characters of `b`. */
  lemma PayloadFlaggedText(m: string, enc: string, b: seq<byte>)
    requires forall i :: 0 <= i < |m| ==> m[i] != ',' && m[i] !in LineTerminators
    requires m == [] || m[0] !in AsciiWhitespace
    requires EncodesTo(enc, b)
    ensures PayloadOf(m + ";base64" + "," + enc) == Some(Payload(m, true, b))
  {
    FlaggedMediaType(m);
    PayloadEncodedBody(m + ";base64", m, enc, b);
  }

  /** `enc` is made of encoding characters and `atob` decodes it to the
      characters of `b`. */
  predicate EncodesTo(enc: string, b: seq<byte>) {
    (forall i :: 0 <= i < |enc| ==> IsEncodingChar(enc[i])) && AtobSpec(enc) == Some(Latin1Decode(b))
  }

  /** A media type `f` that is its own trim and matches the expression from
      0 with its `;` at `k`, before a body of encoding characters that `atob`
      decodes to the characters of `b`, yields `b` and the group `f[0..k]`. */
  lemma PayloadEncodedBody(f: string, m: string, enc: string, b: seq<byte>)
    requires FlaggedText(f, m) && EncodesTo(enc, b)
    ensures PayloadOf(f + "," + enc) == Some(Payload(m, true, b))
  {
    PayloadSplit(f, enc);
    EncodedBody(enc);
    BodyIdentity(enc);
    PayloadFlagged(f, BodyBytes(enc), 0, |m|, Latin1Decode(b));
    Latin1RoundTrip(b);
  }

  /** The scans of the essence over `text/plain ;`. */
  lemma TextPlainScans(s: string)
    requires |s| >= 12 && s[..12] == "text/plain ;"
    ensures ScanUntil(s, 0, Slash) == 4 && ScanUntil(s, 5, Semicolon) == 11
    ensures s[..4] == "text" && s[5..11] == "plain "
  {
    TextPlainChars(s);
    ScanUntilUnique(s, 0, Slash, 4);
    ScanUntilUnique(s, 5, Semicolon, 11);
  }

  lemma TextPlainChars(s: string)
    requires |s| >= 12 && s[..12] == "text/plain ;"
    ensures forall i :: 0 <= i < 4 ==> s[i] != '/'
    ensures forall i :: 5 <= i < 11 ==> s[i] != ';'
    ensures s[4] == '/' && s[11] == ';' && s[..4] == "text" && s[5..11] == "plain "
  {
    var p := s[..12];
    assert forall i :: 0 <= i < 12 ==> s[i] == p[i];
    assert s[..4] == p[..4] && s[5..11] == p[5..11];
  }

  /** A word of lower-case letters is a token that lower-casing keeps. */
  lemma LowerWord(w: string)
    requires forall i :: 0 <= i < |w| ==> 'a' <= w[i] <= 'z'
    ensures IsToken(w) && AsciiLowercase(w) == w
  {
    AsciiLowercaseProperties(w);
  }

  /** The words `text` and `plain`: lower-case tokens, `plain` the trim of `plain `. */
  lemma TextPlainWords()
    ensures TrimEnd("plain ", HttpWhitespace) == "plain"
    ensures IsToken("text") && IsToken("plain")
    ensures AsciiLowercase("text") == "text" && AsciiLowercase("plain") == "plain"
  {
    TrimEndUnique("plain ", HttpWhitespace, 5);
    assert "plain "[..5] == "plain";
    var t, p := "text", "plain";
    assert t[0] == 't' && t[1] == 'e' && t[2] == 'x' && t[3] == 't';
    LowerWord(t);
    assert p[0] == 'p' && p[1] == 'l' && p[2] == 'a' && p[3] == 'i' && p[4] == 'n';
    LowerWord(p);
  }

  /** `text/plain ` followed by a media type that starts with `;` has the
      essence `text/plain` however it continues. */
  lemma TextPlainEssence(s: string)
    requires |s| >= 12 && s[..12] == "text/plain ;"
    ensures Essence(s) == Some(("text", "plain", 11))
  {
    TextPlainScans(s);
    TextPlainWords();
    EssenceAt(s, 4, 11, "text", "plain");
  }

  lemma DefaultPrefix(m: string, d: string)
    requires |m| > 0 && m[0] == ';' && d == "text/plain " + m
    ensures |d| >= 12 && d[..12] == "text/plain ;"
  {
    var p := "text/plain ";
    assert |p| == 11;
    assert d[..12] == p + [m[0]];
  }

  /** Trimming HTTP white space keeps the first `n` characters of a text
      whose first and `n`-th characters are not white space. */
  lemma TrimKeepsPrefix(d: string, n: nat)
    requires 0 < n <= |d| && d[0] !in HttpWhitespace && d[n - 1] !in HttpWhitespace
    ensures |TrimHttpWhitespace(d)| >= n && TrimHttpWhitespace(d)[..n] == d[..n]
  {
    assert TrimStart(d, HttpWhitespace) == d;
    var s := TrimEnd(d, HttpWhitespace);
    assert s == d[..|s|];
  }

  /** A media type that starts with `;` is `text/plain` with its parameters. */
  lemma TextPlainDefault(m: string)
    requires |m| > 0 && m[0] == ';'
    ensures MediaTypeOf(WithDefaultType(m)).Some?
    ensures MediaTypeOf(WithDefaultType(m)).value.mainType == "text"
    ensures MediaTypeOf(WithDefaultType(m)).value.subtype == "plain"
  {
    var d := "text/plain " + m;
    DefaultPrefix(m, d);
    TrimKeepsPrefix(d, 12);
    TextPlainEssence(TrimHttpWhitespace(d));
  }

  /** A parsed type and subtype are lower-case tokens and the parameters are
      well formed. */
  lemma DataUrlWellFormed(input: string)
    requires DataUrlSpec(input).Some? && DataUrlSpec(input).value.mimeType.Some?
    ensures var t := DataUrlSpec(input).value.mimeType.value;
      |t.mainType| > 0 && IsToken(t.mainType) && NoUpper(t.mainType) &&
      |t.subtype| > 0 && IsToken(t.subtype) && NoUpper(t.subtype) &&
      WellFormedParameters(t.parameters)
  {
    var p := PayloadOf(input).value;
    ParseMediaTypeWellFormed(TrimHttpWhitespace(WithDefaultType(p.mediaType)), Escaping);
  }
}
