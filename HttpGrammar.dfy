/** The character classes and small string helpers that both media-type
    parsers define at their top (HTTP whitespace, HTTP token code points,
    HTTP quoted-string token code points, ASCII lower-casing and trimming). */
module HttpGrammar {

  /** HTTP whitespace: space, TAB, LF, CR. */
  const HttpWhitespace: set<char> := {' ', '\t', '\n', '\r'}

  /** ASCII whitespace: space, TAB, LF, FF, CR. */
  const AsciiWhitespace: set<char> := {' ', '\t', '\n', '\U{000C}', '\r'}

  predicate IsHttpWhitespace(c: char) {
    c in HttpWhitespace
  }

  /** `[-!#$%&'*+.^_`|~A-Za-z0-9]`. */
  predicate IsTokenChar(c: char) {
    || ('A' <= c <= 'Z') || ('a' <= c <= 'z') || ('0' <= c <= '9')
    || c == '-' || c == '!' || ('#' <= c <= '\'') || c == '*' || c == '+' || c == '.'
    || c == '^' || c == '_' || c == '`' || c == '|' || c == '~'
  }

  /** Solely HTTP token code points (the empty string qualifies). */
  predicate IsToken(s: string) {
    forall i :: 0 <= i < |s| ==> IsTokenChar(s[i])
  }

  /** Token code points include no white space and none of the delimiters
      the parsers scan for. */
  lemma TokenCharIsNoDelimiter(c: char)
    requires IsTokenChar(c)
    ensures c !in HttpWhitespace && c !in AsciiWhitespace
    ensures c != ';' && c != '=' && c != '/' && c != '"' && c != '\\' && c != ','
  {
  }

  lemma TokenIsNoDelimiter(t: string)
    requires IsToken(t)
    ensures forall k :: 0 <= k < |t| ==> t[k] !in HttpWhitespace && t[k] != ';' && t[k] != '=' && t[k] != '/'
  {
    forall k | 0 <= k < |t| ensures t[k] !in HttpWhitespace && t[k] != ';' && t[k] != '=' && t[k] != '/' {
      TokenCharIsNoDelimiter(t[k]);
    }
  }

  predicate IsQuotedStringChar(c: char) {
    c == '\t' || (' ' <= c <= '~') || ('\U{0080}' <= c <= '\U{00FF}')
  }

  /** Solely HTTP quoted-string token code points (the empty string qualifies). */
  predicate IsQuotedStringText(s: string) {
    forall i :: 0 <= i < |s| ==> IsQuotedStringChar(s[i])
  }

  predicate IsUpper(c: char) {
    'A' <= c <= 'Z'
  }

  /** ASCII lower-casing: `A`-`Z` become `a`-`z`, every other character is kept. */
  function AsciiLowercase(s: string): (r: string)
    ensures |r| == |s|
    ensures forall i :: 0 <= i < |s| ==>
      if IsUpper(s[i]) then r[i] as int == s[i] as int + 32 else r[i] == s[i]
  {
    seq(|s|, i requires 0 <= i < |s| => if IsUpper(s[i]) then (s[i] as int + 32) as char else s[i])
  }

  predicate NoUpper(s: string) {
    forall i :: 0 <= i < |s| ==> !IsUpper(s[i])
  }

  /** Lower-casing leaves no upper-case letter, is idempotent, and keeps the
      token and quoted-string classes. */
  lemma AsciiLowercaseProperties(s: string)
    ensures NoUpper(AsciiLowercase(s))
    ensures AsciiLowercase(AsciiLowercase(s)) == AsciiLowercase(s)
    ensures IsToken(s) <==> IsToken(AsciiLowercase(s))
    ensures NoUpper(s) ==> AsciiLowercase(s) == s
  {
    var r := AsciiLowercase(s);
    if IsToken(r) {
      forall i | 0 <= i < |s| ensures IsTokenChar(s[i]) {
        assert IsTokenChar(r[i]);
      }
    }
  }

  /** Removes the longest suffix of characters in `ws`. */
  function TrimEnd(s: string, ws: set<char>): (r: string)
    ensures |r| <= |s| && r == s[..|r|]
    ensures forall i :: |r| <= i < |s| ==> s[i] in ws
    ensures r == [] || r[|r| - 1] !in ws
  {
    if s == [] || s[|s| - 1] !in ws then s else TrimEnd(s[..|s| - 1], ws)
  }

  /** A trim is determined by its characterisation: the prefix of length `n`
      when everything after it is in `ws` and its last character is not. */
  lemma TrimEndUnique(s: string, ws: set<char>, n: nat)
    requires n <= |s| && (n == 0 || s[n - 1] !in ws)
    requires forall i :: n <= i < |s| ==> s[i] in ws
    ensures TrimEnd(s, ws) == s[..n]
  {
    var r := TrimEnd(s, ws);
    assert r != [] ==> r[|r| - 1] == s[|r| - 1];
  }

  /** Removes the longest prefix of characters in `ws`. */
  function TrimStart(s: string, ws: set<char>): (r: string)
    ensures |r| <= |s| && r == s[|s| - |r|..]
    ensures forall i :: 0 <= i < |s| - |r| ==> s[i] in ws
    ensures r == [] || r[0] !in ws
  {
    if s == [] || s[0] !in ws then s else TrimStart(s[1..], ws)
  }

  /** `removeTrailingHTTPWhitespace`. */
  function TrimTrailingHttpWhitespace(s: string): string {
    TrimEnd(s, HttpWhitespace)
  }

  /** `removeLeadingAndTrailingHTTPWhitespace`: leading run first, then trailing. */
  function TrimHttpWhitespace(s: string): (r: string)
    ensures r == [] || (r[0] !in HttpWhitespace && r[|r| - 1] !in HttpWhitespace)
    ensures |r| <= |s|
  {
    TrimEnd(TrimStart(s, HttpWhitespace), HttpWhitespace)
  }

  /** Trimming a string that neither starts nor ends with whitespace changes nothing. */
  lemma TrimNoop(s: string, ws: set<char>)
    requires s == [] || (s[0] !in ws && s[|s| - 1] !in ws)
    ensures TrimEnd(TrimStart(s, ws), ws) == s
  {
  }

  /** Index of the first character at or after `from` that is in `stops`, or
      `|s|` when there is none: what every `while (position < input.length &&
      input[position] !== …)` loop of the parsers computes. */
  function ScanUntil(s: string, from: nat, stops: set<char>): (end: nat)
    requires from <= |s|
    ensures from <= end <= |s|
    ensures forall i :: from <= i < end ==> s[i] !in stops
    ensures end < |s| ==> s[end] in stops
    decreases |s| - from
  {
    if from == |s| || s[from] in stops then from else ScanUntil(s, from + 1, stops)
  }

  /** Index of the first character at or after `from` that is NOT in `skip`. */
  function SkipWhile(s: string, from: nat, skip: set<char>): (end: nat)
    requires from <= |s|
    ensures from <= end <= |s|
    ensures forall i :: from <= i < end ==> s[i] in skip
    ensures end < |s| ==> s[end] !in skip
    decreases |s| - from
  {
    if from == |s| || s[from] !in skip then from else SkipWhile(s, from + 1, skip)
  }

  /** A scan is determined by its characterisation: any `end` with no stop
      character before it and a stop character (or the end) at it is the scan. */
  lemma {:induction false} ScanUntilUnique(s: string, from: nat, stops: set<char>, end: nat)
    requires from <= end <= |s|
    requires forall i :: from <= i < end ==> s[i] !in stops
    requires end < |s| ==> s[end] in stops
    ensures ScanUntil(s, from, stops) == end
    decreases end - from
  {
    if from < end {
      ScanUntilUnique(s, from + 1, stops, end);
    }
  }

  lemma {:induction false} SkipWhileUnique(s: string, from: nat, skip: set<char>, end: nat)
    requires from <= end <= |s|
    requires forall i :: from <= i < end ==> s[i] in skip
    requires end < |s| ==> s[end] !in skip
    ensures SkipWhile(s, from, skip) == end
    decreases end - from
  {
    if from < end {
      SkipWhileUnique(s, from + 1, skip, end);
    }
  }
}
