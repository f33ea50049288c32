/** The forgiving base64 decoder `atob` (WHATWG Infra Standard, alphabet of
    section 4, Table 1, of RFC 4648) that returns `None` where the standard
    throws, together with the RFC 4648 encoder it inverts. */
module Base64 {
  import opened Text
  import opened HttpGrammar

  /** The value-to-character table of RFC 4648 section 4, Table 1. */
  function AlphabetChar(n: nat): (c: char)
    requires n < 64
  {
    if n < 26 then ('A' as int + n) as char
    else if n < 52 then ('a' as int + n - 26) as char
    else if n < 62 then ('0' as int + n - 52) as char
    else if n == 62 then '+' else '/'
  }

  /** The lookup string `characters`: `A`-`Z`, `a`-`z`, `0`-`9`, `+`, `/`. */
  const Characters: string := seq(64, n requires 0 <= n < 64 => AlphabetChar(n))

  /** `+`, `/`, ASCII alphanumerics: the characters `atob` accepts. */
  predicate IsBase64Char(c: char) {
    ('A' <= c <= 'Z') || ('a' <= c <= 'z') || ('0' <= c <= '9') || c == '+' || c == '/'
  }

  predicate AllBase64(s: string) {
    forall i :: 0 <= i < |s| ==> IsBase64Char(s[i])
  }

  /** `atobLookup`: the index of `c` in `characters`, `None` for `undefined`. */
  function AtobLookup(c: char): (r: Option<nat>)
    ensures r.Some? <==> IsBase64Char(c)
    ensures r.Some? ==> r.value < 64
  {
    if 'A' <= c <= 'Z' then Some(c as int - 'A' as int)
    else if 'a' <= c <= 'z' then Some(c as int - 'a' as int + 26)
    else if '0' <= c <= '9' then Some(c as int - '0' as int + 52)
    else if c == '+' then Some(62)
    else if c == '/' then Some(63)
    else None
  }

  /** `Characters` spells the table, so `AtobLookup` is its `indexOf`. */
  lemma CharactersAreAlphabet(k: nat)
    requires k < 64
    ensures |Characters| == 64 && Characters[k] == AlphabetChar(k)
  {
  }

  /** `AtobLookup` is `characters.indexOf(c)`, with `None` for -1: the
      position of the first (only) occurrence of `c`, if any. */
  lemma LookupIsIndexOf(c: char)
    ensures AtobLookup(c).Some? ==> AlphabetChar(AtobLookup(c).value) == c
    ensures AtobLookup(c).Some? ==> forall k :: 0 <= k < AtobLookup(c).value ==> AlphabetChar(k) != c
    ensures AtobLookup(c).None? ==> forall k :: 0 <= k < 64 ==> AlphabetChar(k) != c
  {
  }

  lemma AlphabetBase64(n: nat)
    requires n < 64
    ensures IsBase64Char(AlphabetChar(n))
  {
  }

  lemma LookupAlphabet(n: nat)
    requires n < 64
    ensures AtobLookup(AlphabetChar(n)) == Some(n)
  {
  }

  // ---------------------------------------------------------------------------
  // Preparing the input

  /** `data.replaceAll(/[ \t\n\f\r]/g, "")`. */
  function RemoveAsciiWhitespace(s: string): (r: string)
    ensures |r| <= |s|
    ensures forall i :: 0 <= i < |r| ==> r[i] !in AsciiWhitespace
    ensures (forall i :: 0 <= i < |s| ==> s[i] !in AsciiWhitespace) ==> r == s
  {
    if s == [] then []
    else (if s[0] in AsciiWhitespace then [] else [s[0]]) + RemoveAsciiWhitespace(s[1..])
  }

  /** `data.replace(/[=]=?$/, "")`: drops a final `==`, or else a final `=`. */
  function StripPadding(d: string): (r: string)
    ensures |d| >= 2 && d[|d| - 2..] == "==" ==> r == d[..|d| - 2]
    ensures (|d| < 2 || d[|d| - 2..] != "==") && |d| >= 1 && d[|d| - 1] == '=' ==> r == d[..|d| - 1]
    ensures (|d| == 0 || d[|d| - 1] != '=') ==> r == d
  {
    if |d| >= 2 && d[|d| - 2] == '=' && d[|d| - 1] == '=' then d[..|d| - 2]
    else if |d| >= 1 && d[|d| - 1] == '=' then d[..|d| - 1]
    else d
  }

  /** The text `atob` decodes: white space removed, then, only when the length
      is a multiple of four, one or two trailing `=` removed. */
  function Prepared(input: string): string {
    var d := RemoveAsciiWhitespace(input);
    if |d| % 4 == 0 then StripPadding(d) else d
  }

  // ---------------------------------------------------------------------------
  // The decoding

  function Pow64(k: nat): (r: nat)
    ensures r >= 1
  {
    if k == 0 then 1 else 64 * Pow64(k - 1)
  }

  /** The six bits `buffer |= atobLookup(c)` ors into the buffer; `undefined`
      acts as 0 in a bitwise or. */
  function Sextet(c: char): (v: nat)
    ensures v < 64
    ensures IsBase64Char(c) ==> AtobLookup(c) == Some(v)
  {
    AtobLookup(c).GetOr(0)
  }

  /** The bits that `buffer <<= 6; buffer |= atobLookup(c)` accumulates over
      the characters `s[lo..hi]`. */
  function Sextets(s: string, lo: nat, hi: nat): nat
    requires lo <= hi <= |s|
    decreases hi
  {
    if hi == lo then 0 else Sextets(s, lo, hi - 1) * 64 + Sextet(s[hi - 1])
  }

  /** `k` characters fit in `6 * k` bits: their value is below `64^k`. */
  lemma {:induction false} SextetsBound(s: string, lo: nat, hi: nat)
    requires lo <= hi <= |s|
    ensures Sextets(s, lo, hi) < Pow64(hi - lo)
    decreases hi
  {
    if hi != lo {
      SextetsBound(s, lo, hi - 1);
    }
  }

  /** The three bytes of a full 24-bit buffer, most significant first. */
  function GroupBytes(n: nat): (r: string)
    ensures |r| == 3 && IsLatin1(r)
  {
    [((n / 65536) % 256) as char, ((n / 256) % 256) as char, (n % 256) as char]
  }

  /** The decoding of the first `n` complete four-character groups of `d`. */
  function DecodeGroups(d: string, n: nat): (r: string)
    requires 4 * n <= |d|
    ensures |r| == 3 * n
  {
    if n == 0 then [] else DecodeGroups(d, n - 1) + GroupBytes(Sextets(d, 4 * n - 4, 4 * n))
  }

  /** What a buffer of 12 bits (two characters `d[from..]`) or 18 bits (three
      characters) left over at the end contributes; six bits (one character)
      contribute nothing. */
  function DecodeTail(d: string, from: nat): (r: string)
    requires from <= |d| < from + 4
    ensures |r| == (if |d| - from < 2 then 0 else |d| - from - 1) && IsLatin1(r)
  {
    SextetsBound(d, from, |d|);
    if |d| - from == 2 then [(Sextets(d, from, |d|) / 16) as char]
    else if |d| - from == 3 then
      var n := Sextets(d, from, |d|) / 4;
      [((n / 256) % 256) as char, (n % 256) as char]
    else []
  }

  /** The decoding of a prepared text: its complete groups, then its tail. */
  function DecodeData(d: string): string {
    DecodeGroups(d, |d| / 4) + DecodeTail(d, |d| / 4 * 4)
  }

  /** `atob`: `None` exactly when the prepared text has length 1 modulo 4 or a
      character outside the alphabet. */
  function AtobSpec(input: string): Option<string> {
    var d := Prepared(input);
    if |d| % 4 == 1 || !AllBase64(d) then None else Some(DecodeData(d))
  }

  /** `atob`, step by step: the text is prepared and checked, then decoded. */
  method Atob(input: string) returns (r: Option<string>)
    ensures r == AtobSpec(input)
  {
    var data := RemoveAsciiWhitespace(input);
    if |data| % 4 == 0 {
      data := StripPadding(data);
    }
    if |data| % 4 == 1 || !AllBase64(data) {
      return None;
    }
    var output := DecodePrepared(data);
    r := Some(output);
  }

  /** The decoding part of `atob`: the loop gathers six bits per character
      and empties the buffer into three bytes whenever it holds 24 bits, and
      finally the 12 or 18 bits left over are emptied. */
  method DecodePrepared(data: string) returns (output: string)
    ensures output == DecodeData(data)
  {
    var buffer, accumulatedBits;
    output, buffer, accumulatedBits := DecodeGroupsLoop(data);
    ghost var n := |data| / 4;
    Quotient4(|data|);
    if accumulatedBits == 12 {
      TailOneByte(data, n, output, buffer);
      buffer := buffer / 16;
      output := output + [buffer as char];
    } else if accumulatedBits == 18 {
      TailTwoBytes(data, n, output, buffer);
      buffer := buffer / 4;
      output := output + [((buffer / 256) % 256) as char];
      output := output + [(buffer % 256) as char];
    } else {
      NoTail(data, n, output);
    }
  }

  /** The main loop of `atob`: what the output and the buffer hold once every
      character has been shifted in. */
  method DecodeGroupsLoop(data: string) returns (output: string, buffer: nat, accumulatedBits: nat)
    ensures output == DecodeGroups(data, |data| / 4)
    ensures buffer == Sextets(data, |data| / 4 * 4, |data|)
    ensures accumulatedBits == |data| % 4 * 6
  {
    output := "";
    buffer := 0;
    accumulatedBits := 0;
    ghost var groups := 0;
    for i := 0 to |data|
      invariant 4 * groups <= i < 4 * groups + 4
      invariant accumulatedBits == (i - 4 * groups) * 6
      invariant buffer == Sextets(data, 4 * groups, i)
      invariant output == DecodeGroups(data, groups)
    {
      buffer := buffer * 64 + Sextet(data[i]);
      accumulatedBits := accumulatedBits + 6;
      if accumulatedBits == 24 {
        FlushStep(data, groups, buffer, output);
        output := output + [((buffer / 65536) % 256) as char];
        output := output + [((buffer / 256) % 256) as char];
        output := output + [(buffer % 256) as char];
        accumulatedBits := 0;
        buffer := 0;
        groups := groups + 1;
      }
    }
    LoopExit(data, groups);
  }

  lemma LoopExit(d: string, groups: nat)
    requires 4 * groups <= |d| < 4 * groups + 4
    ensures |d| / 4 == groups && |d| / 4 * 4 == 4 * groups && |d| % 4 * 6 == (|d| - 4 * groups) * 6
  {
    DivMod4(|d|, groups, |d| - 4 * groups);
  }

  /** A full buffer appends its three bytes, in the order the loop pushes
      them, to the decoding of the groups before it. */
  lemma FlushStep(d: string, groups: nat, buffer: nat, output: string)
    requires 4 * groups + 4 <= |d| && buffer == Sextets(d, 4 * groups, 4 * groups + 4)
    requires output == DecodeGroups(d, groups)
    ensures output + [((buffer / 65536) % 256) as char] + [((buffer / 256) % 256) as char]
      + [(buffer % 256) as char] == DecodeGroups(d, groups + 1)
  {
    var g := GroupBytes(buffer);
    assert output + [g[0]] + [g[1]] + [g[2]] == output + g;
  }

  /** With `|d| == 4 * n + k`, the decoding is that of `n` groups and a tail. */
  lemma DecodeDataAt(d: string, n: nat, k: nat)
    requires |d| == 4 * n + k && k < 4
    ensures DecodeData(d) == DecodeGroups(d, n) + DecodeTail(d, 4 * n)
  {
    DivMod4(|d|, n, k);
  }

  lemma Quotient4(x: nat)
    ensures x == 4 * (x / 4) + x % 4 && x % 4 < 4
  {
  }

  /** Emptying the 12 bits left after the loop (two characters) completes
      `DecodeData` with one byte. */
  lemma TailOneByte(d: string, n: nat, output: string, buffer: nat)
    requires |d| == 4 * n + 2
    requires output == DecodeGroups(d, n) && buffer == Sextets(d, 4 * n, |d|)
    ensures buffer / 16 < 256 && output + [(buffer / 16) as char] == DecodeData(d)
  {
    DecodeDataAt(d, n, 2);
    SextetsBound(d, 4 * n, |d|);
    assert Pow64(2) == 4096;
  }

  /** Emptying the 18 bits left after the loop (three characters) completes
      `DecodeData` with two bytes, pushed high byte first. */
  lemma TailTwoBytes(d: string, n: nat, output: string, buffer: nat)
    requires |d| == 4 * n + 3
    requires output == DecodeGroups(d, n) && buffer == Sextets(d, 4 * n, |d|)
    ensures output + [((buffer / 4 / 256) % 256) as char] + [((buffer / 4) % 256) as char] == DecodeData(d)
  {
    DecodeDataAt(d, n, 3);
  }

  /** With nothing (or, for a rejected text, six bits) left, the loop's output
      is the whole decoding. */
  lemma NoTail(d: string, n: nat, output: string)
    requires (|d| == 4 * n || |d| == 4 * n + 1) && output == DecodeGroups(d, n)
    ensures output == DecodeData(d)
  {
    DecodeDataAt(d, n, |d| - 4 * n);
  }

  // ---------------------------------------------------------------------------
  // Properties of atob

  /** Every decoded character is a byte value: `atob` yields a binary string. */
  lemma {:induction false} DecodeGroupsLatin1(d: string, n: nat)
    requires 4 * n <= |d|
    ensures IsLatin1(DecodeGroups(d, n))
  {
    if n != 0 {
      DecodeGroupsLatin1(d, n - 1);
    }
  }

  /** Three bytes per complete group, plus one byte for a 12-bit and two bytes
      for an 18-bit remainder; every output character is below 256. */
  lemma AtobLength(input: string)
    requires AtobSpec(input).Some?
    ensures var d := Prepared(input);
      |AtobSpec(input).value| == |d| / 4 * 3 + (if |d| % 4 == 0 then 0 else |d| % 4 - 1)
    ensures IsLatin1(AtobSpec(input).value)
  {
    var d := Prepared(input);
    DecodeGroupsLatin1(d, |d| / 4);
  }

  // ---------------------------------------------------------------------------
  // The RFC 4648 encoder and the round trip

  /** Three bytes as four characters (RFC 4648 section 4). */
  function EncodeGroup(x: byte, y: byte, z: byte): (r: string)
    ensures |r| == 4
  {
    [AlphabetChar(x as nat / 4), AlphabetChar((x as nat % 4) * 16 + y as nat / 16),
     AlphabetChar((y as nat % 16) * 4 + z as nat / 64), AlphabetChar(z as nat % 64)]
  }

  /** The encoding of the first `n` complete three-byte groups of `b`. */
  function EncodeGroups(b: seq<byte>, n: nat): (r: string)
    requires 3 * n <= |b|
    ensures |r| == 4 * n
  {
    if n == 0 then [] else EncodeGroups(b, n - 1) + EncodeGroup(b[3 * n - 3], b[3 * n - 2], b[3 * n - 1])
  }

  /** The encoder writes only characters of the alphabet (and `=`). */
  lemma {:induction false} EncodeGroupsBase64(b: seq<byte>, n: nat)
    requires 3 * n <= |b|
    ensures AllBase64(EncodeGroups(b, n))
  {
    if n != 0 {
      EncodeGroupsBase64(b, n - 1);
      var x, y, z := b[3 * n - 3], b[3 * n - 2], b[3 * n - 1];
      AlphabetBase64(x as nat / 4);
      AlphabetBase64((x as nat % 4) * 16 + y as nat / 16);
      AlphabetBase64((y as nat % 16) * 4 + z as nat / 64);
      AlphabetBase64(z as nat % 64);
      var front, g := EncodeGroups(b, n - 1), EncodeGroup(x, y, z);
      forall i | 0 <= i < 4 * n ensures IsBase64Char((front + g)[i]) {
        if i < |front| { assert (front + g)[i] == front[i]; }
      }
    }
  }

  /** The final one or two bytes, padded with `=` to four characters. */
  function EncodeTail(t: seq<byte>): (r: string)
    requires |t| < 3
    ensures |r| == (if t == [] then 0 else 4)
  {
    if |t| == 1 then
      [AlphabetChar(t[0] as nat / 4), AlphabetChar((t[0] as nat % 4) * 16), '=', '=']
    else if |t| == 2 then
      [AlphabetChar(t[0] as nat / 4), AlphabetChar((t[0] as nat % 4) * 16 + t[1] as nat / 16),
       AlphabetChar((t[1] as nat % 16) * 4), '=']
    else []
  }

  /** The padded base64 encoding of RFC 4648 section 4. */
  function Base64Encode(b: seq<byte>): (r: string)
    ensures |r| % 4 == 0
  {
    EncodeGroups(b, |b| / 3) + EncodeTail(b[|b| / 3 * 3..])
  }

  /** The value of two, three or four characters from `p`, digit by digit. */
  lemma SextetsDigits(e: string, p: nat)
    requires p + 2 <= |e|
    ensures Sextets(e, p, p + 2) == Sextet(e[p]) * 64 + Sextet(e[p + 1])
    ensures p + 3 <= |e| ==> Sextets(e, p, p + 3) == Sextets(e, p, p + 2) * 64 + Sextet(e[p + 2])
    ensures p + 4 <= |e| ==> Sextets(e, p, p + 4) == Sextets(e, p, p + 3) * 64 + Sextet(e[p + 3])
  {
    assert Sextets(e, p, p + 1) == Sextet(e[p]);
  }

  /** The four sextets the encoder cuts from three bytes put them back together. */
  lemma Recombine(x: nat, y: nat, z: nat, a: nat, b: nat, c: nat, d: nat)
    requires x < 256 && y < 256 && z < 256
    requires a == x / 4 && b == (x % 4) * 16 + y / 16 && c == (y % 16) * 4 + z / 64 && d == z % 64
    ensures ((a * 64 + b) * 64 + c) * 64 + d == x * 65536 + y * 256 + z
  {
    assert x == 4 * (x / 4) + x % 4;
    assert y == 16 * (y / 16) + y % 16;
    assert z == 64 * (z / 64) + z % 64;
  }

  /** `n == 256 * q + r` with `r < 256` fixes `n / 256` and `n % 256`. */
  lemma Div256(n: nat, q: nat, r: nat)
    requires n == 256 * q + r && r < 256
    ensures n / 256 == q && n % 256 == r
  {
  }

  lemma Div65536(n: nat, q: nat, r: nat)
    requires n == 65536 * q + r && r < 65536
    ensures n / 65536 == q
  {
  }

  lemma SplitBytes(x: nat, y: nat, z: nat)
    requires x < 256 && y < 256 && z < 256
    ensures GroupBytes(x * 65536 + y * 256 + z) == Latin1Decode([x as byte, y as byte, z as byte])
  {
    var n := x * 65536 + y * 256 + z;
    Div65536(n, x, y * 256 + z);
    Div256(n, x * 256 + y, z);
    Div256(x * 256 + y, x, y);
    Div256(x, 0, x);
  }

  /** Four characters at `p` that encode three bytes hold their 24 bits, and
      `GroupBytes` recovers the bytes. */
  lemma GroupRoundTrip(x: byte, y: byte, z: byte, e: string, p: nat)
    requires p + 4 <= |e| && e[p..p + 4] == EncodeGroup(x, y, z)
    ensures GroupBytes(Sextets(e, p, p + 4)) == Latin1Decode([x, y, z])
  {
    var a, b, c, d := x as nat / 4, (x as nat % 4) * 16 + y as nat / 16,
                      (y as nat % 16) * 4 + z as nat / 64, z as nat % 64;
    assert e[p] == AlphabetChar(a) && e[p + 1] == AlphabetChar(b);
    assert e[p + 2] == AlphabetChar(c) && e[p + 3] == AlphabetChar(d);
    LookupAlphabet(a); LookupAlphabet(b); LookupAlphabet(c); LookupAlphabet(d);
    SextetsDigits(e, p);
    Recombine(x as nat, y as nat, z as nat, a, b, c, d);
    SplitBytes(x as nat, y as nat, z as nat);
  }

  /** The last of the first `n` encoded groups is the encoding of the `n`-th
      byte triple, and the ones before it are the first `n - 1`. */
  lemma EncodedPrefix(b: seq<byte>, n: nat, e: string)
    requires 1 <= n && 3 * n <= |b| && 4 * n <= |e| && e[..4 * n] == EncodeGroups(b, n)
    ensures e[..4 * (n - 1)] == EncodeGroups(b, n - 1)
    ensures e[4 * n - 4..4 * n] == EncodeGroup(b[3 * n - 3], b[3 * n - 2], b[3 * n - 1])
  {
    assert e[..4 * (n - 1)] == e[..4 * n][..4 * (n - 1)];
    assert e[4 * n - 4..4 * n] == e[..4 * n][4 * n - 4..];
  }

  /** Decoding the first `n` groups of any text that starts with the encoding
      of the first `n` byte triples gives those bytes back. */
  lemma {:induction false} GroupsRoundTrip(b: seq<byte>, n: nat, e: string)
    requires 3 * n <= |b| && 4 * n <= |e| && e[..4 * n] == EncodeGroups(b, n)
    ensures DecodeGroups(e, n) == Latin1Decode(b[..3 * n])
  {
    if n != 0 {
      EncodedPrefix(b, n, e);
      GroupsRoundTrip(b, n - 1, e);
      GroupsStep(b, n, e);
    }
  }

  /** One more encoded group decodes to one more byte triple. */
  lemma GroupsStep(b: seq<byte>, n: nat, e: string)
    requires 1 <= n && 3 * n <= |b| && 4 * n <= |e|
    requires e[4 * n - 4..4 * n] == EncodeGroup(b[3 * n - 3], b[3 * n - 2], b[3 * n - 1])
    requires DecodeGroups(e, n - 1) == Latin1Decode(b[..3 * n - 3])
    ensures DecodeGroups(e, n) == Latin1Decode(b[..3 * n])
  {
    GroupRoundTrip(b[3 * n - 3], b[3 * n - 2], b[3 * n - 1], e, 4 * n - 4);
    Latin1DecodeSnoc3(b, n);
  }

  lemma Latin1DecodeSnoc3(b: seq<byte>, n: nat)
    requires 1 <= n && 3 * n <= |b|
    ensures Latin1Decode(b[..3 * n]) == Latin1Decode(b[..3 * n - 3]) + Latin1Decode([b[3 * n - 3], b[3 * n - 2], b[3 * n - 1]])
  {
    assert b[..3 * n] == b[..3 * n - 3] + [b[3 * n - 3], b[3 * n - 2], b[3 * n - 1]];
  }

  lemma RecombineOne(x: nat, a: nat, c: nat)
    requires x < 256 && a == x / 4 && c == (x % 4) * 16
    ensures (a * 64 + c) / 16 == x
  {
    assert x == 4 * (x / 4) + x % 4;
  }

  lemma RecombineTwo(x: nat, y: nat, a: nat, b: nat, c: nat)
    requires x < 256 && y < 256
    requires a == x / 4 && b == (x % 4) * 16 + y / 16 && c == (y % 16) * 4
    ensures ((a * 64 + b) * 64 + c) / 4 == x * 256 + y
  {
    assert x == 4 * (x / 4) + x % 4;
    assert y == 16 * (y / 16) + y % 16;
  }

  lemma SplitTwoBytes(x: nat, y: nat)
    requires x < 256 && y < 256
    ensures (x * 256 + y) / 256 % 256 == x && (x * 256 + y) % 256 == y
  {
    Div256(x * 256 + y, x, y);
    Div256(x, 0, x);
  }

  /** The two unpadded characters at `p` that end the encoding of one byte
      decode back to it. */
  lemma OneByteRoundTrip(x: byte, e: string, p: nat)
    requires p + 2 == |e| && e[p..] == EncodeTail([x])[..2]
    ensures AllBase64(e[p..])
    ensures DecodeTail(e, p) == Latin1Decode([x])
  {
    var a, c := x as nat / 4, (x as nat % 4) * 16;
    assert e[p] == AlphabetChar(a) && e[p + 1] == AlphabetChar(c);
    LookupAlphabet(a); LookupAlphabet(c);
    SextetsDigits(e, p);
    RecombineOne(x as nat, a, c);
  }

  /** The three unpadded characters at `p` that end the encoding of two bytes
      decode back to them. */
  lemma TwoBytesRoundTrip(x: byte, y: byte, e: string, p: nat)
    requires p + 3 == |e| && e[p..] == EncodeTail([x, y])[..3]
    ensures AllBase64(e[p..])
    ensures DecodeTail(e, p) == Latin1Decode([x, y])
  {
    var a, b, c := x as nat / 4, (x as nat % 4) * 16 + y as nat / 16, (y as nat % 16) * 4;
    assert e[p] == AlphabetChar(a) && e[p + 1] == AlphabetChar(b) && e[p + 2] == AlphabetChar(c);
    LookupAlphabet(a); LookupAlphabet(b); LookupAlphabet(c);
    SextetsDigits(e, p);
    RecombineTwo(x as nat, y as nat, a, b, c);
    SplitTwoBytes(x as nat, y as nat);
    TwoBytesTail(e, p, x, y, x as nat * 256 + y as nat);
  }

  /** The three-character tail whose sextets carry the 16 bits `n` decodes
      to the two bytes of `n`. */
  lemma TwoBytesTail(e: string, p: nat, x: byte, y: byte, n: nat)
    requires p + 3 == |e| && Sextets(e, p, p + 3) / 4 == n
    requires n / 256 % 256 == x as nat && n % 256 == y as nat
    ensures DecodeTail(e, p) == Latin1Decode([x, y])
  {
  }

  lemma DivMod3(x: nat, n: nat, m: nat)
    requires x == 3 * n + m && m < 3
    ensures x / 3 == n && x % 3 == m
  {
  }

  lemma DivMod4(x: nat, n: nat, m: nat)
    requires x == 4 * n + m && m < 4
    ensures x / 4 == n && x % 4 == m
  {
  }

  /** The characters the encoder writes: the alphabet and `=`. */
  predicate IsEncodingChar(c: char) {
    IsBase64Char(c) || c == '='
  }

  lemma TailChars(t: seq<byte>)
    requires |t| < 3
    ensures forall i :: 0 <= i < |EncodeTail(t)| ==> IsEncodingChar(EncodeTail(t)[i])
  {
    if |t| == 1 {
      AlphabetBase64(t[0] as nat / 4); AlphabetBase64((t[0] as nat % 4) * 16);
    } else if |t| == 2 {
      AlphabetBase64(t[0] as nat / 4); AlphabetBase64((t[0] as nat % 4) * 16 + t[1] as nat / 16);
      AlphabetBase64((t[1] as nat % 16) * 4);
    }
  }

  /** The encoding without its `=` padding: what `atob` prepares it to. */
  function Unpadded(b: seq<byte>): string {
    var n := |b| / 3;
    EncodeGroups(b, n) + (if |b| % 3 == 0 then [] else EncodeTail(b[3 * n..])[..|b| % 3 + 1])
  }

  /** The encoder writes only alphabet characters and `=`. */
  lemma EncodingChars(b: seq<byte>)
    ensures forall i :: 0 <= i < |Base64Encode(b)| ==> IsEncodingChar(Base64Encode(b)[i])
  {
    var n := |b| / 3;
    var groups, tail := EncodeGroups(b, n), EncodeTail(b[3 * n..]);
    var e := Base64Encode(b);
    assert e == groups + tail;
    EncodeGroupsBase64(b, n);
    TailChars(b[3 * n..]);
    forall i | 0 <= i < |e| ensures IsEncodingChar(e[i]) {
      if i < |groups| { assert e[i] == groups[i]; } else { assert e[i] == tail[i - |groups|]; }
    }
  }

  /** The padded encoding has no white space. */
  lemma EncodingHasNoWhitespace(b: seq<byte>, n: nat)
    requires n == |b| / 3
    ensures RemoveAsciiWhitespace(Base64Encode(b)) == Base64Encode(b)
  {
    EncodingChars(b);
  }

  /** Removing the `=` padding from text that ends in an alphabet character
      before the padding. */
  lemma StripEncodedPadding(front: string, pad: string)
    requires pad == "" || pad == "=" || pad == "=="
    requires front == [] || IsBase64Char(front[|front| - 1])
    requires pad != "" ==> front != []
    ensures StripPadding(front + pad) == front
  {
    var d := front + pad;
    if pad == "==" {
      assert d[..|d| - 2] == front;
    } else if pad == "=" {
      assert d[|d| - 2] == front[|front| - 1];
      assert d[..|d| - 1] == front;
    }
  }

  /** The padded encoding is a multiple of four long, so `atob` prepares it
      by removing exactly its padding. */
  lemma PreparedEncoding(b: seq<byte>, n: nat, m: nat)
    requires |b| == 3 * n + m && m < 3
    ensures Prepared(Base64Encode(b)) == Unpadded(b)
  {
    DivMod3(|b|, n, m);
    EncodingHasNoWhitespace(b, n);
    UnpaddedAccepted(b, n, m);
    var d, tail := Unpadded(b), EncodeTail(b[3 * n..]);
    var pad := if m == 0 then "" else if m == 1 then "==" else "=";
    assert tail == tail[..|tail| - |pad|] + pad;
    assert Base64Encode(b) == d + pad;
    StripEncodedPadding(d, pad);
  }

  /** The unpadded encoding is accepted by `atob`. */
  lemma UnpaddedAccepted(b: seq<byte>, n: nat, m: nat)
    requires |b| == 3 * n + m && m < 3
    ensures |Unpadded(b)| % 4 != 1 && AllBase64(Unpadded(b))
  {
    DivMod3(|b|, n, m);
    var groups := EncodeGroups(b, n);
    var d := Unpadded(b);
    var kept := d[4 * n..];
    assert d == groups + kept;
    DivMod4(|d|, n, if m == 0 then 0 else m + 1);
    EncodeGroupsBase64(b, n);
    if m == 1 {
      assert b[3 * n..] == [b[3 * n]];
      OneByteRoundTrip(b[3 * n], d, 4 * n);
    } else if m == 2 {
      assert b[3 * n..] == [b[3 * n], b[3 * n + 1]];
      TwoBytesRoundTrip(b[3 * n], b[3 * n + 1], d, 4 * n);
    }
    forall i | 0 <= i < |d| ensures IsBase64Char(d[i]) {
      if i < |groups| { assert d[i] == groups[i]; } else { assert d[i] == kept[i - |groups|]; }
    }
  }

  /** The characters after the complete groups of the unpadded encoding
      decode to the one or two bytes after the complete triples. */
  lemma UnpaddedTailDecodes(b: seq<byte>, n: nat, m: nat)
    requires |b| == 3 * n + m && m < 3
    ensures 4 * n <= |Unpadded(b)| < 4 * n + 4
    ensures DecodeTail(Unpadded(b), 4 * n) == Latin1Decode(b[3 * n..])
  {
    DivMod3(|b|, n, m);
    var d := Unpadded(b);
    if m == 1 {
      assert b[3 * n..] == [b[3 * n]];
      OneByteRoundTrip(b[3 * n], d, 4 * n);
    } else if m == 2 {
      assert b[3 * n..] == [b[3 * n], b[3 * n + 1]];
      TwoBytesRoundTrip(b[3 * n], b[3 * n + 1], d, 4 * n);
    }
  }

  lemma Latin1DecodeSplit(b: seq<byte>, k: nat)
    requires k <= |b|
    ensures Latin1Decode(b) == Latin1Decode(b[..k]) + Latin1Decode(b[k..])
  {
  }

  /** The unpadded encoding decodes to the bytes. */
  lemma UnpaddedDecodes(b: seq<byte>, n: nat, m: nat)
    requires |b| == 3 * n + m && m < 3
    ensures DecodeData(Unpadded(b)) == Latin1Decode(b)
  {
    DivMod3(|b|, n, m);
    var d := Unpadded(b);
    DecodeDataAt(d, n, if m == 0 then 0 else m + 1);
    assert d[..4 * n] == EncodeGroups(b, n);
    GroupsRoundTrip(b, n, d);
    UnpaddedTailDecodes(b, n, m);
    Latin1DecodeSplit(b, 3 * n);
  }

  /** `atob` inverts the RFC 4648 encoding: decoding the encoding of any byte
      sequence gives back those bytes, one character per byte. */
  lemma AtobRoundTrip(b: seq<byte>)
    ensures AtobSpec(Base64Encode(b)) == Some(Latin1Decode(b))
  {
    var n, m := |b| / 3, |b| % 3;
    PreparedEncoding(b, n, m);
    UnpaddedAccepted(b, n, m);
    UnpaddedDecodes(b, n, m);
  }
}
