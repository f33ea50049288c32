/** Percent-decoding of a byte sequence (`percentDecodeBytes`, section 1.3 of
    the WHATWG URL Standard): `%` followed by two ASCII hex digits becomes the
    byte they spell; every other byte, including a `%` that is not followed by
    two hex digits, is copied unchanged. */
module PercentDecode {
  import opened Text

  /** `isASCIIHex`: `0`-`9`, `A`-`F`, `a`-`f`. */
  predicate IsAsciiHex(b: byte) {
    (0x30 <= b <= 0x39) || (0x41 <= b <= 0x46) || (0x61 <= b <= 0x66)
  }

  function HexValue(b: byte): (v: nat)
    requires IsAsciiHex(b)
    ensures v < 16
  {
    if b <= 0x39 then (b - 0x30) as nat
    else if b <= 0x46 then (b - 0x41) as nat + 10
    else (b - 0x61) as nat + 10
  }

  /** The bytes at `i` and `i + 1` exist and are hex digits (reading past the
      end yields `undefined`, which is not a hex digit). */
  predicate HexPairAt(s: seq<byte>, i: nat) {
    i + 1 < |s| && IsAsciiHex(s[i]) && IsAsciiHex(s[i + 1])
  }

  /** Percent-decoding of `s[i..]`, looking at the bytes that follow. */
  function DecodeFrom(s: seq<byte>, i: nat): seq<byte>
    decreases |s| - i
  {
    if i >= |s| then []
    else if s[i] == 0x25 && HexPairAt(s, i + 1) then
      [(HexValue(s[i + 1]) * 16 + HexValue(s[i + 2])) as byte] + DecodeFrom(s, i + 3)
    else [s[i]] + DecodeFrom(s, i + 1)
  }

  function PercentDecoded(s: seq<byte>): seq<byte> {
    DecodeFrom(s, 0)
  }

  /** `percentDecodeBytes`: fills a buffer as long as the input through
      `outputIndex` and returns its used prefix. */
  method PercentDecodeBytes(input: seq<byte>) returns (output: seq<byte>)
    ensures output == PercentDecoded(input)
  {
    ghost var decoded := PercentDecoded(input);
    var buffer := new byte[|input|];
    var outputIndex := 0;
    var i := 0;
    while i < |input|
      invariant 0 <= outputIndex <= i <= |input| && outputIndex <= |decoded|
      invariant decoded[outputIndex..] == DecodeFrom(input, i)
      invariant buffer[..outputIndex] == decoded[..outputIndex]
    {
      var b := input[i];
      if b != 0x25 {
        buffer[outputIndex] := b;
      } else if !HexPairAt(input, i + 1) {
        buffer[outputIndex] := b;
      } else {
        buffer[outputIndex] := (HexValue(input[i + 1]) * 16 + HexValue(input[i + 2])) as byte;
        i := i + 2;
      }
      assert decoded[outputIndex..][0] == buffer[outputIndex];
      assert decoded[outputIndex + 1..] == decoded[outputIndex..][1..];
      outputIndex := outputIndex + 1;
      i := i + 1;
    }
    output := buffer[..outputIndex];
  }

  /** Input without `%` is returned unchanged. */
  lemma {:induction false} DecodeFromNoPercent(s: seq<byte>, i: nat)
    requires i <= |s|
    requires forall k :: i <= k < |s| ==> s[k] != 0x25
    ensures DecodeFrom(s, i) == s[i..]
    decreases |s| - i
  {
    if i < |s| {
      DecodeFromNoPercent(s, i + 1);
      assert s[i..] == [s[i]] + s[i + 1..];
    }
  }

  /** Decoding never lengthens the input. */
  lemma PercentDecodedLength(s: seq<byte>)
    ensures |PercentDecoded(s)| <= |s|
  {
    DecodeFromExactLength(s, 0);
  }

  lemma PercentDecodedIdentity(s: seq<byte>)
    requires forall k :: 0 <= k < |s| ==> s[k] != 0x25
    ensures PercentDecoded(s) == s
  {
    DecodeFromNoPercent(s, 0);
  }

  /** The number of `%XY` escapes the decoder consumes from `s[i..]`. */
  function EscapesFrom(s: seq<byte>, i: nat): nat
    decreases |s| - i
  {
    if i >= |s| then 0
    else if s[i] == 0x25 && HexPairAt(s, i + 1) then 1 + EscapesFrom(s, i + 3)
    else EscapesFrom(s, i + 1)
  }

  /** Each escape turns three input bytes into one output byte and every other
      byte is copied, so the output is the input's length minus two per escape. */
  lemma {:induction false} DecodeFromExactLength(s: seq<byte>, i: nat)
    requires i <= |s|
    ensures |DecodeFrom(s, i)| + 2 * EscapesFrom(s, i) == |s| - i
    decreases |s| - i
  {
    if i < |s| {
      if s[i] == 0x25 && HexPairAt(s, i + 1) {
        DecodeFromExactLength(s, i + 3);
      } else {
        DecodeFromExactLength(s, i + 1);
      }
    }
  }
}
