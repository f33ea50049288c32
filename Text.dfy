/** Values shared by every part of the model: optional values, bytes, and the
    conversions between JavaScript strings and Node buffers used by the loader.

    A JavaScript string is modelled as a `string` (a sequence of Unicode scalar
    values). A Node `Buffer` is a `seq<byte>`. */
module Text {

  datatype Option<+T> = None | Some(value: T) {
    function GetOr(default: T): T {
      match this
      case Some(v) => v
      case None => default
    }
  }

  newtype byte = b: int | 0 <= b < 256

  /** A non-empty sequence is its first element followed by the rest. */
  lemma ConsSplit<T>(v: seq<T>)
    requires v != []
    ensures [v[0]] + v[1..] == v
  {
  }

  lemma ConcatAssoc<T>(a: seq<T>, b: seq<T>, c: seq<T>)
    ensures a + b + c == a + (b + c)
  {
  }

  lemma MoveFirst<T>(a: seq<T>, b: seq<T>)
    requires b != []
    ensures a + [b[0]] + b[1..] == a + b
  {
    ConsSplit(b);
    assert a + [b[0]] + b[1..] == a + ([b[0]] + b[1..]);
  }

  /** `t` is spelled out in `s` from index `i`: a recursive form of
      `s[i..i + |t|] == t` that the lemmas below take apart one piece at a
      time. */
  predicate Spells(s: string, i: nat, t: string)
    decreases |t|
  {
    if t == [] then i <= |s| else i < |s| && s[i] == t[0] && Spells(s, i + 1, t[1..])
  }

  lemma {:induction false} SpellsBound(s: string, i: nat, t: string)
    requires Spells(s, i, t)
    ensures i + |t| <= |s|
    decreases |t|
  {
    if t != [] {
      SpellsBound(s, i + 1, t[1..]);
    }
  }

  lemma {:induction false} SpellsChar(s: string, i: nat, t: string, k: nat)
    requires Spells(s, i, t) && k < |t|
    ensures i + k < |s| && s[i + k] == t[k]
    decreases k
  {
    if k > 0 {
      SpellsChar(s, i + 1, t[1..], k - 1);
    }
  }

  /** Index form: every position of the spelled range holds its character. */
  lemma SpellsAt(s: string, i: nat, t: string)
    requires Spells(s, i, t)
    ensures i + |t| <= |s| && forall k :: i <= k < i + |t| ==> s[k] == t[k - i]
  {
    SpellsBound(s, i, t);
    forall k | i <= k < i + |t| ensures s[k] == t[k - i] {
      SpellsChar(s, i, t, k - i);
    }
  }

  lemma {:induction false} SpellsConcat(s: string, i: nat, a: string, b: string)
    requires Spells(s, i, a + b)
    ensures Spells(s, i, a) && Spells(s, i + |a|, b)
    decreases |a|
  {
    if a != [] {
      assert (a + b)[0] == a[0];
      assert (a + b)[1..] == a[1..] + b;
      SpellsConcat(s, i + 1, a[1..], b);
    } else {
      assert a + b == b;
      SpellsBound(s, i, b);
    }
  }

  lemma {:induction false} SpellsSuffix(s: string, i: nat)
    requires i <= |s|
    ensures Spells(s, i, s[i..])
    decreases |s| - i
  {
    if i < |s| {
      assert s[i..][1..] == s[i + 1..];
      SpellsSuffix(s, i + 1);
    }
  }

  /** A string spells itself from 0. */
  lemma SpellsWhole(s: string)
    ensures Spells(s, 0, s)
  {
    SpellsSuffix(s, 0);
    assert s[0..] == s;
  }

  /** The two parts of a spelled concatenation, the second at `j`. */
  lemma SpellsSplit(s: string, i: nat, a: string, b: string, j: nat)
    requires Spells(s, i, a + b) && j == i + |a|
    ensures Spells(s, i, a) && Spells(s, j, b)
  {
    SpellsConcat(s, i, a, b);
  }

  /** The three parts of a spelled concatenation, at `i`, `j` and `k`. */
  lemma SpellsSplit3(s: string, i: nat, a: string, b: string, c: string, j: nat, k: nat)
    requires Spells(s, i, a + b + c) && j == i + |a| && k == j + |b|
    ensures Spells(s, i, a) && Spells(s, j, b) && Spells(s, k, c)
  {
    SpellsConcat(s, i, a + b, c);
    SpellsConcat(s, i, a, b);
  }

  /** Each part of a four-part concatenation is spelled where it sits. */
  lemma SpellsParts(a: string, b: string, c: string, d: string, i: nat, j: nat, k: nat)
    requires i == |a| && j == i + |b| && k == j + |c|
    ensures var s := a + b + c + d;
      && |s| == k + |d| && Spells(s, 0, a) && Spells(s, i, b) && Spells(s, j, c) && Spells(s, k, d)
  {
    var s := a + b + c + d;
    SpellsWhole(s);
    SpellsConcat(s, 0, a + b + c, d);
    SpellsConcat(s, 0, a + b, c);
    SpellsConcat(s, 0, a, b);
  }

  lemma SpellsSlice(s: string, i: nat, t: string)
    requires Spells(s, i, t)
    ensures i + |t| <= |s| && s[i..i + |t|] == t
  {
    SpellsAt(s, i, t);
    forall k | 0 <= k < |t| ensures s[i..i + |t|][k] == t[k] {
      assert s[i + k] == t[(i + k) - i];
    }
  }

  /** `t` occurs in `s` starting at index `i`. */
  predicate OccursAt(s: string, i: nat, t: string) {
    i + |t| <= |s| && s[i..i + |t|] == t
  }

  /** `t` occurs in `s` at some index at or after `from`. */
  predicate OccursFrom(s: string, from: nat, t: string) {
    exists i :: from <= i <= |s| && OccursAt(s, i, t)
  }

  /** The index of the first occurrence of `t` in `s` at or after `from`
      (`String.prototype.indexOf`). */
  function IndexOfFrom(s: string, t: string, from: nat): (r: Option<nat>)
    ensures r.Some? ==> from <= r.value && OccursAt(s, r.value, t)
    ensures r.Some? ==> forall i :: from <= i < r.value ==> !OccursAt(s, i, t)
    ensures r.None? ==> forall i :: from <= i ==> !OccursAt(s, i, t)
    decreases |s| - from
  {
    if from + |t| > |s| then None
    else if s[from..from + |t|] == t then Some(from)
    else IndexOfFrom(s, t, from + 1)
  }

  /** An occurrence with none before it is the one `indexOf` finds. */
  lemma IndexOfIs(s: string, t: string, i: nat)
    requires OccursAt(s, i, t) && forall j :: 0 <= j < i ==> !OccursAt(s, j, t)
    ensures IndexOfFrom(s, t, 0) == Some(i)
  {
  }

  /** `String.prototype.replace` with a string pattern: only the FIRST
      occurrence of `pattern` is replaced; without one the text is unchanged. */
  function ReplaceFirst(s: string, pattern: string, replacement: string): (r: string)
    ensures IndexOfFrom(s, pattern, 0).None? ==> r == s
    ensures IndexOfFrom(s, pattern, 0).Some? ==>
      var i := IndexOfFrom(s, pattern, 0).value;
      r == s[..i] + replacement + s[i + |pattern|..]
  {
    match IndexOfFrom(s, pattern, 0)
    case None => s
    case Some(i) => s[..i] + replacement + s[i + |pattern|..]
  }

  /** Which reading of a step the model follows: the code as written, or
      what it evidently intends where the two differ. */
  datatype Reading = AsWritten | Intended

  /** JavaScript's `String(undefined)`, what `replace` inserts when its
      replacement argument is `undefined`. */
  const Undefined: string := "undefined"

  // ---------------------------------------------------------------------------
  // Filtering out null

  /** The values of the entries of `xs` that are not `null`, in order. */
  function Somes<T>(xs: seq<Option<T>>): (r: seq<T>)
    ensures |r| <= |xs|
  {
    if xs == [] then [] else Somes(xs[..|xs| - 1]) + (if xs[|xs| - 1].Some? then [xs[|xs| - 1].value] else [])
  }

  /** A value is kept exactly when some entry holds it. */
  lemma {:induction false} SomesMembers<T>(xs: seq<Option<T>>)
    ensures forall x :: x in Somes(xs) <==> Some(x) in xs
  {
    if xs != [] {
      var init := xs[..|xs| - 1];
      SomesMembers(init);
      assert xs == init + [xs[|xs| - 1]];
    }
  }

  /** Filtering distributes over concatenation, so the values keep their
      order. */
  lemma {:induction false} SomesConcat<T>(a: seq<Option<T>>, b: seq<Option<T>>)
    ensures Somes(a + b) == Somes(a) + Somes(b)
    decreases |b|
  {
    if b == [] {
      assert a + b == a;
    } else {
      var b' := b[..|b| - 1];
      assert (a + b)[..|a + b| - 1] == a + b';
      SomesConcat(a, b');
    }
  }

  /** With no `null` entry, every value is kept, in order. */
  lemma {:induction false} SomesAll<T>(xs: seq<Option<T>>)
    requires forall i :: 0 <= i < |xs| ==> xs[i].Some?
    ensures Somes(xs) == seq(|xs|, i requires 0 <= i < |xs| => xs[i].value)
  {
    if xs != [] {
      SomesAll(xs[..|xs| - 1]);
    }
  }

  /** One more entry adds its value when it has one. */
  lemma SomesStep<T>(xs: seq<Option<T>>, i: nat)
    requires i < |xs|
    ensures Somes(xs[..i + 1]) == Somes(xs[..i]) + (if xs[i].Some? then [xs[i].value] else [])
  {
    assert xs[..i + 1][..i] == xs[..i];
  }

  // ---------------------------------------------------------------------------
  // Buffer conversions

  /** `Buffer.from(s, "utf8")`: the UTF-8 encoding of each scalar value. */
  function Utf8Encode(s: string): (r: seq<byte>)
    ensures IsAscii(s) ==> |r| == |s| && forall i :: 0 <= i < |s| ==> r[i] as int == s[i] as int
    ensures |r| >= |s|
  {
    if s == [] then [] else Utf8Char(s[0]) + Utf8Encode(s[1..])
  }

  function Utf8Char(c: char): (r: seq<byte>)
    ensures 1 <= |r| <= 4
    ensures c as int < 0x80 <==> |r| == 1
    ensures |r| == 1 ==> r[0] as int == c as int
  {
    var n := c as int;
    if n < 0x80 then [n as byte]
    else if n < 0x800 then [(0xC0 + n / 64) as byte, (0x80 + n % 64) as byte]
    else if n < 0x10000 then
      [(0xE0 + n / 4096) as byte, (0x80 + (n / 64) % 64) as byte, (0x80 + n % 64) as byte]
    else
      [(0xF0 + n / 262144) as byte, (0x80 + (n / 4096) % 64) as byte,
       (0x80 + (n / 64) % 64) as byte, (0x80 + n % 64) as byte]
  }

  predicate IsAscii(s: string) {
    forall i :: 0 <= i < |s| ==> s[i] as int < 0x80
  }

  /** Every character is a Latin-1 code point (below 256). */
  predicate IsLatin1(s: string) {
    forall i :: 0 <= i < |s| ==> s[i] as int < 256
  }

  /** `buffer.toString("binary")`: each byte becomes the character with that code. */
  function Latin1Decode(b: seq<byte>): (r: string)
    ensures |r| == |b| && IsLatin1(r)
    ensures forall i :: 0 <= i < |b| ==> r[i] as int == b[i] as int
  {
    seq(|b|, i requires 0 <= i < |b| => b[i] as char)
  }

  /** `Buffer.from(s, "binary")`: each character keeps its low eight bits. */
  function Latin1Encode(s: string): (r: seq<byte>)
    ensures |r| == |s|
    ensures forall i :: 0 <= i < |s| && s[i] as int < 256 ==> r[i] as int == s[i] as int
  {
    seq(|s|, i requires 0 <= i < |s| => (s[i] as int % 256) as byte)
  }

  lemma Latin1RoundTrip(b: seq<byte>)
    ensures Latin1Encode(Latin1Decode(b)) == b
  {
  }
}
