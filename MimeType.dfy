/** The MIME type parser and serialiser of `src/parse-mimetype.js`
    (section 4.4 and 4.5 of the WHATWG MIME Sniffing Standard), whose quoted
    parameter values are read without escape processing. */
module MimeType {
  import opened Text
  import opened HttpGrammar
  import opened MediaType

  // ---------------------------------------------------------------------------
  // Serialising

  /** `value.replace(/(["\\])/g, "\\$1")`: a backslash before every `"` and `\`. */
  function Escape(v: string): (r: string)
    ensures |r| >= |v|
  {
    if v == [] then [] else EscapeChar(v[0]) + Escape(v[1..])
  }

  function EscapeChar(c: char): string {
    if c in QuoteOrBackslash then ['\\', c] else [c]
  }

  /** A value without `"` and `\` is its own escape. */
  lemma {:induction false} EscapeIdentity(v: string)
    requires forall i :: 0 <= i < |v| ==> v[i] !in QuoteOrBackslash
    ensures Escape(v) == v
  {
    if v != [] {
      EscapeIdentity(v[1..]);
      ConsSplit(v);
    }
  }

  /** A value is written as is when it is a non-empty token, and quoted with
      escapes otherwise. */
  function SerializeValue(v: string): string {
    if |v| > 0 && IsToken(v) then v else "\"" + Escape(v) + "\""
  }

  function SerializeParameter(q: Parameter): string {
    ";" + q.name + "=" + SerializeValue(q.value)
  }

  /** The parameters in insertion order, each as `;name=value`. */
  function SerializeParameters(ps: seq<Parameter>): string {
    if ps == [] then "" else SerializeParameter(ps[0]) + SerializeParameters(ps[1..])
  }

  /** What `serialize` returns: `type/subtype` and the parameters. */
  function Serialization(m: MimeType): string {
    m.mainType + "/" + m.subtype + SerializeParameters(m.parameters)
  }

  lemma {:induction false} SerializeParametersSnoc(ps: seq<Parameter>, q: Parameter)
    ensures SerializeParameters(ps + [q]) == SerializeParameters(ps) + SerializeParameter(q)
    decreases |ps|
  {
    if ps == [] {
      assert [q][1..] == [];
    } else {
      assert (ps + [q])[1..] == ps[1..] + [q];
      SerializeParametersSnoc(ps[1..], q);
    }
  }

  lemma AppendParameter(pre: string, name: string, value: string)
    ensures pre + ";" + name + "=" + value == pre + (";" + name + "=" + value)
  {
  }

  /** `serialize`: the loop over the parameter map appends one parameter per
      round. */
  method Serialize(m: MimeType) returns (serialization: string)
    ensures serialization == Serialization(m)
  {
    serialization := m.mainType + "/" + m.subtype;
    if |m.parameters| == 0 {
      return;
    }
    for i := 0 to |m.parameters|
      invariant serialization == m.mainType + "/" + m.subtype + SerializeParameters(m.parameters[..i])
    {
      ghost var before := serialization;
      var name := m.parameters[i].name;
      var value := m.parameters[i].value;
      serialization := serialization + ";";
      serialization := serialization + name;
      serialization := serialization + "=";
      if !IsToken(value) || |value| == 0 {
        value := Escape(value);
        value := "\"" + value + "\"";
      }
      serialization := serialization + value;
      AppendParameter(before, name, value);
      assert serialization == before + SerializeParameter(m.parameters[i]);
      ConcatAssoc(m.mainType + "/" + m.subtype, SerializeParameters(m.parameters[..i]), SerializeParameter(m.parameters[i]));
      SerializeParametersSnoc(m.parameters[..i], m.parameters[i]);
      assert m.parameters[..i + 1] == m.parameters[..i] + [m.parameters[i]];
    }
    assert m.parameters[..|m.parameters|] == m.parameters;
  }

  // ---------------------------------------------------------------------------
  // Parsing

  /** What `parcer` returns for `data`: the media type of the trimmed text,
      with quoted values read up to the first `"` or `\`; `None` for `null`. */
  function ParseMimeType(data: string): Option<MimeType> {
    ParseMediaType(TrimHttpWhitespace(data), NoEscape)
  }

  /** `parcer`. */
  method Parcer(data: string) returns (r: Option<MimeType>)
    ensures r == ParseMimeType(data)
  {
    var input := TrimHttpWhitespace(data);
    r := ParseMediaTypeText(input, NoEscape);
  }

  /** `getMimeTypeRecord`: the parsed record together with what its
      `toString` returns. `None` stands for the `TypeError` raised when
      `parcer` returns `null` and the method assigns `toString` on it. */
  method GetMimeTypeRecord(input: string) returns (r: Option<(MimeType, string)>)
    ensures r.None? <==> ParseMimeType(input).None?
    ensures r.Some? ==> r.value.0 == ParseMimeType(input).value && r.value.1 == Serialization(r.value.0)
  {
    var result := Parcer(input);
    if result.None? {
      return None;
    }
    var text := Serialize(result.value);
    r := Some((result.value, text));
  }

  // ---------------------------------------------------------------------------
  // Parsing what was serialised

  /** A record the parsers can produce: non-empty lower-case token type and
      subtype, and well-formed parameters. */
  predicate WellFormedMimeType(m: MimeType) {
    && |m.mainType| > 0 && IsToken(m.mainType) && NoUpper(m.mainType)
    && |m.subtype| > 0 && IsToken(m.subtype) && NoUpper(m.subtype)
    && WellFormedParameters(m.parameters)
  }

  /** A value that reads back unchanged under `mode`: without escape
      processing, only one without `"` and `\`. */
  predicate ReadsBack(v: string, mode: QuoteMode) {
    mode == NoEscape ==> forall i :: 0 <= i < |v| ==> v[i] !in QuoteOrBackslash
  }

  predicate AllReadBack(ps: seq<Parameter>, mode: QuoteMode) {
    forall i :: 0 <= i < |ps| ==> ReadsBack(ps[i].value, mode)
  }

  /** Reading with escapes undoes `Escape` and stops after the closing `"`
      at `c`. */
  lemma {:induction false} QuotedFromEscape(s: string, j: nat, v: string, c: nat)
    requires Spells(s, j, Escape(v)) && c == j + |Escape(v)| && c < |s| && s[c] == '"'
    ensures QuotedFrom(s, j) == (v, c + 1)
    decreases |v|
  {
    if v != [] {
      var head := EscapeChar(v[0]);
      var j' := j + |head|;
      SpellsSplit(s, j, head, Escape(v[1..]), j');
      QuotedFromEscape(s, j', v[1..], c);
      var rest := QuotedFrom(s, j');
      SpellsChar(s, j, head, 0);
      if v[0] in QuoteOrBackslash {
        SpellsChar(s, j, head, 1);
        assert QuotedFrom(s, j) == ([v[0]] + rest.0, rest.1);
      } else {
        assert QuotedFrom(s, j) == ([v[0]] + rest.0, rest.1);
      }
      ConsSplit(v);
    }
  }

  /** Token code points are none of the characters the parsers stop at. */
  lemma TokenAvoidsStops(t: string)
    requires IsToken(t)
    ensures forall k :: 0 <= k < |t| ==> t[k] !in Slash && t[k] !in Semicolon && t[k] !in NameStops
  {
    TokenIsNoDelimiter(t);
  }

  /** Text spelled at `i` without stop characters, followed by a stop (or
      the end) at `e`, is what a scan from `i` collects. */
  lemma ScanSpelled(s: string, i: nat, t: string, stops: set<char>, e: nat)
    requires Spells(s, i, t) && e == i + |t|
    requires forall k :: 0 <= k < |t| ==> t[k] !in stops
    requires e < |s| ==> s[e] in stops
    ensures e <= |s| && ScanUntil(s, i, stops) == e && s[i..e] == t
  {
    SpellsAt(s, i, t);
    ScanUntilUnique(s, i, stops, e);
    SpellsSlice(s, i, t);
  }

  /** A non-empty token has no trailing white space to trim. */
  lemma TrimTokenNoop(t: string)
    requires |t| > 0 && IsToken(t)
    ensures TrimEnd(t, HttpWhitespace) == t
  {
    TokenCharIsNoDelimiter(t[|t| - 1]);
  }

  /** An unquoted serialised value reads back as itself. */
  lemma TokenValueSerialized(s: string, i: nat, v: string, mode: QuoteMode, e: nat)
    requires |v| > 0 && IsToken(v)
    requires Spells(s, i, v) && e == i + |v|
    requires e < |s| ==> s[e] == ';'
    ensures ValuePart(s, i, mode) == (Some(v), e)
  {
    SpellsChar(s, i, v, 0);
    TokenCharIsNoDelimiter(v[0]);
    TokenAvoidsStops(v);
    ScanSpelled(s, i, v, Semicolon, e);
    TrimTokenNoop(v);
    ValuePartUnquoted(s, i, mode, v, e);
  }

  /** With escape processing, a quoted serialised value (opening `"` at
      `i`, escaped text from `j`, closing `"` at `c`) reads back as the value. */
  lemma QuotedEscapedSerialized(s: string, i: nat, v: string, j: nat, c: nat, e: nat)
    requires j == i + 1 && c == j + |Escape(v)| && e == c + 1
    requires i < |s| && s[i] == '"' && Spells(s, j, Escape(v)) && c < |s| && s[c] == '"'
    requires e < |s| ==> s[e] == ';'
    ensures ValuePart(s, i, Escaping) == (Some(v), e)
  {
    QuotedFromEscape(s, j, v, c);
    ScanUntilUnique(s, e, Semicolon, e);
    ValuePartQuoted(s, i, Escaping, v, e, e);
  }

  /** Without escape processing, a quoted value free of `"` and `\` reads
      back as the value; the scan for `;` starts at the closing `"`. */
  lemma QuotedPlainSerialized(s: string, i: nat, v: string, j: nat, c: nat, e: nat)
    requires forall k :: 0 <= k < |v| ==> v[k] !in QuoteOrBackslash
    requires j == i + 1 && c == j + |v| && e == c + 1
    requires i < |s| && s[i] == '"' && Spells(s, j, v) && c < |s| && s[c] == '"'
    requires e < |s| ==> s[e] == ';'
    ensures ValuePart(s, i, NoEscape) == (Some(v), e)
  {
    ScanSpelled(s, j, v, QuoteOrBackslash, c);
    ScanUntilUnique(s, c, Semicolon, e);
    ValuePartQuoted(s, i, NoEscape, v, c, e);
  }

  /** A quoted serialised value reads back as the value. */
  lemma QuotedSerialized(s: string, i: nat, v: string, mode: QuoteMode, e: nat)
    requires ReadsBack(v, mode)
    requires Spells(s, i, "\"" + Escape(v) + "\"") && e == i + |Escape(v)| + 2
    requires e < |s| ==> s[e] == ';'
    ensures ValuePart(s, i, mode) == (Some(v), e)
  {
    var w := Escape(v);
    var j := i + 1;
    var c := j + |w|;
    SpellsSplit3(s, i, "\"", w, "\"", j, c);
    SpellsChar(s, i, "\"", 0);
    SpellsChar(s, c, "\"", 0);
    if mode == Escaping {
      QuotedEscapedSerialized(s, i, v, j, c, e);
    } else {
      EscapeIdentity(v);
      QuotedPlainSerialized(s, i, v, j, c, e);
    }
  }

  /** The value part of a serialised parameter reads back as the value,
      ending where the parameter ends. */
  lemma ValuePartSerialized(s: string, i: nat, v: string, mode: QuoteMode, e: nat)
    requires ReadsBack(v, mode)
    requires Spells(s, i, SerializeValue(v)) && e == i + |SerializeValue(v)|
    requires e < |s| ==> s[e] == ';'
    ensures ValuePart(s, i, mode) == (Some(v), e)
  {
    if |v| > 0 && IsToken(v) {
      TokenValueSerialized(s, i, v, mode, e);
    } else {
      assert |SerializeValue(v)| == |Escape(v)| + 2;
      QuotedSerialized(s, i, v, mode, e);
    }
  }

  /** The name part of a serialised parameter: the round at `p` reads the
      name `n`, from `a`, and stops at the `=` at `b`. */
  lemma NameSerialized(s: string, p: nat, n: string, a: nat, b: nat)
    requires |n| > 0 && IsToken(n) && NoUpper(n)
    requires Spells(s, p, ";" + n + "=") && a == p + 1 && b == a + |n|
    ensures p < |s| && NameStart(s, p) == a && NameEnd(s, p) == b && Name(s, p) == n
    ensures b < |s| && s[b] == '='
  {
    SpellsSplit3(s, p, ";", n, "=", a, b);
    SpellsChar(s, p, ";", 0);
    SpellsChar(s, a, n, 0);
    TokenCharIsNoDelimiter(n[0]);
    SkipWhileUnique(s, a, HttpWhitespace, a);
    SpellsChar(s, b, "=", 0);
    TokenAvoidsStops(n);
    ScanSpelled(s, a, n, NameStops, b);
    AsciiLowercaseProperties(n);
  }

  /** One round of the parameter loop on a serialised parameter yields that
      parameter and ends where it ends, at `e`. */
  lemma ParamStepSerialized(s: string, p: nat, q: Parameter, mode: QuoteMode, e: nat)
    requires Storable(q) && NoUpper(q.name) && ReadsBack(q.value, mode)
    requires Spells(s, p, SerializeParameter(q)) && e == p + |SerializeParameter(q)|
    requires e < |s| ==> s[e] == ';'
    ensures ParamStep(s, p, mode) == (Some(q), e)
  {
    var n := q.name;
    var head := ";" + n + "=";
    var sv := SerializeValue(q.value);
    var a := p + 1;
    var b := a + |n|;
    var d := b + 1;
    assert SerializeParameter(q) == head + sv && |head| == |n| + 2;
    SpellsSplit(s, p, head, sv, d);
    NameSerialized(s, p, n, a, b);
    ValuePartSerialized(s, d, q.value, mode, e);
    ParamStepAtEquals(s, p, mode, q, b, d, e);
  }

  /** `s` from `p` on is the serialisation of `ps`, and recording `ps` after
      `acc` keeps the list well formed. */
  predicate SerializedFrom(s: string, p: nat, ps: seq<Parameter>, mode: QuoteMode, acc: seq<Parameter>) {
    && WellFormedParameters(acc + ps) && AllReadBack(ps, mode)
    && Spells(s, p, SerializeParameters(ps)) && p + |SerializeParameters(ps)| == |s|
  }

  /** The parameter loop over serialised parameters records exactly them. */
  lemma {:induction false} ParamsSerialized(s: string, p: nat, ps: seq<Parameter>, mode: QuoteMode, acc: seq<Parameter>)
    requires SerializedFrom(s, p, ps, mode, acc)
    ensures Params(s, p, mode, acc) == acc + ps
    decreases |ps|
  {
    if ps == [] {
      assert acc + ps == acc;
    } else {
      var e := p + |SerializeParameter(ps[0])|;
      SerializedRest(s, p, ps, mode, acc, e);
      ParamsSerializedRound(s, p, ps, mode, acc, e);
      ParamsSerialized(s, e, ps[1..], mode, acc + [ps[0]]);
    }
  }

  /** What is left after the first serialised parameter, which ends at `e`. */
  lemma SerializedRest(s: string, p: nat, ps: seq<Parameter>, mode: QuoteMode, acc: seq<Parameter>, e: nat)
    requires ps != [] && SerializedFrom(s, p, ps, mode, acc) && e == p + |SerializeParameter(ps[0])|
    ensures SerializedFrom(s, e, ps[1..], mode, acc + [ps[0]])
    ensures (acc + [ps[0]]) + ps[1..] == acc + ps
  {
    SerializedHead(s, p, ps, e);
    WellFormedHead(acc, ps);
  }

  /** The round at the first serialised parameter records it. */
  lemma ParamsSerializedRound(s: string, p: nat, ps: seq<Parameter>, mode: QuoteMode, acc: seq<Parameter>, e: nat)
    requires ps != [] && SerializedFrom(s, p, ps, mode, acc) && e == p + |SerializeParameter(ps[0])|
    ensures Params(s, p, mode, acc) == Params(s, e, mode, acc + [ps[0]])
  {
    FirstRoundSerialized(s, p, ps, mode, acc, e);
    WellFormedHead(acc, ps);
    ParamsRecordStep(s, p, mode, acc, ps[0], e);
  }

  /** The round at the first serialised parameter reads that parameter. */
  lemma FirstRoundSerialized(s: string, p: nat, ps: seq<Parameter>, mode: QuoteMode, acc: seq<Parameter>, e: nat)
    requires ps != [] && SerializedFrom(s, p, ps, mode, acc) && e == p + |SerializeParameter(ps[0])|
    ensures p < |s| && ParamStep(s, p, mode) == (Some(ps[0]), e)
  {
    SerializedHead(s, p, ps, e);
    WellFormedHead(acc, ps);
    ParamStepSerialized(s, p, ps[0], mode, e);
  }

  /** The serialisation of a non-empty list splits into its first
      parameter, followed by `;` (or the end) at `e`, and the rest. */
  lemma SerializedHead(s: string, p: nat, ps: seq<Parameter>, e: nat)
    requires ps != [] && e == p + |SerializeParameter(ps[0])|
    requires Spells(s, p, SerializeParameters(ps)) && p + |SerializeParameters(ps)| == |s|
    ensures p < |s| && Spells(s, p, SerializeParameter(ps[0])) && (e < |s| ==> s[e] == ';')
    ensures Spells(s, e, SerializeParameters(ps[1..])) && e + |SerializeParameters(ps[1..])| == |s|
  {
    var rest := SerializeParameters(ps[1..]);
    SpellsSplit(s, p, SerializeParameter(ps[0]), rest, e);
    SerializeParametersFirst(ps);
    SpellsChar(s, p, SerializeParameters(ps), 0);
    if e < |s| {
      SerializeParametersFirst(ps[1..]);
      SpellsChar(s, e, rest, 0);
    }
  }

  /** Moving the first parameter of a well-formed list onto the recorded
      ones: it is storable, lower-case and not yet recorded. */
  lemma WellFormedHead(acc: seq<Parameter>, ps: seq<Parameter>)
    requires ps != [] && WellFormedParameters(acc + ps)
    ensures Storable(ps[0]) && NoUpper(ps[0].name) && !HasName(acc, ps[0].name)
    ensures (acc + [ps[0]]) + ps[1..] == acc + ps
    ensures WellFormedParameters((acc + [ps[0]]) + ps[1..])
  {
    var q := ps[0];
    assert (acc + ps)[|acc|] == q;
    assert !HasName(acc, q.name) by {
      forall i | 0 <= i < |acc| ensures acc[i].name != q.name {
        assert (acc + ps)[i] == acc[i];
      }
    }
    MoveFirst(acc, ps);
  }

  lemma SerializeParametersFirst(ps: seq<Parameter>)
    requires ps != []
    ensures |SerializeParameters(ps)| > 0 && SerializeParameters(ps)[0] == ';'
  {
    var q := ps[0];
    var head := ";" + q.name + "=";
    assert SerializeParameter(q) == head + SerializeValue(q.value);
    assert head[0] == ';';
    assert SerializeParameter(q)[0] == ';';
  }

  lemma {:induction false} SerializeParametersLast(ps: seq<Parameter>)
    requires ps != []
    ensures SerializeParameters(ps) != []
    ensures var t := SerializeParameters(ps);
      t[|t| - 1] == '"' || IsTokenChar(t[|t| - 1])
    decreases |ps|
  {
    if |ps| > 1 {
      SerializeParametersLast(ps[1..]);
    } else {
      assert ps[1..] == [];
      var v := ps[0].value;
      if |v| > 0 && IsToken(v) {
        assert IsTokenChar(v[|v| - 1]);
      }
    }
  }

  /** Parsing the serialisation of a well-formed record gives the record
      back, provided every value reads back under `mode`. */
  lemma SerializationRoundTrip(m: MimeType, mode: QuoteMode)
    requires WellFormedMimeType(m) && AllReadBack(m.parameters, mode)
    ensures ParseMediaType(TrimHttpWhitespace(Serialization(m)), mode) == Some(m)
  {
    var s := Serialization(m);
    var e := |m.mainType| + 1 + |m.subtype|;
    SerializationTrimmed(m);
    EssenceSerialized(m, e);
    assert [] + m.parameters == m.parameters;
    ParamsSerialized(s, e, m.parameters, mode, []);
  }

  /** A serialisation neither starts nor ends with HTTP white space. */
  lemma SerializationTrimmed(m: MimeType)
    requires WellFormedMimeType(m)
    ensures TrimHttpWhitespace(Serialization(m)) == Serialization(m)
  {
    var s := Serialization(m);
    var rest := SerializeParameters(m.parameters);
    assert s == (m.mainType + "/" + m.subtype) + rest;
    assert s[0] == m.mainType[0];
    TokenCharIsNoDelimiter(m.mainType[0]);
    if m.parameters != [] {
      SerializeParametersLast(m.parameters);
      assert s[|s| - 1] == rest[|rest| - 1];
      if rest[|rest| - 1] != '"' {
        TokenCharIsNoDelimiter(rest[|rest| - 1]);
      }
    } else {
      assert s[|s| - 1] == m.subtype[|m.subtype| - 1];
      TokenCharIsNoDelimiter(m.subtype[|m.subtype| - 1]);
    }
    TrimNoop(s, HttpWhitespace);
  }

  /** The type and subtype of a serialisation read back, and the
      parameters start right after the subtype, at `e`. */
  lemma EssenceSerialized(m: MimeType, e: nat)
    requires WellFormedMimeType(m) && e == |m.mainType| + 1 + |m.subtype|
    ensures Essence(Serialization(m)) == Some((m.mainType, m.subtype, e))
    ensures Spells(Serialization(m), e, SerializeParameters(m.parameters))
    ensures e + |SerializeParameters(m.parameters)| == |Serialization(m)|
  {
    var a := |m.mainType|;
    var b := a + 1;
    var rest := SerializeParameters(m.parameters);
    SpellsParts(m.mainType, "/", m.subtype, rest, a, b, e);
    if m.parameters != [] {
      SerializeParametersFirst(m.parameters);
    }
    EssenceSpelled(Serialization(m), m.mainType, m.subtype, rest, a, b, e);
  }

  /** A text spelling a lower-case token, `/` at `a`, a lower-case token
      from `b`, and then nothing or a `;` at `e` has those tokens as its
      essence. */
  lemma EssenceSpelled(s: string, t: string, st: string, rest: string, a: nat, b: nat, e: nat)
    requires a == |t| && b == a + 1 && e == b + |st|
    requires |t| > 0 && IsToken(t) && NoUpper(t) && |st| > 0 && IsToken(st) && NoUpper(st)
    requires Spells(s, 0, t) && Spells(s, a, "/") && Spells(s, b, st)
    requires Spells(s, e, rest) && e + |rest| == |s|
    requires rest != [] ==> rest[0] == ';'
    ensures Essence(s) == Some((t, st, e))
  {
    EssenceScans(s, t, st, rest, a, b, e);
    TrimTokenNoop(st);
    AsciiLowercaseProperties(t);
    AsciiLowercaseProperties(st);
    EssenceAt(s, a, e, t, st);
  }

  /** The scans for `/` and for `;` stop right after the type and the subtype. */
  lemma EssenceScans(s: string, t: string, st: string, rest: string, a: nat, b: nat, e: nat)
    requires a == |t| && b == a + 1 && e == b + |st|
    requires IsToken(t) && IsToken(st)
    requires Spells(s, 0, t) && Spells(s, a, "/") && Spells(s, b, st)
    requires Spells(s, e, rest) && e + |rest| == |s|
    requires rest != [] ==> rest[0] == ';'
    ensures a < |s| && ScanUntil(s, 0, Slash) == a && s[..a] == t
    ensures b <= |s| && ScanUntil(s, b, Semicolon) == e && s[b..e] == st
  {
    SpellsChar(s, a, "/", 0);
    if rest != [] {
      SpellsChar(s, e, rest, 0);
    }
    TokenAvoidsStops(t);
    TokenAvoidsStops(st);
    ScanSpelled(s, 0, t, Slash, a);
    assert s[..a] == s[0..a];
    ScanSpelled(s, b, st, Semicolon, e);
  }

  /** `parcer` reads back what `serialize` wrote when no value holds `"` or `\`. */
  lemma ParcerRoundTrip(m: MimeType)
    requires WellFormedMimeType(m) && AllReadBack(m.parameters, NoEscape)
    ensures ParseMimeType(Serialization(m)) == Some(m)
  {
    SerializationRoundTrip(m, NoEscape);
  }

  /** An unquoted value may hold a `"`; `serialize` then quotes and escapes
      it, and `parcer` cuts the value at the escape, so the text of a parsed
      record does not read back as that record. */
  lemma ParcerDropsEscapedValue()
    ensures ParseMimeType("a/b;c=x\"y") == Some(MimeType("a", "b", [Parameter("c", "x\"y")]))
    ensures Serialization(MimeType("a", "b", [Parameter("c", "x\"y")])) == "a/b;c=\"x\\\"y\""
    ensures ParseMimeType("a/b;c=\"x\\\"y\"") == Some(MimeType("a", "b", [Parameter("c", "x")]))
  {
    UnquotedQuoteParsed();
    QuoteEscapedSerialization();
    EscapedQuoteParsed();
  }

  /** The essence `a/b` of a text that continues with `;` at 3. */
  lemma EssenceAB(s: string)
    requires |s| > 3 && s[..4] == "a/b;"
    ensures Essence(s) == Some(("a", "b", 3))
  {
    assert s[0] == 'a' && s[1] == '/' && s[2] == 'b' && s[3] == ';';
    ScanUntilUnique(s, 0, Slash, 1);
    ScanUntilUnique(s, 2, Semicolon, 3);
    assert s[..1] == "a" && s[2..3] == "b";
    AsciiLowercaseProperties("a");
    AsciiLowercaseProperties("b");
    EssenceAt(s, 1, 3, "a", "b");
  }

  /** The name `c` of a round at 3 in a text that continues `;c=` there. */
  lemma NameC(s: string)
    requires |s| > 6 && s[3..6] == ";c="
    ensures NameStart(s, 3) == 4 && NameEnd(s, 3) == 5 && Name(s, 3) == "c" && s[5] == '='
  {
    assert s[3] == ';' && s[4] == 'c' && s[5] == '=';
    SkipWhileUnique(s, 4, HttpWhitespace, 4);
    ScanUntilUnique(s, 4, NameStops, 5);
    assert s[4..5] == "c";
    AsciiLowercaseProperties("c");
  }

  /** `parcer` on a text without surrounding white space parses it as is. */
  lemma ParseMimeTypeTrimmed(s: string)
    requires s == [] || (s[0] !in HttpWhitespace && s[|s| - 1] !in HttpWhitespace)
    ensures ParseMimeType(s) == ParseMediaType(s, NoEscape)
  {
    TrimNoop(s, HttpWhitespace);
  }

  /** `parcer` keeps a `"` inside an unquoted value. */
  lemma UnquotedQuoteParsed()
    ensures ParseMimeType("a/b;c=x\"y") == Some(MimeType("a", "b", [Parameter("c", "x\"y")]))
  {
    var s := "a/b;c=x\"y";
    ParseMimeTypeTrimmed(s);
    EssenceAB(s);
    UnquotedQuoteStep(s);
    assert |s| == 9;
    SampleStorable();
    ParseSingleParameter(s, NoEscape, "a", "b", 3, Parameter("c", "x\"y"));
  }

  lemma SampleStorable()
    ensures Storable(Parameter("c", "x\"y")) && Storable(Parameter("c", "x"))
  {
    var v := "x\"y";
    assert IsQuotedStringChar(v[0]) && IsQuotedStringChar(v[1]) && IsQuotedStringChar(v[2]);
    assert IsQuotedStringText(v);
    assert IsTokenChar("c"[0]);
  }

  lemma UnquotedQuoteStep(s: string)
    requires s == "a/b;c=x\"y"
    ensures ParamStep(s, 3, NoEscape) == (Some(Parameter("c", "x\"y")), 9)
  {
    NameC(s);
    ScanUntilUnique(s, 6, Semicolon, 9);
    assert s[6..9] == "x\"y";
    ValuePartUnquoted(s, 6, NoEscape, "x\"y", 9);
    ParamStepAtEquals(s, 3, NoEscape, Parameter("c", "x\"y"), 5, 6, 9);
  }

  /** `serialize` quotes a value holding `"` and escapes the `"`. */
  lemma QuoteEscapedSerialization()
    ensures Serialization(MimeType("a", "b", [Parameter("c", "x\"y")])) == "a/b;c=\"x\\\"y\""
  {
    var v := "x\"y";
    assert v[1..] == "\"y" && v[1..][1..] == "y" && v[1..][1..][1..] == [];
    assert Escape(v) == "x\\\"y";
    assert !IsTokenChar(v[1]);
    assert SerializeValue(v) == "\"x\\\"y\"";
    var ps := [Parameter("c", v)];
    assert ps[1..] == [];
    assert SerializeParameters(ps) == ";c=\"x\\\"y\"";
  }

  /** `parcer` stops a quoted value at the first `\`. */
  lemma EscapedQuoteParsed()
    ensures ParseMimeType("a/b;c=\"x\\\"y\"") == Some(MimeType("a", "b", [Parameter("c", "x")]))
  {
    var s := "a/b;c=\"x\\\"y\"";
    ParseMimeTypeTrimmed(s);
    EssenceAB(s);
    EscapedQuoteStep(s);
    assert |s| == 12;
    SampleStorable();
    ParseSingleParameter(s, NoEscape, "a", "b", 3, Parameter("c", "x"));
  }

  lemma EscapedQuoteStep(s: string)
    requires s == "a/b;c=\"x\\\"y\""
    ensures ParamStep(s, 3, NoEscape) == (Some(Parameter("c", "x")), 12)
  {
    NameC(s);
    ScanUntilUnique(s, 7, QuoteOrBackslash, 8);
    assert s[7..8] == "x";
    assert QuotedValue(s, 6, NoEscape) == ("x", 8);
    ScanUntilUnique(s, 8, Semicolon, 12);
    ValuePartQuoted(s, 6, NoEscape, "x", 8, 12);
    ParamStepAtEquals(s, 3, NoEscape, Parameter("c", "x"), 5, 6, 12);
  }
}
