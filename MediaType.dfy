/** The media-type grammar both parsers share: `type "/" subtype` followed by
    `;`-separated parameters, read by a `position`-driven loop. The two
    parsers differ only in how they read a quoted parameter value. */
module MediaType {
  import opened Text
  import opened HttpGrammar

  /** How a quoted parameter value is read. */
  datatype QuoteMode =
    | Escaping  // `collectAnHTTPQuotedString`: `\x` stands for `x`, the value ends at the closing `"`
    | NoEscape  // the value stops at the first `"` or `\`

  datatype Parameter = Parameter(name: string, value: string)

  /** A parsed media type: type (`mainType`, as `type` is a Dafny keyword),
      subtype and the parameters in insertion order (the order of a
      JavaScript `Map`). */
  datatype MimeType = MimeType(mainType: string, subtype: string, parameters: seq<Parameter>)

  const QuoteOrBackslash: set<char> := {'"', '\\'}
  const NameStops: set<char> := {';', '='}
  const Semicolon: set<char> := {';'}
  const Slash: set<char> := {'/'}

  /** `parameters.has(name)`. */
  predicate HasName(ps: seq<Parameter>, name: string) {
    exists i :: 0 <= i < |ps| && ps[i].name == name
  }

  predicate DistinctNames(ps: seq<Parameter>) {
    forall i, j :: 0 <= i < j < |ps| ==> ps[i].name != ps[j].name
  }

  /** A pair the parsers store: a non-empty token name and a value of
      quoted-string code points. */
  predicate Storable(p: Parameter) {
    |p.name| > 0 && IsToken(p.name) && IsQuotedStringText(p.value)
  }

  /** What every stored parameter satisfies: storable, with a lower-case name. */
  predicate WellFormedParameters(ps: seq<Parameter>) {
    DistinctNames(ps) && forall i :: 0 <= i < |ps| ==> Storable(ps[i]) && NoUpper(ps[i].name)
  }

  /** The guarded `parameters.set(name, value)`: a storable pair whose name is
      not yet present is appended; otherwise nothing changes. */
  function Record(ps: seq<Parameter>, p: Parameter): seq<Parameter> {
    if Storable(p) && !HasName(ps, p.name) then ps + [p] else ps
  }

  // ---------------------------------------------------------------------------
  // Quoted strings

  /** What `collectAnHTTPQuotedString` collects from index `i`, just after the
      opening `"`: the value with each `\x` replaced by `x` (a final lone `\`
      kept), and the position after the closing `"`, or the end. */
  function QuotedFrom(s: string, i: nat): (r: (string, nat))
    ensures i <= |s| ==> i <= r.1 <= |s|
    ensures i > |s| ==> r == ("", i)
    decreases |s| - i
  {
    if i >= |s| then ("", i)
    else if s[i] == '"' then ("", i + 1)
    else if s[i] == '\\' then
      if i + 1 >= |s| then ("\\", i + 1)
      else
        var rest := QuotedFrom(s, i + 2);
        ([s[i + 1]] + rest.0, rest.1)
    else
      var rest := QuotedFrom(s, i + 1);
      ([s[i]] + rest.0, rest.1)
  }

  /** The quoted value that starts with the `"` at `at`, and the position
      where the parser continues. */
  function QuotedValue(s: string, at: nat, mode: QuoteMode): (r: (string, nat))
    requires at < |s|
    ensures at < r.1 <= |s|
  {
    match mode
    case Escaping => QuotedFrom(s, at + 1)
    case NoEscape =>
      var e := ScanUntil(s, at + 1, QuoteOrBackslash);
      (s[at + 1..e], e)
  }

  /** `collectAnHTTPQuotedString(input, position)`, with `start` the position
      of the opening `"`. */
  method CollectAnHttpQuotedString(input: string, start: nat) returns (value: string, position: nat)
    ensures (value, position) == QuotedFrom(input, start + 1)
  {
    ghost var whole := QuotedFrom(input, start + 1);
    value := "";
    position := start + 1;
    while true
      invariant value + QuotedFrom(input, position).0 == whole.0 && QuotedFrom(input, position).1 == whole.1
      decreases |input| - position
    {
      while position < |input| && input[position] != '"' && input[position] != '\\'
        invariant value + QuotedFrom(input, position).0 == whole.0 && QuotedFrom(input, position).1 == whole.1
        decreases |input| - position
      {
        ghost var rest := QuotedFrom(input, position + 1);
        assert QuotedFrom(input, position) == ([input[position]] + rest.0, rest.1);
        ConcatAssoc(value, [input[position]], rest.0);
        value := value + [input[position]];
        position := position + 1;
      }
      if position >= |input| {
        assert value + "" == value;
        break;
      }
      var quoteOrBackslash := input[position];
      position := position + 1;
      if quoteOrBackslash == '\\' {
        if position >= |input| {
          assert QuotedFrom(input, position - 1) == ("\\", position);
          value := value + "\\";
          break;
        }
        ghost var rest := QuotedFrom(input, position + 1);
        assert QuotedFrom(input, position - 1) == ([input[position]] + rest.0, rest.1);
        ConcatAssoc(value, [input[position]], rest.0);
        value := value + [input[position]];
        position := position + 1;
      } else {
        assert value + "" == value;
        break;
      }
    }
  }

  // ---------------------------------------------------------------------------
  // The scanning loops

  /** The loop `while (position < input.length && input[position] is not in
      stops) { text += input[position]; position += 1; }`. */
  method CollectUntil(input: string, start: nat, stops: set<char>) returns (text: string, position: nat)
    requires start <= |input|
    ensures position == ScanUntil(input, start, stops) && text == input[start..position]
  {
    text := "";
    position := start;
    while position < |input| && input[position] !in stops
      invariant start <= position <= |input| && text == input[start..position]
      invariant forall k :: start <= k < position ==> input[k] !in stops
      decreases |input| - position
    {
      text := text + [input[position]];
      position := position + 1;
    }
    ScanUntilUnique(input, start, stops, position);
  }

  /** The same loop without collecting: it only moves `position`. */
  method SkipUntil(input: string, start: nat, stops: set<char>) returns (position: nat)
    requires start <= |input|
    ensures position == ScanUntil(input, start, stops)
  {
    position := start;
    while position < |input| && input[position] !in stops
      invariant start <= position <= |input|
      invariant forall k :: start <= k < position ==> input[k] !in stops
      decreases |input| - position
    {
      position := position + 1;
    }
    ScanUntilUnique(input, start, stops, position);
  }

  /** `while (isHTTPWhitespaceChar(input[position])) position += 1;` (past
      the end, `input[position]` is `undefined`, which is not white space). */
  method SkipHttpWhitespace(input: string, start: nat) returns (position: nat)
    requires start <= |input|
    ensures position == SkipWhile(input, start, HttpWhitespace)
  {
    position := start;
    while position < |input| && IsHttpWhitespace(input[position])
      invariant start <= position <= |input|
      invariant forall k :: start <= k < position ==> input[k] in HttpWhitespace
      decreases |input| - position
    {
      position := position + 1;
    }
    SkipWhileUnique(input, start, HttpWhitespace, position);
  }

  // ---------------------------------------------------------------------------
  // Type, subtype and parameters

  /** The value part of a round, from `i` (just after the `=`): a quoted
      value and the position of the next `;`, or the right-trimmed text up to
      the next `;`, absent when it trims to nothing. */
  function ValuePart(s: string, i: nat, mode: QuoteMode): (r: (Option<string>, nat))
    requires i <= |s|
    ensures i <= r.1 <= |s|
  {
    if i < |s| && s[i] == '"' then
      var quoted := QuotedValue(s, i, mode);
      (Some(quoted.0), ScanUntil(s, quoted.1, Semicolon))
    else
      var valueEnd := ScanUntil(s, i, Semicolon);
      var value := TrimEnd(s[i..valueEnd], HttpWhitespace);
      (if value == "" then None else Some(value), valueEnd)
  }

  /** One round of the parameter loop, entered at `p` (the `;` that ended the
      previous part): the pair it offers to `Record` (none when the name runs
      into `;` or an unquoted value trims to nothing) and where the next
      round starts. */
  function ParamStep(s: string, p: nat, mode: QuoteMode): (r: (Option<Parameter>, nat))
    requires p < |s|
    ensures p < r.1 <= |s|
  {
    var nameEnd := NameEnd(s, p);
    if nameEnd < |s| && s[nameEnd] == ';' then (None, nameEnd)
    else
      var value := ValuePart(s, if nameEnd < |s| then nameEnd + 1 else nameEnd, mode);
      (if value.0.Some? then Some(Parameter(Name(s, p), value.0.value)) else None, value.1)
  }

  /** A round whose name ends at a `=` at `b` and whose value, from `d`, is
      present offers that name and value and continues where the value part
      ends. */
  lemma ParamStepAtEquals(s: string, p: nat, mode: QuoteMode, q: Parameter, b: nat, d: nat, next: nat)
    requires p < |s| && NameEnd(s, p) == b && b < |s| && s[b] == '=' && d == b + 1 && Name(s, p) == q.name
    requires ValuePart(s, d, mode) == (Some(q.value), next)
    ensures ParamStep(s, p, mode) == (Some(q), next)
  {
  }

  /** An unquoted value part that does not trim to nothing. */
  lemma ValuePartUnquoted(s: string, i: nat, mode: QuoteMode, v: string, e: nat)
    requires i <= |s| && (i < |s| ==> s[i] != '"') && ScanUntil(s, i, Semicolon) == e
    requires TrimEnd(s[i..e], HttpWhitespace) == v && v != ""
    ensures ValuePart(s, i, mode) == (Some(v), e)
  {
  }

  /** A quoted value part: the quoted value, then up to the next `;`. */
  lemma ValuePartQuoted(s: string, i: nat, mode: QuoteMode, v: string, c: nat, e: nat)
    requires i < |s| && s[i] == '"' && QuotedValue(s, i, mode) == (v, c) && ScanUntil(s, c, Semicolon) == e
    ensures ValuePart(s, i, mode) == (Some(v), e)
  {
  }

  /** Where the name of the round at `p` starts: after the `;` and any HTTP
      white space. */
  function NameStart(s: string, p: nat): (r: nat)
    requires p < |s|
    ensures p < r <= |s|
  {
    SkipWhile(s, p + 1, HttpWhitespace)
  }

  /** Where the name of the round at `p` ends: at the next `;` or `=`. */
  function NameEnd(s: string, p: nat): (r: nat)
    requires p < |s|
    ensures NameStart(s, p) <= r <= |s|
  {
    ScanUntil(s, NameStart(s, p), NameStops)
  }

  /** The lower-cased name of the round at `p`. */
  function Name(s: string, p: nat): string
    requires p < |s|
  {
    AsciiLowercase(s[NameStart(s, p)..NameEnd(s, p)])
  }

  /** The parameters recorded by the rounds from `p` on, added to `acc`. */
  function Params(s: string, p: nat, mode: QuoteMode, acc: seq<Parameter>): seq<Parameter>
    decreases |s| - p
  {
    if p >= |s| then acc
    else
      var step := ParamStep(s, p, mode);
      Params(s, step.1, mode, if step.0.Some? then Record(acc, step.0.value) else acc)
  }

  /** A round that offers a new storable pair appends it and moves on. */
  lemma ParamsRecordStep(s: string, p: nat, mode: QuoteMode, acc: seq<Parameter>, q: Parameter, next: nat)
    requires p < |s| && ParamStep(s, p, mode) == (Some(q), next)
    requires Storable(q) && !HasName(acc, q.name)
    ensures Params(s, p, mode, acc) == Params(s, next, mode, acc + [q])
  {
  }

  /** The type, the subtype and the position after the subtype, or `None`
      when the type is empty or not a token, no `/` follows it, or the
      right-trimmed subtype is empty or not a token. */
  function Essence(s: string): (r: Option<(string, string, nat)>)
    ensures r.Some? ==> r.value.2 <= |s|
  {
    var typeEnd := ScanUntil(s, 0, Slash);
    var mainType := s[..typeEnd];
    if |mainType| == 0 || !IsToken(mainType) || typeEnd >= |s| then None
    else
      var subtypeEnd := ScanUntil(s, typeEnd + 1, Semicolon);
      var subtype := TrimEnd(s[typeEnd + 1..subtypeEnd], HttpWhitespace);
      if |subtype| == 0 || !IsToken(subtype) then None
      else Some((AsciiLowercase(mainType), AsciiLowercase(subtype), subtypeEnd))
  }

  /** A text whose type ends at a `/` at `a` and whose subtype, already
      trimmed, ends at `b` has those as its (lower-cased) essence. */
  lemma EssenceAt(s: string, a: nat, b: nat, t: string, st: string)
    requires ScanUntil(s, 0, Slash) == a && a < |s| && s[..a] == t && |t| > 0 && IsToken(t)
    requires a + 1 <= |s| && ScanUntil(s, a + 1, Semicolon) == b
    requires TrimEnd(s[a + 1..b], HttpWhitespace) == st && |st| > 0 && IsToken(st)
    ensures Essence(s) == Some((AsciiLowercase(t), AsciiLowercase(st), b))
  {
  }

  /** Without a `/` there is no essence. */
  lemma EssenceNoSlash(s: string)
    requires forall k :: 0 <= k < |s| ==> s[k] != '/'
    ensures Essence(s).None?
  {
    ScanUntilUnique(s, 0, Slash, |s|);
  }

  /** With the first `/` at `a` and the first `;` after it at `b` (or none),
      there is no essence exactly when the type before `a` is empty or not
      a token, or the subtype between them, right-trimmed, is empty or not a
      token; otherwise the essence is the two lower-cased, ending at `b`. */
  lemma EssenceSplit(s: string, a: nat, b: nat)
    requires a < |s| && s[a] == '/' && forall k :: 0 <= k < a ==> s[k] != '/'
    requires a + 1 <= b <= |s| && (b < |s| ==> s[b] == ';') && forall k :: a < k < b ==> s[k] != ';'
    ensures var t, st := s[..a], TrimEnd(s[a + 1..b], HttpWhitespace);
      && (Essence(s).None? <==> |t| == 0 || !IsToken(t) || |st| == 0 || !IsToken(st))
      && (Essence(s).Some? ==> Essence(s).value == (AsciiLowercase(t), AsciiLowercase(st), b))
  {
    ScanUntilUnique(s, 0, Slash, a);
    ScanUntilUnique(s, a + 1, Semicolon, b);
  }

  /** The media type an already trimmed text spells. */
  function ParseMediaType(s: string, mode: QuoteMode): Option<MimeType> {
    match Essence(s)
    case None => None
    case Some(e) => Some(MimeType(e.0, e.1, Params(s, e.2, mode, [])))
  }

  /** A text whose essence ends at `e` and whose only round offers a
      storable pair parses to a single parameter. */
  lemma ParseSingleParameter(s: string, mode: QuoteMode, t: string, st: string, e: nat, q: Parameter)
    requires Essence(s) == Some((t, st, e)) && e < |s| && ParamStep(s, e, mode) == (Some(q), |s|) && Storable(q)
    ensures ParseMediaType(s, mode) == Some(MimeType(t, st, [q]))
  {
    ParamsRecordStep(s, e, mode, [], q, |s|);
    assert [] + [q] == [q];
  }

  /** The loops of both parsers from the type on: type, `/`, subtype, then
      the parameter loop. */
  method ParseMediaTypeText(input: string, mode: QuoteMode) returns (r: Option<MimeType>)
    ensures r == ParseMediaType(input, mode)
  {
    var mainType, position := CollectUntil(input, 0, Slash);
    if |mainType| == 0 || !IsToken(mainType) {
      return None;
    }
    if position >= |input| {
      return None;
    }
    position := position + 1;
    var subtype;
    subtype, position := CollectUntil(input, position, Semicolon);
    subtype := TrimTrailingHttpWhitespace(subtype);
    if |subtype| == 0 || !IsToken(subtype) {
      return None;
    }
    var parameters := ParseParameters(input, position, mode);
    r := Some(MimeType(AsciiLowercase(mainType), AsciiLowercase(subtype), parameters));
  }

  /** The parameter loop: from the position after the subtype to the end of
      the input, one round per `;`-separated part. */
  method ParseParameters(input: string, start: nat, mode: QuoteMode) returns (parameters: seq<Parameter>)
    requires start <= |input|
    ensures parameters == Params(input, start, mode, [])
  {
    parameters := [];
    var position := start;
    while position < |input|
      invariant start <= position <= |input|
      invariant Params(input, position, mode, parameters) == Params(input, start, mode, [])
      decreases |input| - position
    {
      parameters, position := ParameterRound(input, position, mode, parameters);
    }
  }

  /** The body of the parameter loop (a `continue` ends the round early):
      skip the `;` and white space, read the name up to `;` or `=`, then the
      value, and record the pair. */
  method ParameterRound(input: string, round: nat, mode: QuoteMode, parameters: seq<Parameter>)
    returns (recorded: seq<Parameter>, position: nat)
    requires round < |input|
    ensures var step := ParamStep(input, round, mode);
      position == step.1 && recorded == if step.0.Some? then Record(parameters, step.0.value) else parameters
  {
    recorded := parameters;
    var parameterName;
    parameterName, position := ReadName(input, round);
    if position < |input| {
      if input[position] == ';' {
        assert ParamStep(input, round, mode) == (None, position);
        return;
      }
      position := position + 1;
    }
    var parameterValue;
    parameterValue, position := ReadValue(input, position, mode);
    if parameterValue.None? {
      assert ParamStep(input, round, mode) == (None, position);
      return;
    }
    var parameter := Parameter(parameterName, parameterValue.value);
    assert ParamStep(input, round, mode) == (Some(parameter), position);
    if Storable(parameter) && !HasName(recorded, parameterName) {
      recorded := recorded + [parameter];
    }
  }

  /** The name part of the loop body: skip the `;` and white space, collect
      up to `;` or `=`, lower-case. */
  method ReadName(input: string, round: nat) returns (name: string, position: nat)
    requires round < |input|
    ensures position == NameEnd(input, round) && name == Name(input, round)
  {
    position := SkipHttpWhitespace(input, round + 1);
    name, position := CollectUntil(input, position, NameStops);
    name := AsciiLowercase(name);
  }

  /** The value part of the loop body; `None` where an empty unquoted value
      makes the body `continue`. */
  method ReadValue(input: string, start: nat, mode: QuoteMode) returns (value: Option<string>, position: nat)
    requires start <= |input|
    ensures (value, position) == ValuePart(input, start, mode)
  {
    var parameterValue := "";
    position := start;
    if position < |input| && input[position] == '"' {
      if mode == Escaping {
        parameterValue, position := CollectAnHttpQuotedString(input, position);
      } else {
        parameterValue, position := CollectUntil(input, position + 1, QuoteOrBackslash);
      }
      position := SkipUntil(input, position, Semicolon);
      value := Some(parameterValue);
    } else {
      parameterValue, position := CollectUntil(input, position, Semicolon);
      parameterValue := TrimTrailingHttpWhitespace(parameterValue);
      value := if parameterValue == "" then None else Some(parameterValue);
    }
  }

  // ---------------------------------------------------------------------------
  // Properties of the parameter loop

  /** Recording keeps what is there and, given a lower-case name, keeps the
      parameters well formed. */
  lemma RecordWellFormed(ps: seq<Parameter>, p: Parameter)
    requires WellFormedParameters(ps) && NoUpper(p.name)
    ensures WellFormedParameters(Record(ps, p))
    ensures ps <= Record(ps, p)
  {
    if Storable(p) && !HasName(ps, p.name) {
      var r := ps + [p];
      forall i, j | 0 <= i < j < |r| ensures r[i].name != r[j].name {
        if j == |ps| {
          assert ps[i].name != p.name;
        }
      }
    }
  }

  /** The name a round offers is lower-case. */
  lemma ParamStepLowercase(s: string, p: nat, mode: QuoteMode)
    requires p < |s|
    ensures ParamStep(s, p, mode).0.Some? ==> NoUpper(ParamStep(s, p, mode).0.value.name)
  {
    AsciiLowercaseProperties(s[NameStart(s, p)..NameEnd(s, p)]);
  }

  /** The loop only ever appends: whatever is recorded first stays, so a later
      parameter with the same name never replaces an earlier one; and the
      stored parameters are storable with distinct lower-case names. */
  lemma {:induction false} ParamsProperties(s: string, p: nat, mode: QuoteMode, acc: seq<Parameter>)
    requires WellFormedParameters(acc)
    ensures WellFormedParameters(Params(s, p, mode, acc))
    ensures acc <= Params(s, p, mode, acc)
    decreases |s| - p
  {
    if p < |s| {
      var step := ParamStep(s, p, mode);
      var next := if step.0.Some? then Record(acc, step.0.value) else acc;
      if step.0.Some? {
        ParamStepLowercase(s, p, mode);
        RecordWellFormed(acc, step.0.value);
      }
      ParamsProperties(s, step.1, mode, next);
    }
  }

  /** A parsed media type has a non-empty lower-case token type and subtype
      and well-formed parameters. */
  lemma ParseMediaTypeWellFormed(s: string, mode: QuoteMode)
    requires ParseMediaType(s, mode).Some?
    ensures var m := ParseMediaType(s, mode).value;
      |m.mainType| > 0 && IsToken(m.mainType) && NoUpper(m.mainType) &&
      |m.subtype| > 0 && IsToken(m.subtype) && NoUpper(m.subtype) &&
      WellFormedParameters(m.parameters)
  {
    var e := Essence(s).value;
    var typeEnd := ScanUntil(s, 0, Slash);
    AsciiLowercaseProperties(s[..typeEnd]);
    var subtypeEnd := ScanUntil(s, typeEnd + 1, Semicolon);
    AsciiLowercaseProperties(TrimEnd(s[typeEnd + 1..subtypeEnd], HttpWhitespace));
    ParamsProperties(s, e.2, mode, []);
  }
}
