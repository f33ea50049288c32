/** Locating the source-map directive in a module's text: the two regular
    expressions of `src/index.js`,

      `/\*\s*[@#]\s*sourceMappingURL\s*=\s*([^\s]*)(?![\S\s]*sourceMappingURL)\s*\*\/`
      `\/\/\s*[@#]\s*sourceMappingURL\s*=\s*([^\s]*)(?![\S\s]*sourceMappingURL)($|\n|\r\n?)`

    with `String.prototype.match` (the leftmost match, its alternatives tried
    in backtracking order), the block form tried before the line form. */
module Directive {
  import opened Text
  import opened HttpGrammar

  /** `\s`: the white space and line terminators of ECMAScript. */
  const JsWhitespace: set<char> := {
    '\t', '\n', '\U{000B}', '\U{000C}', '\r', ' ', '\U{00A0}', '\U{1680}',
    '\U{2000}', '\U{2001}', '\U{2002}', '\U{2003}', '\U{2004}', '\U{2005}',
    '\U{2006}', '\U{2007}', '\U{2008}', '\U{2009}', '\U{200A}',
    '\U{2028}', '\U{2029}', '\U{202F}', '\U{205F}', '\U{3000}', '\U{FEFF}'}

  const Keyword: string := "sourceMappingURL"

  datatype Form = Block | Line

  /** A match: `match[0]` is `s[start..end]` and the URL `match[1]` is
      `s[urlStart..urlEnd]`. */
  datatype DirectiveMatch = DirectiveMatch(start: nat, end: nat, urlStart: nat, urlEnd: nat)

  function Opening(form: Form): string {
    match form
    case Block => "/*"
    case Line => "//"
  }

  // ---------------------------------------------------------------------------
  // The expression, piece by piece

  /** `/\*` or `//`, then `\s*[@#]\s*sourceMappingURL\s*=`, from `p`: the
      position `at` of `[@#]`, the position `key` of `sourceMappingURL`, and
      the position `eq` just after `=`. Each `\s*` here is followed by a
      character outside `\s`, so it takes the longest run and backtracking
      cannot change it. */
  function Header(s: string, p: nat, form: Form): (r: Option<(nat, nat, nat)>)
    requires p <= |s|
    ensures r.Some? ==> HeaderShape(s, p, form, r.value.0, r.value.1, r.value.2)
  {
    if !OccursAt(s, p, Opening(form)) then None
    else
      var at := SkipWhile(s, p + 2, JsWhitespace);
      if at == |s| || (s[at] != '@' && s[at] != '#') then None
      else
        var key := SkipWhile(s, at + 1, JsWhitespace);
        if !OccursAt(s, key, Keyword) then None
        else
          var e := SkipWhile(s, key + 16, JsWhitespace);
          if e == |s| || s[e] != '=' then None else Some((at, key, e + 1))
  }

  /** What the header promises: the opening at `p`, `[@#]` at `at` and
      `sourceMappingURL` at `key`, separated by white space only, then white
      space and `=` just before `eq`. */
  ghost predicate HeaderShape(s: string, p: nat, form: Form, at: nat, key: nat, eq: nat) {
    && OccursAt(s, p, Opening(form))
    && p + 2 <= at < key && key + 17 <= eq <= |s|
    && (s[at] == '@' || s[at] == '#') && OccursAt(s, key, Keyword) && s[eq - 1] == '='
    && (forall i :: p + 2 <= i < at ==> s[i] in JsWhitespace)
    && (forall i :: at < i < key ==> s[i] in JsWhitespace)
    && (forall i :: key + 16 <= i < eq - 1 ==> s[i] in JsWhitespace)
  }

  /** `(?![\S\s]*sourceMappingURL)` at `c`. */
  ghost predicate NoKeywordFrom(s: string, c: nat) {
    forall i: nat :: c <= i ==> !OccursAt(s, i, Keyword)
  }

  /** What follows the lookahead, from `c`: `\s*\*\/` for the block form,
      `($|\n|\r\n?)` for the line form (its alternatives in order, `$`
      being the end of the text); the end of the match. */
  function Tail(s: string, c: nat, form: Form): (r: Option<nat>)
    requires c <= |s|
    ensures r.Some? ==> c <= r.value <= |s|
    ensures r.Some? && form == Line ==>
      || (r.value == c == |s|)
      || (r.value == c + 1 && (s[c] == '\n' || s[c] == '\r'))
      || (r.value == c + 2 && s[c] == '\r' && s[c + 1] == '\n')
  {
    match form
    case Block =>
      var e := SkipWhile(s, c, JsWhitespace);
      if e + 1 < |s| && s[e] == '*' && s[e + 1] == '/' then Some(e + 2) else None
    case Line =>
      if c == |s| then Some(c)
      else if s[c] == '\n' then Some(c + 1)
      else if s[c] == '\r' then Some(if c + 1 < |s| && s[c + 1] == '\n' then c + 2 else c + 1)
      else None
  }

  /** The capture may end at `c`: the lookahead and the tail succeed there. */
  predicate Passes(s: string, c: nat, form: Form)
    requires c <= |s|
  {
    IndexOfFrom(s, Keyword, c).None? && Tail(s, c, form).Some?
  }

  /** `\s*([^\s]*)` after `=` at `eq`, with `w` the end of the white space
      after `eq`, in backtracking order: the greedy `\s*` first keeps all of
      that white space and the capture gives back characters one at a time
      from its longest run; then `\s*` gives back white space, the capture
      being empty. Either way the capture's end `c` falls by one each time,
      so this is the largest end from `c` down to `eq` that passes. */
  function TryCapture(s: string, p: nat, eq: nat, w: nat, c: nat, form: Form): (r: Option<DirectiveMatch>)
    requires eq <= w <= |s| && eq <= c <= |s|
    ensures r.Some? ==> var m := r.value;
      && m.start == p && eq <= m.urlStart <= m.urlEnd <= c && m.urlStart == (if m.urlEnd < w then m.urlEnd else w)
      && Passes(s, m.urlEnd, form) && Tail(s, m.urlEnd, form) == Some(m.end)
      && forall d :: m.urlEnd < d <= c ==> !Passes(s, d, form)
    ensures r.None? ==> forall d :: eq <= d <= c ==> !Passes(s, d, form)
    decreases c
  {
    if Passes(s, c, form) then Some(DirectiveMatch(p, Tail(s, c, form).value, if c < w then c else w, c))
    else if c == eq then None
    else TryCapture(s, p, eq, w, c - 1, form)
  }

  /** The expression matched from `p`. */
  function MatchAt(s: string, p: nat, form: Form): (r: Option<DirectiveMatch>)
    requires p <= |s|
    ensures r.Some? ==> Header(s, p, form).Some? && r.value.start == p
    ensures r.Some? ==> MatchShape(s, form, Header(s, p, form).value.2, r.value)
  {
    match Header(s, p, form)
    case None => None
    case Some(h) =>
      var w := SkipWhile(s, h.2, JsWhitespace);
      var r := TryCapture(s, p, h.2, w, ScanUntil(s, w, JsWhitespace), form);
      if r.Some? then NoKeywordAfter(s, r.value.urlEnd); r else r
  }

  /** What a match promises after the header ending at `eq`: white space,
      then the URL, a run without white space, with no `sourceMappingURL`
      after it, then the tail. */
  ghost predicate MatchShape(s: string, form: Form, eq: nat, m: DirectiveMatch) {
    && eq <= m.urlStart <= m.urlEnd <= m.end <= |s|
    && (forall i :: eq <= i < m.urlStart ==> s[i] in JsWhitespace)
    && (forall i :: m.urlStart <= i < m.urlEnd ==> s[i] !in JsWhitespace)
    && NoKeywordFrom(s, m.urlEnd) && Tail(s, m.urlEnd, form) == Some(m.end)
  }

  lemma NoKeywordAfter(s: string, c: nat)
    requires IndexOfFrom(s, Keyword, c).None?
    ensures NoKeywordFrom(s, c)
  {
  }

  /** The first index from `p` on whose flag is set. */
  function FirstTrue(b: seq<bool>, p: nat): (r: Option<nat>)
    requires p <= |b|
    ensures r.Some? ==> p <= r.value < |b| && b[r.value] && forall k :: p <= k < r.value ==> !b[k]
    ensures r.None? ==> forall k :: p <= k < |b| ==> !b[k]
    decreases |b| - p
  {
    if p == |b| then None else if b[p] then Some(p) else FirstTrue(b, p + 1)
  }

  /** The first set flag from `p` on is the one at `q`. */
  lemma {:induction false} FirstTrueIs(b: seq<bool>, p: nat, q: nat)
    requires p <= q < |b| && b[q] && forall k :: p <= k < q ==> !b[k]
    ensures FirstTrue(b, p) == Some(q)
    decreases q - p
  {
    if p < q {
      FirstTrueIs(b, p + 1, q);
    }
  }

  /** For each start `0..|s|`, whether the expression matches there. */
  function Starts(s: string, form: Form): (r: seq<bool>)
    ensures |r| == |s| + 1
  {
    seq(|s| + 1, k requires 0 <= k <= |s| => MatchAt(s, k, form).Some?)
  }

  /** No match of the expression starts in `[p, q)`. */
  ghost predicate NoMatchBetween(s: string, p: nat, q: nat, form: Form) {
    forall k: nat :: p <= k < q && k <= |s| ==> MatchAt(s, k, form).None?
  }

  /** `s.match(expression)` from `p` on: the match at the leftmost start, or
      none when the expression matches nowhere. */
  function FirstMatch(s: string, p: nat, form: Form): (r: Option<DirectiveMatch>)
    requires p <= |s|
    ensures r.Some? ==> p <= r.value.start <= |s| && MatchAt(s, r.value.start, form) == r
  {
    var k := FirstTrue(Starts(s, form), p);
    if k.None? then None else assert Starts(s, form)[k.value]; MatchAt(s, k.value, form)
  }

  /** The match found is the leftmost one; none is found only when there is
      none to find. */
  lemma FirstMatchLeftmost(s: string, p: nat, form: Form)
    requires p <= |s|
    ensures FirstMatch(s, p, form).Some? ==> NoMatchBetween(s, p, FirstMatch(s, p, form).value.start, form)
    ensures FirstMatch(s, p, form).None? ==> NoMatchBetween(s, p, |s| + 1, form)
  {
    var b := Starts(s, form);
    var e := if FirstTrue(b, p).Some? then FirstTrue(b, p).value else |s| + 1;
    forall k: nat | p <= k < e && k <= |s| ensures MatchAt(s, k, form).None? {
      assert !b[k];
    }
  }

  /** Conversely, a match at `q` with none before it is the one found. */
  lemma FirstMatchIs(s: string, p: nat, q: nat, form: Form)
    requires p <= q <= |s| && MatchAt(s, q, form).Some?
    requires NoMatchBetween(s, p, q, form)
    ensures FirstMatch(s, p, form) == MatchAt(s, q, form)
  {
    var b := Starts(s, form);
    assert b[q];
    forall k | p <= k < q ensures !b[k] {
      assert MatchAt(s, k, form).None?;
    }
    FirstTrueIs(b, p, q);
  }

  /** `input.match(regex1) || input.match(regex2)`. */
  function Locate(s: string): (r: Option<DirectiveMatch>)
    ensures r.Some? ==> r.value.start < r.value.urlStart <= r.value.urlEnd <= r.value.end <= |s|
  {
    var block := FirstMatch(s, 0, Block);
    var r := if block.Some? then block else FirstMatch(s, 0, Line);
    if r.Some? then LocatedFacts(s, r.value, if block.Some? then Block else Line); r else r
  }

  /** The directive located is the last one: its URL has no white space and
      `sourceMappingURL` occurs nowhere after it. The block form wins
      whenever it matches. */
  lemma LocateSound(s: string)
    ensures Locate(s).Some? ==> var m := Locate(s).value;
      && (forall i :: m.urlStart <= i < m.urlEnd ==> s[i] !in JsWhitespace)
      && (forall i: nat :: OccursAt(s, i, Keyword) ==> i < m.urlEnd)
    ensures FirstMatch(s, 0, Block).Some? ==> Locate(s) == FirstMatch(s, 0, Block)
  {
    var block := FirstMatch(s, 0, Block);
    var r := if block.Some? then block else FirstMatch(s, 0, Line);
    if r.Some? {
      LocatedFacts(s, r.value, if block.Some? then Block else Line);
    }
  }

  lemma LocatedFacts(s: string, m: DirectiveMatch, form: Form)
    requires m.start <= |s| && MatchAt(s, m.start, form) == Some(m)
    ensures m.start < m.urlStart <= m.urlEnd <= m.end <= |s|
    ensures forall i :: m.urlStart <= i < m.urlEnd ==> s[i] !in JsWhitespace
    ensures forall i: nat :: OccursAt(s, i, Keyword) ==> i < m.urlEnd
  {
    var h := Header(s, m.start, form).value;
    assert HeaderShape(s, m.start, form, h.0, h.1, h.2);
    assert NoKeywordFrom(s, m.urlEnd);
  }

  /** The URL, `match[1]`. */
  function Url(s: string, m: DirectiveMatch): string
    requires m.urlStart <= m.urlEnd <= |s|
  {
    s[m.urlStart..m.urlEnd]
  }

  // ---------------------------------------------------------------------------
  // Properties

  /** A text in which `sourceMappingURL` does not occur has no directive. */
  lemma NoKeywordNoDirective(s: string)
    requires forall i: nat :: !OccursAt(s, i, Keyword)
    ensures Locate(s).None?
  {
    var block, line := FirstMatch(s, 0, Block), FirstMatch(s, 0, Line);
    MatchHasKeyword(s, block, Block);
    MatchHasKeyword(s, line, Line);
  }

  /** Every match contains `sourceMappingURL`. */
  lemma MatchHasKeyword(s: string, m: Option<DirectiveMatch>, form: Form)
    requires m.Some? ==> m.value.start <= |s| && MatchAt(s, m.value.start, form) == m
    ensures m.Some? ==> OccursAt(s, Header(s, m.value.start, form).value.1, Keyword)
  {
    if m.Some? {
      var h := Header(s, m.value.start, form).value;
      assert HeaderShape(s, m.value.start, form, h.0, h.1, h.2);
    }
  }

  /** The line form ends its match at the end of the text or just after the
      line terminator `\n`, `\r\n` or `\r` that follows the URL. */
  lemma LineTerminated(s: string, m: DirectiveMatch)
    requires m.start <= |s| && MatchAt(s, m.start, Line) == Some(m)
    ensures || (m.end == m.urlEnd == |s|)
            || (m.end == m.urlEnd + 1 && (s[m.urlEnd] == '\n' || s[m.urlEnd] == '\r'))
            || (m.end == m.urlEnd + 2 && s[m.urlEnd] == '\r' && s[m.urlEnd + 1] == '\n')
  {
  }

  // ---------------------------------------------------------------------------
  // A directive written out is found

  /** Every `sourceMappingURL` in `s` other than the one of a header
      written at `d` lies wholly before `d`: earlier directives and mentions
      are allowed, later ones are not. */
  ghost predicate KeywordsBefore(s: string, d: nat) {
    forall i: nat :: OccursAt(s, i, Keyword) ==> i == d + 4 || i + 16 <= d
  }

  /** `sourceMappingURL` occurs in `s` only in a header written at `d`. */
  ghost predicate OnlyKeyword(s: string, d: nat) {
    forall i: nat :: OccursAt(s, i, Keyword) ==> i == d + 4
  }

  /** `match[0]` of a directive written at `d` occurs nowhere before `d`:
      an earlier copy would hold a second `sourceMappingURL`. */
  lemma FirstCopy(s: string, d: nat, e: nat)
    requires OccursAt(s, d + 4, Keyword) && OnlyKeyword(s, d) && d + 20 <= e <= |s|
    ensures IndexOfFrom(s, s[d..e], 0) == Some(d)
  {
    forall j | 0 <= j < d ensures !OccursAt(s, j, s[d..e]) {
      CopyHasKeyword(s, j, d, e);
    }
    assert OccursAt(s, d, s[d..e]);
    IndexOfIs(s, s[d..e], d);
  }

  lemma CopyHasKeyword(s: string, j: nat, d: nat, e: nat)
    requires OccursAt(s, d + 4, Keyword) && d + 20 <= e <= |s|
    ensures OccursAt(s, j, s[d..e]) ==> OccursAt(s, j + 4, Keyword)
  {
    if OccursAt(s, j, s[d..e]) {
      var n := e - d;
      assert s[j..j + n] == s[d..e];
      forall k | 0 <= k < 16 ensures s[j + 4..j + 20][k] == Keyword[k] {
        assert s[j + 4 + k] == s[j..j + n][4 + k];
        assert s[d + 4 + k] == s[d + 4..d + 20][k];
      }
    }
  }

  /** The opening, `# `, `sourceMappingURL` and `=`, as tools write it. */
  function WrittenHeader(form: Form): (r: string)
    ensures |r| == 21
  {
    Opening(form) + "# " + Keyword + "="
  }

  /** `WrittenHeader(form)` at `d`, character by character. */
  ghost predicate HeaderText(s: string, d: nat, form: Form) {
    && d + 21 <= |s|
    && s[d] == '/' && s[d + 1] == (if form == Line then '/' else '*')
    && s[d + 2] == '#' && s[d + 3] == ' ' && OccursAt(s, d + 4, Keyword) && s[d + 20] == '='
  }

  /** A URL from `u` to `t`: not empty, and without white space. */
  ghost predicate UrlText(s: string, u: nat, t: nat) {
    u < t <= |s| && forall i :: u <= i < t ==> s[i] !in JsWhitespace
  }

  /** What follows the URL at `t`: a line terminator or the end (line form),
      or a space and the comment's closing star and slash (block form). */
  ghost predicate ClosingText(s: string, t: nat, form: Form) {
    && t <= |s|
    && (form == Line ==> t == |s| || s[t] == '\n' || s[t] == '\r')
    && (form == Block ==> t + 3 <= |s| && s[t] == ' ' && s[t + 1] == '*' && s[t + 2] == '/')
  }

  /** When every other `sourceMappingURL` lies before a header written at
      `d`, a match of either form can start only at `d`: a match starting
      earlier would need its URL to run past the white space at `d + 3`. */
  lemma OnlyStart(s: string, d: nat, f: Form, p: nat, form: Form)
    requires HeaderText(s, d, f) && KeywordsBefore(s, d) && p <= |s|
    ensures MatchAt(s, p, form).Some? ==> p == d && OccursAt(s, p, Opening(form))
  {
    if MatchAt(s, p, form).Some? {
      var h := Header(s, p, form).value;
      ShapeStart(s, d, f, p, form, h.0, h.1, h.2, MatchAt(s, p, form).value);
    }
  }

  lemma ShapeStart(s: string, d: nat, f: Form, p: nat, form: Form, at: nat, key: nat, eq: nat, m: DirectiveMatch)
    requires HeaderText(s, d, f) && KeywordsBefore(s, d)
    requires HeaderShape(s, p, form, at, key, eq) && MatchShape(s, form, eq, m)
    ensures p == d
  {
    ShapeKey(s, d, f, p, form, at, key, eq, m);
    ShapeOpening(s, d, f, p, form, at, key, eq);
  }

  /** A header reading the keyword written at `d` starts at `d`. */
  lemma ShapeOpening(s: string, d: nat, f: Form, p: nat, form: Form, at: nat, key: nat, eq: nat)
    requires HeaderText(s, d, f) && HeaderShape(s, p, form, at, key, eq) && key == d + 4
    ensures p == d
  {
    assert s[d + 1] !in JsWhitespace && s[d + 2] !in JsWhitespace;
    assert at == d + 2;
  }

  /** Such a match reads the keyword written at `d`: an earlier one would
      leave `d` to `d + 3` inside its white space, `=` or URL. */
  lemma ShapeKey(s: string, d: nat, f: Form, p: nat, form: Form, at: nat, key: nat, eq: nat, m: DirectiveMatch)
    requires HeaderText(s, d, f) && KeywordsBefore(s, d)
    requires HeaderShape(s, p, form, at, key, eq) && MatchShape(s, form, eq, m)
    ensures key == d + 4
  {
    assert d + 4 < m.urlEnd;
    assert s[d] !in JsWhitespace && s[d + 3] in JsWhitespace;
  }

  /** The header written at `d` is read back. */
  lemma DirectiveHeader(s: string, d: nat, form: Form)
    requires HeaderText(s, d, form)
    ensures Header(s, d, form) == Some((d + 2, d + 4, d + 21))
  {
    HeaderRuns(s, d, form);
  }

  /** The openings and the white-space runs of a header written at `d`. */
  lemma HeaderRuns(s: string, d: nat, form: Form)
    requires HeaderText(s, d, form)
    ensures OccursAt(s, d, Opening(form))
    ensures SkipWhile(s, d + 2, JsWhitespace) == d + 2 && SkipWhile(s, d + 3, JsWhitespace) == d + 4
    ensures SkipWhile(s, d + 20, JsWhitespace) == d + 20
  {
    assert s[d..d + 2] == Opening(form);
    SkipWhileUnique(s, d + 2, JsWhitespace, d + 2);
    SkipWhileUnique(s, d + 3, JsWhitespace, d + 4);
    SkipWhileUnique(s, d + 20, JsWhitespace, d + 20);
  }

  /** The match of a written directive at its own start. */
  lemma DirectiveMatchAt(s: string, d: nat, t: nat, form: Form, e: nat)
    requires HeaderText(s, d, form) && UrlText(s, d + 21, t) && KeywordsBefore(s, d)
    requires (t < |s| ==> s[t] in JsWhitespace) && Tail(s, t, form) == Some(e)
    ensures MatchAt(s, d, form) == Some(DirectiveMatch(d, e, d + 21, t))
  {
    DirectiveHeader(s, d, form);
    SkipWhileUnique(s, d + 21, JsWhitespace, d + 21);
    ScanUntilUnique(s, d + 21, JsWhitespace, t);
    assert IndexOfFrom(s, Keyword, t).None?;
  }

  /** The end of `($|\n|\r\n?)` at `t`. */
  function LineEnd(s: string, t: nat): nat
    requires t <= |s|
  {
    if t == |s| then t else if s[t] == '\r' && t + 1 < |s| && s[t + 1] == '\n' then t + 2 else t + 1
  }

  /** Where the tail after a written directive's URL ends. */
  lemma LineTail(s: string, t: nat)
    requires ClosingText(s, t, Line)
    ensures Tail(s, t, Line) == Some(LineEnd(s, t))
  {
  }

  lemma BlockTail(s: string, t: nat)
    requires ClosingText(s, t, Block)
    ensures Tail(s, t, Block) == Some(t + 3)
  {
    SkipWhileUnique(s, t, JsWhitespace, t + 1);
  }

  /** No match of the same form starts before a written directive. */
  lemma NoMatchBefore(s: string, d: nat, f: Form, form: Form)
    requires HeaderText(s, d, f) && KeywordsBefore(s, d)
    ensures NoMatchBetween(s, 0, d, form)
  {
    forall k: nat | k < d && k <= |s| ensures MatchAt(s, k, form).None? {
      OnlyStart(s, d, f, k, form);
    }
  }

  /** A written line directive leaves the block form unmatched. */
  lemma NoBlockMatch(s: string, d: nat)
    requires HeaderText(s, d, Line) && KeywordsBefore(s, d)
    ensures FirstMatch(s, 0, Block).None?
  {
    assert s[d..d + 2][1] == '/';
    assert !OccursAt(s, d, Opening(Block));
    forall k: nat | k <= |s| ensures MatchAt(s, k, Block).None? {
      OnlyStart(s, d, Line, k, Block);
    }
  }

  /** A written directive is the first match of its form. */
  lemma DirectiveFirst(s: string, d: nat, t: nat, form: Form, e: nat)
    requires HeaderText(s, d, form) && UrlText(s, d + 21, t) && KeywordsBefore(s, d)
    requires (t < |s| ==> s[t] in JsWhitespace) && Tail(s, t, form) == Some(e)
    ensures FirstMatch(s, 0, form) == Some(DirectiveMatch(d, e, d + 21, t))
  {
    DirectiveMatchAt(s, d, t, form, e);
    NoMatchBefore(s, d, form, form);
    FirstMatchIs(s, 0, d, form);
  }

  /** `input.match(regex1) || input.match(regex2)` given what each gives. */
  lemma LocateBlock(s: string, m: DirectiveMatch)
    requires FirstMatch(s, 0, Block) == Some(m)
    ensures Locate(s) == Some(m)
  {
  }

  lemma LocateLine(s: string, m: DirectiveMatch)
    requires FirstMatch(s, 0, Block).None? && FirstMatch(s, 0, Line) == Some(m)
    ensures Locate(s) == Some(m)
  {
  }

  /** The characters of a written header at `d`. */
  lemma HeaderChars(s: string, d: nat, form: Form)
    requires Spells(s, d, WrittenHeader(form))
    ensures HeaderText(s, d, form)
  {
    SpellsSplit3(s, d, Opening(form) + "# ", Keyword, "=", d + 4, d + 20);
    OpeningChars(s, d, form);
    EqualsChar(s, d + 20);
    SpellsSlice(s, d + 4, Keyword);
  }

  lemma OpeningChars(s: string, d: nat, form: Form)
    requires Spells(s, d, Opening(form) + "# ")
    ensures d + 4 <= |s| && s[d] == '/' && s[d + 1] == (if form == Line then '/' else '*')
    ensures s[d + 2] == '#' && s[d + 3] == ' '
  {
    SpellsSplit(s, d, Opening(form), "# ", d + 2);
    SpellsChar(s, d, Opening(form), 0);
    SpellsChar(s, d, Opening(form), 1);
    SpellsChar(s, d + 2, "# ", 0);
    SpellsChar(s, d + 2, "# ", 1);
  }

  lemma EqualsChar(s: string, i: nat)
    requires Spells(s, i, "=")
    ensures i < |s| && s[i] == '='
  {
    SpellsChar(s, i, "=", 0);
  }

  lemma ClosingChars(s: string, t: nat)
    requires Spells(s, t, " */")
    ensures t + 3 <= |s| && s[t] == ' ' && s[t + 1] == '*' && s[t + 2] == '/'
  {
    SpellsChar(s, t, " */", 0);
    SpellsChar(s, t, " */", 1);
    SpellsChar(s, t, " */", 2);
  }

  /** The layout of `prefix + WrittenHeader(form) + url + rest`: the header
      at `|prefix|`, the URL from `|prefix| + 21` to `t`, then `rest`. */
  lemma WrittenLayout(prefix: string, form: Form, url: string, rest: string, s: string, t: nat)
    requires s == prefix + WrittenHeader(form) + url + rest && t == |prefix| + 21 + |url|
    requires url != [] && forall i :: 0 <= i < |url| ==> url[i] !in JsWhitespace
    ensures HeaderText(s, |prefix|, form) && UrlText(s, |prefix| + 21, t)
    ensures s[|prefix| + 21..t] == url && t + |rest| == |s| && Spells(s, t, rest)
  {
    SpellsParts(prefix, WrittenHeader(form), url, rest, |prefix|, |prefix| + 21, t);
    HeaderChars(s, |prefix|, form);
    SpellsSlice(s, |prefix| + 21, url);
    forall i | |prefix| + 21 <= i < t ensures s[i] !in JsWhitespace {
      assert s[i] == s[|prefix| + 21..t][i - (|prefix| + 21)];
    }
  }

  /** What follows a line directive's URL. */
  lemma LineClosing(s: string, t: nat, rest: string)
    requires Spells(s, t, rest) && t + |rest| == |s|
    requires rest == [] || rest[0] == '\n' || rest[0] == '\r'
    ensures ClosingText(s, t, Line)
    ensures LineEnd(s, t) == t + TerminatorLength(rest)
  {
    if rest != [] {
      SpellsChar(s, t, rest, 0);
      if |rest| > 1 {
        SpellsChar(s, t, rest, 1);
      }
    }
  }

  /** What follows a block directive's URL. */
  lemma BlockClosing(s: string, t: nat, rest: string)
    requires Spells(s, t, " */" + rest)
    ensures ClosingText(s, t, Block)
  {
    SpellsSplit(s, t, " */", rest, t + 3);
    ClosingChars(s, t);
  }

  /** The length of the line terminator `rest` starts with (`\r\n` counts
      as one), nothing being at the end of the text. */
  function TerminatorLength(rest: string): nat {
    if rest == [] then 0 else if |rest| > 1 && rest[0] == '\r' && rest[1] == '\n' then 2 else 1
  }

  /** A directive placed at `d`, its URL ending at `t`, with no
      `sourceMappingURL` after its own. */
  ghost predicate Placed(s: string, d: nat, t: nat, form: Form) {
    && HeaderText(s, d, form) && UrlText(s, d + 21, t) && ClosingText(s, t, form)
    && KeywordsBefore(s, d)
  }

  /** `//# sourceMappingURL=` and `url` appended to `prefix`, followed by
      `rest`, which is empty or starts a new line; `sourceMappingURL` occurs
      nowhere after the one written, though `prefix` may hold earlier
      directives. */
  ghost predicate WrittenLine(prefix: string, url: string, rest: string, s: string) {
    && s == prefix + WrittenHeader(Line) + url + rest
    && url != [] && (forall i :: 0 <= i < |url| ==> url[i] !in JsWhitespace)
    && (rest == [] || rest[0] == '\n' || rest[0] == '\r')
    && KeywordsBefore(s, |prefix|)
  }

  /** The same with the block form, closed by a space, a star and a slash
      before `rest`. */
  ghost predicate WrittenBlock(prefix: string, url: string, rest: string, s: string) {
    && s == prefix + WrittenHeader(Block) + url + (" */" + rest)
    && url != [] && (forall i :: 0 <= i < |url| ==> url[i] !in JsWhitespace)
    && KeywordsBefore(s, |prefix|)
  }

  lemma LineLayout(prefix: string, url: string, rest: string, s: string, t: nat)
    requires WrittenLine(prefix, url, rest, s) && t == |prefix| + 21 + |url|
    ensures Placed(s, |prefix|, t, Line) && s[|prefix| + 21..t] == url && t == |s| - |rest|
    ensures LineEnd(s, t) == |s| - |rest| + TerminatorLength(rest)
  {
    WrittenLayout(prefix, Line, url, rest, s, t);
    LineClosing(s, t, rest);
  }

  lemma BlockLayout(prefix: string, url: string, rest: string, s: string, t: nat)
    requires WrittenBlock(prefix, url, rest, s) && t == |prefix| + 21 + |url|
    ensures Placed(s, |prefix|, t, Block) && s[|prefix| + 21..t] == url
    ensures t == |s| - |rest| - 3 && t + 3 == |s| - |rest|
  {
    WrittenLayout(prefix, Block, url, " */" + rest, s, t);
    BlockClosing(s, t, rest);
  }

  /** A placed line directive is the first line match, and no block match
      exists. */
  lemma LineFirst(s: string, d: nat, t: nat)
    requires Placed(s, d, t, Line)
    ensures FirstMatch(s, 0, Block).None?
    ensures FirstMatch(s, 0, Line) == Some(DirectiveMatch(d, LineEnd(s, t), d + 21, t))
  {
    LineTail(s, t);
    DirectiveFirst(s, d, t, Line, LineEnd(s, t));
    NoBlockMatch(s, d);
  }

  /** A placed block directive is the first block match. */
  lemma BlockFirst(s: string, d: nat, t: nat)
    requires Placed(s, d, t, Block)
    ensures FirstMatch(s, 0, Block) == Some(DirectiveMatch(d, t + 3, d + 21, t))
  {
    BlockTail(s, t);
    DirectiveFirst(s, d, t, Block, t + 3);
  }

  /** A line directive appended after any text, earlier directives
      included, is the one located, and its URL is the one written: the last
      directive wins. The match starts at the directive and takes in the
      line terminator after the URL. */
  lemma LineDirectiveFound(prefix: string, url: string, rest: string, s: string)
    requires WrittenLine(prefix, url, rest, s)
    ensures Locate(s) == Some(DirectiveMatch(|prefix|, |s| - |rest| + TerminatorLength(rest), |prefix| + 21, |s| - |rest|))
    ensures Url(s, Locate(s).value) == url
  {
    var d, t := |prefix|, |prefix| + 21 + |url|;
    LineLayout(prefix, url, rest, s, t);
    LineFirst(s, d, t);
    LocateLine(s, DirectiveMatch(d, LineEnd(s, t), d + 21, t));
    assert Locate(s) == Some(DirectiveMatch(d, LineEnd(s, t), d + 21, t));
    assert DirectiveMatch(d, LineEnd(s, t), d + 21, t) == DirectiveMatch(|prefix|, |s| - |rest| + TerminatorLength(rest), |prefix| + 21, |s| - |rest|);
  }

  /** The same for the block form, the match ending just after the comment. */
  lemma BlockDirectiveFound(prefix: string, url: string, rest: string, s: string)
    requires WrittenBlock(prefix, url, rest, s)
    ensures Locate(s) == Some(DirectiveMatch(|prefix|, |s| - |rest|, |prefix| + 21, |s| - |rest| - 3))
    ensures Url(s, Locate(s).value) == url
  {
    var d, t := |prefix|, |prefix| + 21 + |url|;
    BlockLayout(prefix, url, rest, s, t);
    BlockFirst(s, d, t);
    LocateBlock(s, DirectiveMatch(d, t + 3, d + 21, t));
    assert Locate(s) == Some(DirectiveMatch(d, t + 3, d + 21, t));
    assert DirectiveMatch(d, t + 3, d + 21, t) == DirectiveMatch(|prefix|, |s| - |rest|, |prefix| + 21, |s| - |rest| - 3);
  }
}
