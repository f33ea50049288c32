/** The loader of the root `index.js`, the package's first version. Its
    directive expressions are

      `/\*\s*[@#]\s*sourceMappingURL\s*=\s*(.*)\s*\*\/`
      `\/\/\s*[@#]\s*sourceMappingURL\s*=\s*(.*)($|\n|\r\n?)`

    without a lookahead, so the FIRST directive wins, the block form again
    tried before the line form; an inline map is recognised by
    `/data:[^;\n]+;base64,(.*)/`; and `processMap` back-fills missing
    `sourcesContent` entries before resolving the sources in place.

    What the host answers (`resolve` with `urlToRequest`, `fs.readFile`,
    `JSON.parse`, the `Buffer` base64 decoding, `path.dirname`) is given as
    functions in `Host`. */
module LegacyLoader {
  import opened Text
  import opened HttpGrammar
  import Directive

  type Match = Directive.DirectiveMatch

  /** What `.` does not match. */
  const LineTerminators: set<char> := {'\n', '\r', '\U{2028}', '\U{2029}'}

  // ---------------------------------------------------------------------------
  // The directive

  /** `\s*(.*)` after `=` at `eq`, then the tail, in backtracking order, with
      `w` the end of the white space after `eq`: the greedy capture starts at
      `w` and gives back one character at a time from the end of the line;
      then `\s*` gives back white space and the capture, starting lower,
      first retries the ends already tried and then ends where it starts.
      So the capture's end `c` falls by one each time; below `w` the capture
      is empty. */
  function Capture(s: string, p: nat, eq: nat, w: nat, c: nat, form: Directive.Form): (r: Option<Match>)
    requires eq <= w <= |s| && eq <= c <= |s|
    ensures r.Some? ==> var m := r.value;
      && m.start == p && eq <= m.urlStart <= m.urlEnd <= c && m.urlStart == (if m.urlEnd < w then m.urlEnd else w)
      && Directive.Tail(s, m.urlEnd, form) == Some(m.end)
      && forall d :: m.urlEnd < d <= c ==> Directive.Tail(s, d, form).None?
    ensures r.None? ==> forall d :: eq <= d <= c ==> Directive.Tail(s, d, form).None?
    decreases c
  {
    if Directive.Tail(s, c, form).Some? then
      Some(Directive.DirectiveMatch(p, Directive.Tail(s, c, form).value, if c < w then c else w, c))
    else if c == eq then None
    else Capture(s, p, eq, w, c - 1, form)
  }

  /** The expression matched from `p`. */
  function MatchAt(s: string, p: nat, form: Directive.Form): (r: Option<Match>)
    requires p <= |s|
    ensures r.Some? ==> Directive.Header(s, p, form).Some? && r.value.start == p
  {
    match Directive.Header(s, p, form)
    case None => None
    case Some(h) =>
      var w := SkipWhile(s, h.2, Directive.JsWhitespace);
      Capture(s, p, h.2, w, ScanUntil(s, w, LineTerminators), form)
  }

  /** A match has the shape of the expression. */
  lemma MatchAtShape(s: string, p: nat, form: Directive.Form)
    requires p <= |s|
    ensures MatchAt(s, p, form).Some? ==> Shape(s, form, Directive.Header(s, p, form).value.2, MatchAt(s, p, form).value)
  {
    if MatchAt(s, p, form).Some? {
      var h := Directive.Header(s, p, form).value;
      var w := SkipWhile(s, h.2, Directive.JsWhitespace);
      CaptureShape(s, form, h.2, w, MatchAt(s, p, form).value);
    }
  }

  /** What a match promises after the header ending at `eq`: white space,
      then the capture, which holds no line terminator, then the tail. */
  ghost predicate Shape(s: string, form: Directive.Form, eq: nat, m: Match) {
    && eq <= m.urlStart <= m.urlEnd <= m.end <= |s|
    && (forall i :: eq <= i < m.urlStart ==> s[i] in Directive.JsWhitespace)
    && (forall i :: m.urlStart <= i < m.urlEnd ==> s[i] !in LineTerminators)
    && Directive.Tail(s, m.urlEnd, form) == Some(m.end)
  }

  lemma CaptureShape(s: string, form: Directive.Form, eq: nat, w: nat, m: Match)
    requires eq <= w <= |s| && w == SkipWhile(s, eq, Directive.JsWhitespace)
    requires eq <= m.urlStart <= m.urlEnd <= ScanUntil(s, w, LineTerminators)
    requires m.urlStart == (if m.urlEnd < w then m.urlEnd else w)
    requires Directive.Tail(s, m.urlEnd, form) == Some(m.end)
    ensures Shape(s, form, eq, m)
  {
  }

  /** For each start `0..|s|`, whether the expression matches there. */
  function Starts(s: string, form: Directive.Form): (r: seq<bool>)
    ensures |r| == |s| + 1
  {
    seq(|s| + 1, k requires 0 <= k <= |s| => MatchAt(s, k, form).Some?)
  }

  /** `s.match(expression)`: the match at the leftmost start. */
  function FirstMatch(s: string, form: Directive.Form): (r: Option<Match>)
    ensures r.Some? ==> r.value.start <= |s| && MatchAt(s, r.value.start, form) == r
  {
    var k := Directive.FirstTrue(Starts(s, form), 0);
    if k.None? then None else assert Starts(s, form)[k.value]; MatchAt(s, k.value, form)
  }

  ghost predicate NoMatchBefore(s: string, q: nat, form: Directive.Form) {
    forall k: nat :: k < q && k <= |s| ==> MatchAt(s, k, form).None?
  }

  /** The match found is the leftmost one; none is found only when there is
      none to find. */
  lemma FirstMatchLeftmost(s: string, form: Directive.Form)
    ensures FirstMatch(s, form).Some? ==> NoMatchBefore(s, FirstMatch(s, form).value.start, form)
    ensures FirstMatch(s, form).None? ==> NoMatchBefore(s, |s| + 1, form)
  {
    var b := Starts(s, form);
    var e := if Directive.FirstTrue(b, 0).Some? then Directive.FirstTrue(b, 0).value else |s| + 1;
    forall k: nat | k < e && k <= |s| ensures MatchAt(s, k, form).None? {
      assert !b[k];
    }
  }

  /** Conversely, a match at `q` with none before it is the one found. */
  lemma FirstMatchIs(s: string, q: nat, form: Directive.Form)
    requires q <= |s| && MatchAt(s, q, form).Some? && NoMatchBefore(s, q, form)
    ensures FirstMatch(s, form) == MatchAt(s, q, form)
  {
    var b := Starts(s, form);
    assert b[q];
    forall k | 0 <= k < q ensures !b[k] {
      assert MatchAt(s, k, form).None?;
    }
    Directive.FirstTrueIs(b, 0, q);
  }

  /** A match with the form of its expression. */
  datatype Located = Located(m: Match, form: Directive.Form)

  /** `input.match(regex1) || input.match(regex2)`. */
  function Locate(s: string): (r: Option<Located>)
    ensures r.Some? ==> r.value.m.start < r.value.m.urlStart <= r.value.m.urlEnd <= r.value.m.end <= |s|
  {
    var block := FirstMatch(s, Directive.Block);
    var r := if block.Some? then Some(Located(block.value, Directive.Block))
             else if FirstMatch(s, Directive.Line).Some? then Some(Located(FirstMatch(s, Directive.Line).value, Directive.Line))
             else None;
    if r.Some? then LocatedBounds(s, r.value); r else r
  }

  lemma LocatedBounds(s: string, l: Located)
    requires l.m.start <= |s| && MatchAt(s, l.m.start, l.form) == Some(l.m)
    ensures l.m.start < l.m.urlStart <= l.m.urlEnd <= l.m.end <= |s|
  {
    var h := Directive.Header(s, l.m.start, l.form).value;
    assert Directive.HeaderShape(s, l.m.start, l.form, h.0, h.1, h.2);
    MatchAtShape(s, l.m.start, l.form);
  }

  /** The first directive is the one located, the block form winning
      whenever it matches; the capture holds no line terminator. */
  lemma LocateFirst(s: string)
    ensures Locate(s).Some? ==> var l := Locate(s).value;
      && NoMatchBefore(s, l.m.start, l.form)
      && forall i :: l.m.urlStart <= i < l.m.urlEnd ==> s[i] !in LineTerminators
    ensures FirstMatch(s, Directive.Block).Some? ==> Locate(s).value.form == Directive.Block
    ensures Locate(s).None? ==> NoMatchBefore(s, |s| + 1, Directive.Block) && NoMatchBefore(s, |s| + 1, Directive.Line)
  {
    FirstMatchLeftmost(s, Directive.Block);
    FirstMatchLeftmost(s, Directive.Line);
    if Locate(s).Some? {
      var l := Locate(s).value;
      var h := Directive.Header(s, l.m.start, l.form).value;
      MatchAtShape(s, l.m.start, l.form);
      assert Shape(s, l.form, h.2, l.m);
    }
  }

  /** `match[1]`, the capture, as written. */
  function Capture1(s: string, m: Match): (r: string)
    requires m.urlStart <= m.urlEnd <= |s|
    ensures |r| == m.urlEnd - m.urlStart && forall i :: 0 <= i < |r| ==> r[i] == s[m.urlStart + i]
  {
    s[m.urlStart..m.urlEnd]
  }

  /** The URL the directive names: the capture without the white space
      that the greedy `(.*)` takes in before the tail. */
  function UsedUrl(s: string, m: Match): (r: string)
    requires m.urlStart <= m.urlEnd <= |s|
    ensures |r| <= m.urlEnd - m.urlStart && r == s[m.urlStart..m.urlStart + |r|]
    ensures r == [] || r[|r| - 1] !in Directive.JsWhitespace
  {
    var capture := Capture1(s, m);
    var r := TrimEnd(capture, Directive.JsWhitespace);
    assert capture[..|r|] == s[m.urlStart..m.urlStart + |r|];
    r
  }

  /** `match[2]` as `replace` receives it: the line form's terminator, and
      for the block form, whose expression has one group, `undefined`. */
  function ReplacementAsWritten(s: string, l: Located): (r: string)
    requires l.m.urlEnd <= l.m.end <= |s|
    ensures l.form == Directive.Block ==> r == Undefined
    ensures l.form == Directive.Line ==> r == s[l.m.urlEnd..l.m.end]
  {
    if l.form == Directive.Block then Undefined else s[l.m.urlEnd..l.m.end]
  }

  /** What the directive is replaced by: its line terminator for the line
      form, nothing for the block form. */
  function Replacement(s: string, l: Located): (r: string)
    requires l.m.urlEnd <= l.m.end <= |s|
    ensures l.form == Directive.Block ==> r == []
    ensures l.form == Directive.Line ==> r == s[l.m.urlEnd..l.m.end]
  {
    if l.form == Directive.Block then [] else s[l.m.urlEnd..l.m.end]
  }

  /** `input.replace(match[0], replacement)`. */
  function Replaced(s: string, l: Located, replacement: string): (r: string)
    requires l.m.start <= l.m.end <= |s|
    ensures |r| == |s| - (l.m.end - l.m.start) + |replacement|
    ensures IndexOfFrom(s, s[l.m.start..l.m.end], 0) == Some(l.m.start) ==>
      r == s[..l.m.start] + replacement + s[l.m.end..]
  {
    assert OccursAt(s, l.m.start, s[l.m.start..l.m.end]);
    ReplaceFirst(s, s[l.m.start..l.m.end], replacement)
  }

  // ---------------------------------------------------------------------------
  // The inline map

  /** A match of `/data:[^;\n]+;base64,(.*)/`: where `data:` starts, where
      `;base64,` starts, and where the payload ends. */
  datatype InlineMatch = InlineMatch(start: nat, semicolon: nat, end: nat)

  const Base64Marker: string := ";base64,"

  /** The expression matched from `p`. `[^;\n]+` takes the longest run, and
      only a `;` can stop it before `;base64,`, so backtracking cannot help. */
  function InlineAt(url: string, p: nat): (r: Option<InlineMatch>)
    requires p <= |url|
    ensures r.Some? ==> r.value.start == p && InlineShape(url, r.value)
  {
    if !OccursAt(url, p, "data:") then None
    else
      var semicolon := ScanUntil(url, p + 5, {';', '\n'});
      if semicolon == p + 5 || !OccursAt(url, semicolon, Base64Marker) then None
      else Some(InlineMatch(p, semicolon, ScanUntil(url, semicolon + 8, LineTerminators)))
  }

  /** `data:`, a non-empty media type without `;` or line feed, `;base64,`,
      then the payload up to the end of the line. */
  ghost predicate InlineShape(url: string, m: InlineMatch) {
    && OccursAt(url, m.start, "data:") && m.start + 5 < m.semicolon
    && OccursAt(url, m.semicolon, Base64Marker) && m.semicolon + 8 <= m.end <= |url|
    && (forall i :: m.start + 5 <= i < m.semicolon ==> url[i] != ';' && url[i] != '\n')
    && (forall i :: m.semicolon + 8 <= i < m.end ==> url[i] !in LineTerminators)
    && (m.end < |url| ==> url[m.end] in LineTerminators)
  }

  /** `regexDataUrl.exec(url)`: the match at the leftmost start. */
  function Inline(url: string): (r: Option<InlineMatch>)
    ensures r.Some? ==> InlineShape(url, r.value)
  {
    var b := seq(|url| + 1, k requires 0 <= k <= |url| => InlineAt(url, k).Some?);
    var k := Directive.FirstTrue(b, 0);
    if k.None? then None else assert b[k.value]; InlineAt(url, k.value)
  }

  /** `dataUrlMatch[1]`, the payload. */
  function Payload(url: string, m: InlineMatch): string
    requires m.semicolon + 8 <= m.end <= |url|
  {
    url[m.semicolon + 8..m.end]
  }

  /** A URL made of `data:`, a media type, `;base64,` and a payload on one
      line is recognised, and the payload is what is decoded. */
  lemma InlineRecognised(mediaType: string, payload: string, url: string)
    requires url == "data:" + mediaType + Base64Marker + payload
    requires mediaType != [] && forall i :: 0 <= i < |mediaType| ==> mediaType[i] != ';' && mediaType[i] != '\n'
    requires forall i :: 0 <= i < |payload| ==> payload[i] !in LineTerminators
    ensures Inline(url).Some? && Payload(url, Inline(url).value) == payload
  {
    var semicolon := 5 + |mediaType|;
    InlineLayout(mediaType, payload, url);
    ScanUntilUnique(url, 5, {';', '\n'}, semicolon);
    ScanUntilUnique(url, semicolon + 8, LineTerminators, |url|);
    assert InlineAt(url, 0) == Some(InlineMatch(0, semicolon, |url|));
    var b := seq(|url| + 1, k requires 0 <= k <= |url| => InlineAt(url, k).Some?);
    Directive.FirstTrueIs(b, 0, 0);
  }

  lemma InlineLayout(mediaType: string, payload: string, url: string)
    requires url == "data:" + mediaType + Base64Marker + payload
    ensures OccursAt(url, 0, "data:") && OccursAt(url, 5 + |mediaType|, Base64Marker)
    ensures url[5..5 + |mediaType|] == mediaType && url[13 + |mediaType|..] == payload
    ensures |url| == 13 + |mediaType| + |payload|
  {
    assert url[..5] == "data:";
    assert url[5 + |mediaType|..13 + |mediaType|] == Base64Marker;
  }

  // ---------------------------------------------------------------------------
  // processMap

  /** The fields `processMap` reads and writes, as `JSON.parse` gives them
      (a `sources` entry that is not a string is `None`). */
  datatype Parsed = Parsed(sources: seq<Option<string>>, sourcesContent: Option<seq<Option<string>>>)

  /** What the root loader asks of its host; unlike `Loader.Host`, the
      request resolved may be `null`, an inline payload is decoded with
      `Buffer`, and there is no flattening or embedded content. */
  datatype Host = Host(
    context: string,
    /** `resolve(context, urlToRequest(request))`. */
    resolve: (string, Option<string>) -> Option<string>,
    readFile: string -> Option<string>,
    /** `JSON.parse`: `None` when it throws. */
    parseJson: string -> Option<Parsed>,
    /** `new Buffer(payload, "base64").toString()`. */
    decodeBase64: string -> string,
    dirname: string -> string)

  /** The source map object, changed in place by `processMap`. */
  class MapObject {
    var sources: seq<Option<string>>
    var sourcesContent: Option<seq<Option<string>>>

    constructor (parsed: Parsed)
      ensures sources == parsed.sources && sourcesContent == parsed.sourcesContent
    {
      sources := parsed.sources;
      sourcesContent := parsed.sourcesContent;
    }
  }

  /** `!map.sourcesContent || map.sourcesContent.length < map.sources.length`. */
  predicate Incomplete(sources: seq<Option<string>>, sourcesContent: Option<seq<Option<string>>>): (r: bool)
    ensures !r <==> sourcesContent.Some? && |sourcesContent.value| >= |sources|
  {
    sourcesContent.None? || |sourcesContent.value| < |sources|
  }

  /** The sources whose contents are missing: those from index
      `sourcesContent.length` on, or all of them without `sourcesContent`. */
  function Missing(sources: seq<Option<string>>, sourcesContent: Option<seq<Option<string>>>): (r: seq<Option<string>>)
    requires Incomplete(sources, sourcesContent)
    ensures var have := if sourcesContent.Some? then |sourcesContent.value| else 0;
      have <= |sources| && r == sources[have..]
  {
    if sourcesContent.Some? then sources[|sourcesContent.value|..] else sources
  }

  /** A missing source's content: `null` when it cannot be resolved or read. */
  function Fetch(host: Host, context: string, source: Option<string>): (r: Option<string>)
    ensures r.None? <==> host.resolve(context, source).None? || host.readFile(host.resolve(context, source).value).None?
    ensures r.Some? ==> r == host.readFile(host.resolve(context, source).value)
  {
    match host.resolve(context, source)
    case None => None
    case Some(path) => host.readFile(path)
  }

  /** The `sourcesContent` after back-filling: the old entries, then one per
      missing source, in order. */
  function BackFilled(host: Host, context: string, sources: seq<Option<string>>, sourcesContent: Option<seq<Option<string>>>): (r: seq<Option<string>>)
    requires Incomplete(sources, sourcesContent)
    ensures |r| == |sources|
    ensures sourcesContent.Some? ==> r[..|sourcesContent.value|] == sourcesContent.value
  {
    var missing := Missing(sources, sourcesContent);
    (if sourcesContent.Some? then sourcesContent.value else [])
      + seq(|missing|, i requires 0 <= i < |missing| => Fetch(host, context, missing[i]))
  }

  /** The final `sourcesContent`: back-filled when incomplete, else as it was. */
  function Completed(host: Host, context: string, sources: seq<Option<string>>, sourcesContent: Option<seq<Option<string>>>): (r: seq<Option<string>>)
    ensures |r| >= |sources|
    ensures Incomplete(sources, sourcesContent) ==> |r| == |sources|
    ensures !Incomplete(sources, sourcesContent) ==> Some(r) == sourcesContent
  {
    if Incomplete(sources, sourcesContent) then BackFilled(host, context, sources, sourcesContent) else sourcesContent.value
  }

  /** The final `sources`: each source's resolved path, index for index. */
  function Resolved(host: Host, context: string, sources: seq<Option<string>>): (r: seq<Option<string>>)
    ensures |r| == |sources| && forall i :: 0 <= i < |r| ==> r[i] == host.resolve(context, sources[i])
  {
    seq(|sources|, i requires 0 <= i < |sources| => host.resolve(context, sources[i]))
  }

  /** The paths `addDependency` receives while back-filling: each missing
      source that resolves. */
  function BackFillDependencies(host: Host, context: string, sources: seq<Option<string>>, sourcesContent: Option<seq<Option<string>>>): (r: seq<string>)
    ensures |r| <= |sources|
    ensures !Incomplete(sources, sourcesContent) ==> r == []
    ensures Incomplete(sources, sourcesContent) ==> var have := if sourcesContent.Some? then |sourcesContent.value| else 0;
      forall p :: p in r <==> exists i :: have <= i < |sources| && host.resolve(context, sources[i]) == Some(p)
  {
    if Incomplete(sources, sourcesContent) then
      var missing := Missing(sources, sourcesContent);
      var resolved := seq(|missing|, i requires 0 <= i < |missing| => host.resolve(context, missing[i]));
      SomesMembers(resolved);
      MissingResolved(host, context, sources, sourcesContent, resolved);
      Somes(resolved)
    else []
  }

  lemma MissingResolved(host: Host, context: string, sources: seq<Option<string>>, sourcesContent: Option<seq<Option<string>>>, resolved: seq<Option<string>>)
    requires Incomplete(sources, sourcesContent)
    requires var missing := Missing(sources, sourcesContent);
      resolved == seq(|missing|, i requires 0 <= i < |missing| => host.resolve(context, missing[i]))
    ensures var have := if sourcesContent.Some? then |sourcesContent.value| else 0;
      forall p :: Some(p) in resolved <==> exists i :: have <= i < |sources| && host.resolve(context, sources[i]) == Some(p)
  {
    var have := if sourcesContent.Some? then |sourcesContent.value| else 0;
    forall p ensures Some(p) in resolved <==> exists i :: have <= i < |sources| && host.resolve(context, sources[i]) == Some(p) {
      if Some(p) in resolved {
        var k :| 0 <= k < |resolved| && resolved[k] == Some(p);
        assert host.resolve(context, sources[have + k]) == Some(p);
      }
      if exists i :: have <= i < |sources| && host.resolve(context, sources[i]) == Some(p) {
        var i :| have <= i < |sources| && host.resolve(context, sources[i]) == Some(p);
        assert resolved[i - have] == Some(p);
      }
    }
  }

  /** `processMap(map, context, callback)` up to its callback: back-fill and
      call itself once more, or resolve the sources in place. */
  method ProcessMap(m: MapObject, context: string, host: Host) returns (dependencies: seq<string>)
    modifies m
    ensures m.sourcesContent == Some(Completed(host, context, old(m.sources), old(m.sourcesContent)))
    ensures m.sources == Resolved(host, context, old(m.sources))
    ensures dependencies == BackFillDependencies(host, context, old(m.sources), old(m.sourcesContent))
    decreases if Incomplete(m.sources, m.sourcesContent) then 1 else 0
  {
    if Incomplete(m.sources, m.sourcesContent) {
      ghost var sources0, contents0 := m.sources, m.sourcesContent;
      var missing := Missing(m.sources, m.sourcesContent);
      var fetched := seq(|missing|, i requires 0 <= i < |missing| => Fetch(host, context, missing[i]));
      dependencies := Somes(seq(|missing|, i requires 0 <= i < |missing| => host.resolve(context, missing[i])));
      m.sourcesContent := Some((if m.sourcesContent.Some? then m.sourcesContent.value else []) + fetched);
      assert m.sourcesContent == Some(BackFilled(host, context, sources0, contents0));
      BackFillComplete(host, context, sources0, contents0);
      CompleteUnchanged(host, context, sources0, m.sourcesContent);
      var more := ProcessMap(m, context, host);
      dependencies := dependencies + more;
    } else {
      m.sources := Resolved(host, context, m.sources);
      dependencies := [];
    }
  }

  /** After back-filling there is one content per source: the old ones in
      place, then the content of the source at each missing index. So the
      second call of `processMap` goes straight to resolving, and the
      recursion ends. */
  lemma BackFillComplete(host: Host, context: string, sources: seq<Option<string>>, sourcesContent: Option<seq<Option<string>>>)
    requires Incomplete(sources, sourcesContent)
    ensures var r := BackFilled(host, context, sources, sourcesContent);
      var have := if sourcesContent.Some? then |sourcesContent.value| else 0;
      && |r| == |sources| && !Incomplete(sources, Some(r))
      && (sourcesContent.Some? ==> r[..have] == sourcesContent.value)
      && forall i :: have <= i < |sources| ==> r[i] == Fetch(host, context, sources[i])
  {
  }

  /** A complete map keeps its `sourcesContent` and adds no dependency
      before resolving. */
  lemma CompleteUnchanged(host: Host, context: string, sources: seq<Option<string>>, sourcesContent: Option<seq<Option<string>>>)
    requires !Incomplete(sources, sourcesContent)
    ensures Some(Completed(host, context, sources, sourcesContent)) == sourcesContent
    ensures BackFillDependencies(host, context, sources, sourcesContent) == []
  {
  }

  // ---------------------------------------------------------------------------
  // The loader

  datatype Outcome =
    | PassedThrough(text: string, inputMap: Option<Parsed>)   // `this.callback(null, input, inputMap)`
    | Failed(dependencies: seq<string>)                        // `callback(err)`
    | Thrown(dependencies: seq<string>)                        // `JSON.parse` threw
    | Done(text: string, result: Parsed, dependencies: seq<string>)

  /** Where the map comes from: parsed, with the context its sources are
      resolved against and the dependencies added so far, or the outcome
      that stops the loader. */
  datatype Fetched = Got(parsed: Parsed, context: string, dependencies: seq<string>) | Stopped(outcome: Outcome)

  /** The map named by `url`: decoded from an inline base64 data URL, or
      resolved against the context, added as a dependency and read. */
  function FetchMap(url: string, host: Host): (r: Fetched)
    ensures r.Stopped? ==> r.outcome.Failed? || r.outcome.Thrown?
    ensures r.Stopped? && r.outcome.Failed? ==> Inline(url).None?
  {
    match Inline(url)
    case Some(im) =>
      (match host.parseJson(host.decodeBase64(Payload(url, im)))
       case None => Stopped(Thrown([]))
       case Some(parsed) => Got(parsed, host.context, []))
    case None =>
      match host.resolve(host.context, Some(url))
      case None => Stopped(Failed([]))
      case Some(path) =>
        match host.readFile(path)
        case None => Stopped(Failed([path]))
        case Some(content) =>
          match host.parseJson(content)
          case None => Stopped(Thrown([path]))
          case Some(parsed) => Got(parsed, host.dirname(path), [path])
  }

  /** The URL `match[1]` gives under `reading`: as written, the whole
      capture; as intended, the capture without its trailing white space. */
  function UrlAs(s: string, m: Match, reading: Reading): (r: string)
    requires m.urlStart <= m.urlEnd <= |s|
    ensures reading == AsWritten ==> r == Capture1(s, m)
    ensures reading == Intended ==> r == UsedUrl(s, m)
  {
    if reading == AsWritten then Capture1(s, m) else UsedUrl(s, m)
  }

  /** What the directive gives way to under `reading`. */
  function ReplacementAs(s: string, l: Located, reading: Reading): (r: string)
    requires l.m.urlEnd <= l.m.end <= |s|
    ensures reading == AsWritten ==> r == ReplacementAsWritten(s, l)
    ensures reading == Intended ==> r == Replacement(s, l)
  {
    if reading == AsWritten then ReplacementAsWritten(s, l) else Replacement(s, l)
  }

  /** The outcome of `processMap` on `parsed`, the directive `l` replaced
      as `reading` says. */
  function Processed(input: string, l: Located, reading: Reading, parsed: Parsed, context: string, host: Host, dependencies: seq<string>): (r: Outcome)
    requires l.m.start <= l.m.urlEnd <= l.m.end <= |input|
    ensures r.Done? && r.text == Replaced(input, l, ReplacementAs(input, l, reading))
    ensures r.result.sources == Resolved(host, context, parsed.sources)
    ensures r.result.sourcesContent == Some(Completed(host, context, parsed.sources, parsed.sourcesContent))
    ensures r.dependencies == dependencies + BackFillDependencies(host, context, parsed.sources, parsed.sourcesContent)
  {
    Done(Replaced(input, l, ReplacementAs(input, l, reading)),
         Parsed(Resolved(host, context, parsed.sources), Some(Completed(host, context, parsed.sources, parsed.sourcesContent))),
         dependencies + BackFillDependencies(host, context, parsed.sources, parsed.sourcesContent))
  }

  /** What `module.exports(input, inputMap)` hands back, read as `reading`. */
  function LoadSpecAs(input: string, inputMap: Option<Parsed>, host: Host, reading: Reading): (r: Outcome)
    ensures r.PassedThrough? <==> Locate(input).None?
    ensures r.PassedThrough? ==> r == PassedThrough(input, inputMap)
    ensures Locate(input).Some? ==> var l := Locate(input).value;
      && (r.Done? <==> FetchMap(UrlAs(input, l.m, reading), host).Got?)
      && (r.Done? ==> r.text == Replaced(input, l, ReplacementAs(input, l, reading)))
  {
    match Locate(input)
    case None => PassedThrough(input, inputMap)
    case Some(l) =>
      match FetchMap(UrlAs(input, l.m, reading), host)
      case Stopped(outcome) => outcome
      case Got(parsed, context, dependencies) => Processed(input, l, reading, parsed, context, host, dependencies)
  }

  /** The loader as written: the map is fetched for the whole capture,
      and a block directive gives way to `undefined`. The text passes
      through only without a directive; a map is processed exactly when
      one is fetched for the capture. */
  function LoadSpec(input: string, inputMap: Option<Parsed>, host: Host): (r: Outcome)
    ensures r.PassedThrough? <==> Locate(input).None?
    ensures r.PassedThrough? ==> r == PassedThrough(input, inputMap)
    ensures Locate(input).Some? ==> var l := Locate(input).value;
      && (r.Done? <==> FetchMap(Capture1(input, l.m), host).Got?)
      && (r.Done? ==> r.text == Replaced(input, l, ReplacementAsWritten(input, l)))
  {
    LoadSpecAs(input, inputMap, host, AsWritten)
  }

  /** The loader as intended: the map is fetched for the URL without the
      white space before the comment's end, and the directive gives way to
      its line terminator or to nothing. */
  function LoadSpecCorrected(input: string, inputMap: Option<Parsed>, host: Host): (r: Outcome)
    ensures r.PassedThrough? <==> Locate(input).None?
    ensures r.PassedThrough? ==> r == PassedThrough(input, inputMap)
    ensures Locate(input).Some? ==> var l := Locate(input).value;
      && (r.Done? <==> FetchMap(UsedUrl(input, l.m), host).Got?)
      && (r.Done? ==> r.text == Replaced(input, l, Replacement(input, l)))
  {
    LoadSpecAs(input, inputMap, host, Intended)
  }

  /** The loader, with the map object changed in place by `ProcessMap`. */
  method Load(input: string, inputMap: Option<Parsed>, host: Host) returns (r: Outcome)
    ensures r == LoadSpec(input, inputMap, host)
  {
    var located := Locate(input);
    if located.None? {
      return PassedThrough(input, inputMap);
    }
    var l := located.value;
    var fetched := FetchMap(Capture1(input, l.m), host);
    if fetched.Stopped? {
      return fetched.outcome;
    }
    var sourceMap := new MapObject(fetched.parsed);
    var more := ProcessMap(sourceMap, fetched.context, host);
    r := Done(Replaced(input, l, ReplacementAsWritten(input, l)), Parsed(sourceMap.sources, sourceMap.sourcesContent), fetched.dependencies + more);
  }

  // ---------------------------------------------------------------------------
  // Properties of the loader

  /** Without a directive the text and the incoming map pass through. */
  lemma LoadNoDirective(input: string, inputMap: Option<Parsed>, host: Host)
    requires Locate(input).None?
    ensures LoadSpec(input, inputMap, host) == PassedThrough(input, inputMap)
    ensures LoadSpecCorrected(input, inputMap, host) == PassedThrough(input, inputMap)
  {
  }

  /** The loader as written and as intended agree on every text whose
      directive is a line directive with no white space at the end of its
      capture. */
  lemma LoadSpecAgrees(input: string, inputMap: Option<Parsed>, host: Host)
    requires Locate(input).Some? ==> var l := Locate(input).value;
      l.form == Directive.Line && Capture1(input, l.m) == UsedUrl(input, l.m)
    ensures LoadSpec(input, inputMap, host) == LoadSpecCorrected(input, inputMap, host)
  {
  }

  /** A line directive written out alone: both readings agree, a map is
      processed exactly when one is fetched for the written URL, and the
      text comes out as it was without the directive. */
  lemma LoadWrittenLine(prefix: string, url: string, rest: string, s: string, inputMap: Option<Parsed>, host: Host)
    requires WrittenLine(prefix, url, rest, s)
    ensures LoadSpec(s, inputMap, host) == LoadSpecCorrected(s, inputMap, host)
    ensures LoadSpec(s, inputMap, host).Done? <==> FetchMap(url, host).Got?
    ensures LoadSpec(s, inputMap, host).Done? ==> LoadSpec(s, inputMap, host).text == prefix + rest
  {
    LineDirectiveFound(prefix, url, rest, s);
    LoadSpecAgrees(s, inputMap, host);
  }

  /** A block directive written out alone: as written, the map is fetched
      for the URL with the space before the comment's end and the comment gives way to
      `undefined`; as intended, the map is fetched for the URL and the
      comment is removed. */
  lemma LoadWrittenBlock(prefix: string, url: string, rest: string, s: string, inputMap: Option<Parsed>, host: Host)
    requires WrittenBlock(prefix, url, rest, s)
    ensures LoadSpec(s, inputMap, host).Done? <==> FetchMap(url + " ", host).Got?
    ensures LoadSpec(s, inputMap, host).Done? ==> LoadSpec(s, inputMap, host).text == prefix + Undefined + rest
    ensures LoadSpecCorrected(s, inputMap, host).Done? <==> FetchMap(url, host).Got?
    ensures LoadSpecCorrected(s, inputMap, host).Done? ==> LoadSpecCorrected(s, inputMap, host).text == prefix + rest
  {
    BlockDirectiveFound(prefix, url, rest, s);
    BlockDirectiveRemoved(prefix, url, rest, s);
  }

  /** An inline map is decoded from the URL alone: resolving and reading
      play no part, and nothing is added as a dependency. */
  lemma InlineNeedsNoFiles(url: string, host: Host, resolve: (string, Option<string>) -> Option<string>, readFile: string -> Option<string>)
    requires Inline(url).Some?
    ensures FetchMap(url, host) == FetchMap(url, host.(resolve := resolve, readFile := readFile))
    ensures FetchMap(url, host).Got? ==> FetchMap(url, host).dependencies == [] && FetchMap(url, host).context == host.context
  {
  }

  /** An external map: an unresolvable URL fails with no dependency; once
      resolved, the path is a dependency whether or not it can be read; a
      map read is resolved against the directory of its own path. */
  lemma ExternalMap(url: string, host: Host)
    requires Inline(url).None?
    ensures host.resolve(host.context, Some(url)).None? ==> FetchMap(url, host) == Stopped(Failed([]))
    ensures host.resolve(host.context, Some(url)).Some? ==>
      var path := host.resolve(host.context, Some(url)).value;
      && (host.readFile(path).None? <==> FetchMap(url, host) == Stopped(Failed([path])))
      && (FetchMap(url, host).Got? ==> FetchMap(url, host).context == host.dirname(path) && FetchMap(url, host).dependencies == [path])
  {
  }

  /** Whenever a map is processed, it comes back with at least one content
      per source (exactly one when any was missing) and its sources
      resolved index for index. */
  lemma ProcessedComplete(input: string, l: Located, reading: Reading, parsed: Parsed, context: string, host: Host, dependencies: seq<string>)
    requires l.m.start <= l.m.urlEnd <= l.m.end <= |input|
    ensures var r := Processed(input, l, reading, parsed, context, host, dependencies).result;
      && |r.sources| == |parsed.sources| && r.sourcesContent.Some? && |r.sourcesContent.value| >= |r.sources|
      && (Incomplete(parsed.sources, parsed.sourcesContent) ==> |r.sourcesContent.value| == |r.sources|)
      && forall i :: 0 <= i < |r.sources| ==> r.sources[i] == host.resolve(context, parsed.sources[i])
  {
    CompletedLength(host, context, parsed.sources, parsed.sourcesContent);
  }

  /** The final `sourcesContent` is at least as long as `sources`. */
  lemma CompletedLength(host: Host, context: string, sources: seq<Option<string>>, sourcesContent: Option<seq<Option<string>>>)
    ensures |Completed(host, context, sources, sourcesContent)| >= |sources|
    ensures Incomplete(sources, sourcesContent) ==> |Completed(host, context, sources, sourcesContent)| == |sources|
  {
    if Incomplete(sources, sourcesContent) {
      BackFillComplete(host, context, sources, sourcesContent);
    }
  }

  // ---------------------------------------------------------------------------
  // A directive written out is found


  /** With its keyword the only one, a match of either form can start only
      at a header written at `d`. */
  lemma OnlyStart(s: string, d: nat, f: Directive.Form, p: nat, form: Directive.Form)
    requires Directive.HeaderText(s, d, f) && Directive.OnlyKeyword(s, d) && p <= |s|
    ensures MatchAt(s, p, form).Some? ==> p == d && OccursAt(s, p, Directive.Opening(form))
  {
    if MatchAt(s, p, form).Some? {
      var h := Directive.Header(s, p, form).value;
      assert Directive.HeaderShape(s, p, form, h.0, h.1, h.2);
      Directive.ShapeOpening(s, d, f, p, form, h.0, h.1, h.2);
    }
  }

  lemma NoMatchBeforeWritten(s: string, d: nat, f: Directive.Form, form: Directive.Form)
    requires Directive.HeaderText(s, d, f) && Directive.OnlyKeyword(s, d)
    ensures NoMatchBefore(s, d, form)
  {
    forall k: nat | k < d && k <= |s| ensures MatchAt(s, k, form).None? {
      OnlyStart(s, d, f, k, form);
    }
  }

  /** A written line directive leaves the block form unmatched. */
  lemma NoBlockMatch(s: string, d: nat)
    requires Directive.HeaderText(s, d, Directive.Line) && Directive.OnlyKeyword(s, d)
    ensures FirstMatch(s, Directive.Block).None?
  {
    assert s[d..d + 2][1] == '/';
    assert !OccursAt(s, d, Directive.Opening(Directive.Block));
    forall k: nat | k <= |s| ensures MatchAt(s, k, Directive.Block).None? {
      OnlyStart(s, d, Directive.Line, k, Directive.Block);
    }
    FirstMatchLeftmost(s, Directive.Block);
  }

  /** The line expression at a written line directive: the capture is the
      URL, up to the line terminator. */
  lemma LineMatchAt(s: string, d: nat, t: nat)
    requires Directive.HeaderText(s, d, Directive.Line) && Directive.UrlText(s, d + 21, t)
    requires Directive.ClosingText(s, t, Directive.Line)
    ensures MatchAt(s, d, Directive.Line) == Some(Directive.DirectiveMatch(d, Directive.LineEnd(s, t), d + 21, t))
  {
    Directive.DirectiveHeader(s, d, Directive.Line);
    SkipWhileUnique(s, d + 21, Directive.JsWhitespace, d + 21);
    assert LineTerminators <= Directive.JsWhitespace;
    ScanUntilUnique(s, d + 21, LineTerminators, t);
    Directive.LineTail(s, t);
  }

  /** No comment end, a star and then a slash, from `c` on. */
  ghost predicate NoCommentEnd(s: string, c: nat) {
    forall i: nat :: c <= i ==> !OccursAt(s, i, "*/")
  }

  /** A comment end at `i`, character by character. */
  lemma CommentEndAt(s: string, i: nat)
    ensures OccursAt(s, i, "*/") <==> i + 1 < |s| && s[i] == '*' && s[i + 1] == '/'
  {
    if i + 1 < |s| {
      assert s[i..i + 2] == [s[i], s[i + 1]];
    }
  }

  /** The block expression at a written block directive whose comment
      closes the line: the greedy capture runs to the end of the line, then
      gives back `*` and `/` for the tail, keeping the space before them. */
  lemma BlockMatchAt(s: string, d: nat, t: nat)
    requires Directive.HeaderText(s, d, Directive.Block) && Directive.UrlText(s, d + 21, t)
    requires Directive.ClosingText(s, t, Directive.Block)
    requires (t + 3 < |s| ==> s[t + 3] == '\n' || s[t + 3] == '\r') && NoCommentEnd(s, t + 3)
    ensures MatchAt(s, d, Directive.Block) == Some(Directive.DirectiveMatch(d, t + 3, d + 21, t + 1))
  {
    Directive.DirectiveHeader(s, d, Directive.Block);
    SkipWhileUnique(s, d + 21, Directive.JsWhitespace, d + 21);
    BlockScan(s, d, t);
    BlockTails(s, t);
    BlockCapture(s, d, d + 21, t);
    BlockMatchFrom(s, d, t, (d + 2, d + 4, d + 21));
  }

  lemma BlockMatchFrom(s: string, d: nat, t: nat, h: (nat, nat, nat))
    requires d + 21 < t && t + 3 <= |s| && Directive.Header(s, d, Directive.Block) == Some(h) && h.2 == d + 21
    requires ScanUntil(s, d + 21, LineTerminators) == t + 3 && SkipWhile(s, d + 21, Directive.JsWhitespace) == d + 21
    requires Capture(s, d, d + 21, d + 21, t + 3, Directive.Block) == Some(Directive.DirectiveMatch(d, t + 3, d + 21, t + 1))
    ensures MatchAt(s, d, Directive.Block) == Some(Directive.DirectiveMatch(d, t + 3, d + 21, t + 1))
  {
  }

  /** The line of a written block directive ends after the comment. */
  lemma BlockScan(s: string, d: nat, t: nat)
    requires Directive.UrlText(s, d + 21, t) && Directive.ClosingText(s, t, Directive.Block)
    requires t + 3 < |s| ==> s[t + 3] == '\n' || s[t + 3] == '\r'
    ensures ScanUntil(s, d + 21, LineTerminators) == t + 3
  {
    assert LineTerminators <= Directive.JsWhitespace;
    assert s[t] !in LineTerminators && s[t + 1] !in LineTerminators && s[t + 2] !in LineTerminators;
    ScanUntilUnique(s, d + 21, LineTerminators, t + 3);
  }

  /** The block tail fails after the comment and at its slash, and
      succeeds at its star. */
  lemma BlockTails(s: string, t: nat)
    requires Directive.ClosingText(s, t, Directive.Block) && NoCommentEnd(s, t + 3)
    ensures Directive.Tail(s, t + 3, Directive.Block).None?
    ensures Directive.Tail(s, t + 2, Directive.Block).None?
    ensures Directive.Tail(s, t + 1, Directive.Block) == Some(t + 3)
  {
    SkipWhileUnique(s, t + 2, Directive.JsWhitespace, t + 2);
    SkipWhileUnique(s, t + 1, Directive.JsWhitespace, t + 1);
    CommentEndAt(s, SkipWhile(s, t + 3, Directive.JsWhitespace));
  }

  /** Backtracking from the end of the line to the star. */
  lemma BlockCapture(s: string, d: nat, eq: nat, t: nat)
    requires eq < t && t + 3 <= |s|
    requires Directive.Tail(s, t + 3, Directive.Block).None? && Directive.Tail(s, t + 2, Directive.Block).None?
    requires Directive.Tail(s, t + 1, Directive.Block) == Some(t + 3)
    ensures Capture(s, d, eq, eq, t + 3, Directive.Block) == Some(Directive.DirectiveMatch(d, t + 3, eq, t + 1))
  {
    assert Capture(s, d, eq, eq, t + 1, Directive.Block) == Some(Directive.DirectiveMatch(d, t + 3, eq, t + 1));
    assert Capture(s, d, eq, eq, t + 2, Directive.Block) == Capture(s, d, eq, eq, t + 1, Directive.Block);
  }

  /** `//# sourceMappingURL=` and `url` appended to `prefix`, followed by
      `rest`, which is empty or starts a new line; `sourceMappingURL` occurs
      nowhere else. */
  ghost predicate WrittenLine(prefix: string, url: string, rest: string, s: string) {
    && s == prefix + Directive.WrittenHeader(Directive.Line) + url + rest
    && url != [] && (forall i :: 0 <= i < |url| ==> url[i] !in Directive.JsWhitespace)
    && (rest == [] || rest[0] == '\n' || rest[0] == '\r')
    && Directive.OnlyKeyword(s, |prefix|)
  }

  /** The same with the block form, closed by a space, a star and a slash,
      the comment closing its line and `rest` closing no comment. */
  ghost predicate WrittenBlock(prefix: string, url: string, rest: string, s: string) {
    && s == prefix + Directive.WrittenHeader(Directive.Block) + url + (" */" + rest)
    && url != [] && (forall i :: 0 <= i < |url| ==> url[i] !in Directive.JsWhitespace)
    && (rest == [] || rest[0] == '\n' || rest[0] == '\r')
    && (forall i: nat :: !OccursAt(rest, i, "*/"))
    && Directive.OnlyKeyword(s, |prefix|)
  }

  /** A line directive written after any text without another
      `sourceMappingURL` is the one located, with the URL written; it is
      replaced by its own line terminator, so the text is what it was
      without the directive. */
  lemma LineDirectiveFound(prefix: string, url: string, rest: string, s: string)
    requires WrittenLine(prefix, url, rest, s)
    ensures Locate(s) == Some(Located(Directive.DirectiveMatch(|prefix|, |s| - |rest| + Directive.TerminatorLength(rest), |prefix| + 21, |s| - |rest|), Directive.Line))
    ensures Capture1(s, Locate(s).value.m) == url && UsedUrl(s, Locate(s).value.m) == url
    ensures Replaced(s, Locate(s).value, Replacement(s, Locate(s).value)) == prefix + rest
  {
    var d, t := |prefix|, |prefix| + 21 + |url|;
    Directive.WrittenLayout(prefix, Directive.Line, url, rest, s, t);
    Directive.LineClosing(s, t, rest);
    var m := Directive.DirectiveMatch(d, Directive.LineEnd(s, t), d + 21, t);
    LineLocated(s, d, t);
    assert m == Directive.DirectiveMatch(|prefix|, |s| - |rest| + Directive.TerminatorLength(rest), |prefix| + 21, |s| - |rest|);
    assert Locate(s) == Some(Located(m, Directive.Line));
    assert s[d + 21..t] == url;
    TrimNoop(url, Directive.JsWhitespace);
    LineReplaced(prefix, url, rest, s, t, m);
  }

  /** A placed line directive is the one located. */
  lemma LineLocated(s: string, d: nat, t: nat)
    requires Directive.HeaderText(s, d, Directive.Line) && Directive.UrlText(s, d + 21, t)
    requires Directive.ClosingText(s, t, Directive.Line) && Directive.OnlyKeyword(s, d)
    ensures Locate(s) == Some(Located(Directive.DirectiveMatch(d, Directive.LineEnd(s, t), d + 21, t), Directive.Line))
  {
    LineMatchAt(s, d, t);
    NoBlockMatch(s, d);
    NoMatchBeforeWritten(s, d, Directive.Line, Directive.Line);
    FirstMatchIs(s, d, Directive.Line);
  }

  lemma LineReplaced(prefix: string, url: string, rest: string, s: string, t: nat, m: Match)
    requires s == prefix + Directive.WrittenHeader(Directive.Line) + url + rest && t == |prefix| + 21 + |url|
    requires m == Directive.DirectiveMatch(|prefix|, t + Directive.TerminatorLength(rest), |prefix| + 21, t) && m.end <= |s|
    requires OccursAt(s, |prefix| + 4, Directive.Keyword) && Directive.OnlyKeyword(s, |prefix|)
    ensures Replaced(s, Located(m, Directive.Line), Replacement(s, Located(m, Directive.Line))) == prefix + rest
  {
    Directive.FirstCopy(s, |prefix|, m.end);
    LineRemoved(prefix, url, rest, s, t, m.end);
  }

  lemma LineRemoved(prefix: string, url: string, rest: string, s: string, t: nat, e: nat)
    requires s == prefix + Directive.WrittenHeader(Directive.Line) + url + rest && t == |prefix| + 21 + |url|
    requires e == t + Directive.TerminatorLength(rest) && e <= |s|
    ensures s[..|prefix|] + s[t..e] + s[e..] == prefix + rest
  {
    assert s[t..] == rest;
    assert s[t..e] + s[e..] == s[t..];
    assert s[..|prefix|] == prefix;
  }

  /** A block directive written the same way is located too, but its
      capture keeps the space before the comment's end; the URL used is the
      one written. */
  lemma BlockDirectiveFound(prefix: string, url: string, rest: string, s: string)
    requires WrittenBlock(prefix, url, rest, s)
    ensures Locate(s) == Some(Located(Directive.DirectiveMatch(|prefix|, |prefix| + |url| + 24, |prefix| + 21, |prefix| + |url| + 22), Directive.Block))
    ensures Capture1(s, Locate(s).value.m) == url + " "
    ensures UsedUrl(s, Locate(s).value.m) == url
  {
    BlockWrittenLocated(prefix, url, rest, s, Directive.DirectiveMatch(|prefix|, |prefix| + |url| + 24, |prefix| + 21, |prefix| + |url| + 22));
    BlockWrittenCapture(prefix, url, rest, s, Directive.DirectiveMatch(|prefix|, |prefix| + |url| + 24, |prefix| + 21, |prefix| + |url| + 22));
  }

  /** The written block directive is located as `m`. */
  lemma BlockWrittenLocated(prefix: string, url: string, rest: string, s: string, m: Match)
    requires WrittenBlock(prefix, url, rest, s) && m == Directive.DirectiveMatch(|prefix|, |prefix| + |url| + 24, |prefix| + 21, |prefix| + |url| + 22)
    ensures Locate(s) == Some(Located(m, Directive.Block))
  {
    BlockWrittenPlaced(prefix, url, rest, s);
    BlockLocatedAs(s, |prefix|, |prefix| + 21 + |url|, m);
  }

  lemma BlockWrittenPlaced(prefix: string, url: string, rest: string, s: string)
    requires WrittenBlock(prefix, url, rest, s)
    ensures BlockPlaced(s, |prefix|, |prefix| + 21 + |url|)
  {
    BlockLayout(prefix, url, rest, s, |prefix| + 21 + |url|);
  }

  lemma BlockLocatedAs(s: string, d: nat, t: nat, m: Match)
    requires BlockPlaced(s, d, t) && m == Directive.DirectiveMatch(d, t + 3, d + 21, t + 1)
    ensures Locate(s) == Some(Located(m, Directive.Block))
  {
    BlockLocated(s, d, t);
  }

  /** What the capture of `m` holds, and the URL used from it. */
  lemma BlockWrittenCapture(prefix: string, url: string, rest: string, s: string, m: Match)
    requires WrittenBlock(prefix, url, rest, s) && m == Directive.DirectiveMatch(|prefix|, |prefix| + |url| + 24, |prefix| + 21, |prefix| + |url| + 22)
    ensures m.urlStart <= m.urlEnd <= |s| && Capture1(s, m) == url + " " && UsedUrl(s, m) == url
  {
    BlockLayout(prefix, url, rest, s, |prefix| + 21 + |url|);
    BlockUrl(url, s, m);
  }

  /** The comment is removed; as written, `undefined` takes its place. */
  lemma BlockDirectiveRemoved(prefix: string, url: string, rest: string, s: string)
    requires WrittenBlock(prefix, url, rest, s)
    ensures Locate(s).Some?
    ensures Replaced(s, Locate(s).value, Replacement(s, Locate(s).value)) == prefix + rest
    ensures Replaced(s, Locate(s).value, ReplacementAsWritten(s, Locate(s).value)) == prefix + Undefined + rest
  {
    var d, t := |prefix|, |prefix| + 21 + |url|;
    BlockLayout(prefix, url, rest, s, t);
    BlockLocated(s, d, t);
    BlockReplaced(prefix, url, rest, s, t, Directive.DirectiveMatch(d, t + 3, d + 21, t + 1));
  }

  /** A block directive placed at `d`, its URL ending at `t`, its comment
      closing the line, with no other `sourceMappingURL` and no later end
      of comment. */
  ghost predicate BlockPlaced(s: string, d: nat, t: nat) {
    && Directive.HeaderText(s, d, Directive.Block) && Directive.UrlText(s, d + 21, t)
    && Directive.ClosingText(s, t, Directive.Block) && Directive.OnlyKeyword(s, d)
    && (t + 3 < |s| ==> s[t + 3] == '\n' || s[t + 3] == '\r') && NoCommentEnd(s, t + 3)
  }

  lemma BlockLayout(prefix: string, url: string, rest: string, s: string, t: nat)
    requires WrittenBlock(prefix, url, rest, s) && t == |prefix| + 21 + |url|
    ensures BlockPlaced(s, |prefix|, t) && t + 3 + |rest| == |s|
    ensures s[|prefix| + 21..t + 1] == url + " " && url != [] && url[|url| - 1] !in Directive.JsWhitespace
  {
    Directive.WrittenLayout(prefix, Directive.Block, url, " */" + rest, s, t);
    Directive.BlockClosing(s, t, rest);
    BlockRest(prefix, url, rest, s, t);
  }

  /** A placed block directive is the one located. */
  lemma BlockLocated(s: string, d: nat, t: nat)
    requires BlockPlaced(s, d, t)
    ensures Locate(s) == Some(Located(Directive.DirectiveMatch(d, t + 3, d + 21, t + 1), Directive.Block))
  {
    BlockMatchAt(s, d, t);
    NoMatchBeforeWritten(s, d, Directive.Block, Directive.Block);
    FirstMatchIs(s, d, Directive.Block);
  }

  /** The capture with its trailing space, and without it. */
  lemma BlockUrl(url: string, s: string, m: Match)
    requires m.urlStart <= m.urlEnd <= |s| && s[m.urlStart..m.urlEnd] == url + " "
    requires url != [] && url[|url| - 1] !in Directive.JsWhitespace
    ensures Capture1(s, m) == url + " " && UsedUrl(s, m) == url
  {
    TrimEndUnique(url + " ", Directive.JsWhitespace, |url|);
    assert (url + " ")[..|url|] == url;
  }

  lemma BlockReplaced(prefix: string, url: string, rest: string, s: string, t: nat, m: Match)
    requires WrittenBlock(prefix, url, rest, s) && t == |prefix| + 21 + |url|
    requires m == Directive.DirectiveMatch(|prefix|, t + 3, |prefix| + 21, t + 1) && t + 3 <= |s|
    requires OccursAt(s, |prefix| + 4, Directive.Keyword)
    ensures Replaced(s, Located(m, Directive.Block), Replacement(s, Located(m, Directive.Block))) == prefix + rest
    ensures Replaced(s, Located(m, Directive.Block), ReplacementAsWritten(s, Located(m, Directive.Block))) == prefix + Undefined + rest
  {
    Directive.FirstCopy(s, |prefix|, m.end);
    BlockRemoved(prefix, url, rest, s, t);
  }

  /** Where `rest` sits after a written block directive. */
  lemma BlockRest(prefix: string, url: string, rest: string, s: string, t: nat)
    requires WrittenBlock(prefix, url, rest, s) && t == |prefix| + 21 + |url|
    ensures t + 3 + |rest| == |s| && s[t..t + 3] == " */" && s[t + 3..] == rest
    ensures s[t + 3 - 2..t + 3] == "*/" && s[..|prefix|] == prefix
    ensures s[|prefix| + 21..t + 1] == url + " "
    ensures (t + 3 < |s| ==> s[t + 3] == '\n' || s[t + 3] == '\r') && NoCommentEnd(s, t + 3)
  {
    assert s == (prefix + Directive.WrittenHeader(Directive.Block) + url) + (" */" + rest);
    assert s[t..] == " */" + rest;
    assert s[|prefix| + 21..t] == url;
    forall i: nat | t + 3 <= i ensures !OccursAt(s, i, "*/") {
      CommentEndAt(s, i);
      CommentEndAt(rest, i - (t + 3));
      assert i + 1 < |s| ==> s[i] == rest[i - (t + 3)] && s[i + 1] == rest[i - (t + 3) + 1];
    }
  }

  lemma BlockRemoved(prefix: string, url: string, rest: string, s: string, t: nat)
    requires WrittenBlock(prefix, url, rest, s) && t == |prefix| + 21 + |url|
    ensures s[..|prefix|] + [] + s[t + 3..] == prefix + rest
    ensures s[..|prefix|] + Undefined + s[t + 3..] == prefix + Undefined + rest
  {
    BlockRest(prefix, url, rest, s, t);
  }
}
