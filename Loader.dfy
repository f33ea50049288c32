/** The loader of `src/index.js`: the directive located in the module's
    text decides whether a source map is looked for at all; an inline
    (`data:`) or external map is read through the host; the map's sources
    are fetched one by one; and the results are reassembled into the map
    handed on, with the directive removed from the text.

    What the host and the foreign libraries answer (`data-urls` with the
    character decoding and `JSON.parse`, `resolve`, `fs.readFile`,
    `isAbsolute`, the consumer's `sourceContentFor`, `flattenSourceMap`,
    `path.dirname`) is given as functions in `Host`. */
module Loader {
  import opened Text
  import opened HttpGrammar
  import opened Directive
  import opened SourceMapUtils

  /** The fields of a source map that the loader reads or writes; `other`
      stands for every other field, which `{ ...map }` copies as it is. */
  datatype SourceMap = SourceMap(
    sources: seq<string>,
    sourcesContent: Option<seq<Option<string>>>,
    sourceRoot: Option<string>,
    sections: bool,
    other: map<string, string>)

  /** What fetching one source gives: the path it was read from, and its text. */
  datatype Info = Info(source: string, content: string)

  datatype Warning =
    | InlineMapUnreadable          // the inline map's decoding or JSON failed
    | InlineMapUnparsable(url: string)   // `data:` that is no data URL
    | MapNotFound(url: string)
    | MapUnreadable(path: string)
    | MapUnparsable(url: string)
    | SourceNotFound(source: string)      // a source that cannot be resolved
    | SourceUnreadable(path: string)      // a source file that cannot be read

  /** What the loader hands to `callback`, with the warnings it emitted and
      the dependencies it added, in order. */
  datatype Outcome = Outcome(text: string, sourceMap: Option<SourceMap>, warnings: seq<Warning>, dependencies: seq<string>)

  datatype Host = Host(
    context: string,
    /** `parseDataURL(url)`, then decoding and `JSON.parse`: `None` when it
        is no data URL, `Some(None)` when decoding or parsing throws. */
    parseDataUrl: string -> Option<Option<SourceMap>>,
    /** `resolve(context, urlToRequest(path, true))`. */
    resolve: (string, string) -> Option<string>,
    readFile: string -> Option<string>,
    parseJson: string -> Option<SourceMap>,
    dirname: string -> string,
    flatten: SourceMap -> SourceMap,
    isAbsolute: string -> bool,
    sourceContentFor: (SourceMap, string) -> Option<string>)

  // ---------------------------------------------------------------------------
  // Dispatch on the directive's URL

  /** `url.toLowerCase().indexOf('data:') === 0`. */
  /** So the URL starts with `data:` in any mix of letter cases. */
  predicate IsDataPrefix(url: string): (r: bool)
    ensures r <==>
      && |url| >= 5 && (url[0] == 'd' || url[0] == 'D') && (url[1] == 'a' || url[1] == 'A')
      && (url[2] == 't' || url[2] == 'T') && (url[3] == 'a' || url[3] == 'A') && url[4] == ':'
  {
    if |url| >= 5 then
      var l := AsciiLowercase(url[..5]);
      assert l == "data:" <==> l[0] == 'd' && l[1] == 'a' && l[2] == 't' && l[3] == 'a' && l[4] == ':';
      l == "data:"
    else false
  }

  /** Where the loader goes after locating a directive: it stops, with the
      warnings emitted and dependencies added, or it processes a map in a
      context. */
  datatype Step =
    | Stop(warnings: seq<Warning>, dependencies: seq<string>)
    | Process(sourceMap: SourceMap, context: string, dependencies: seq<string>)

  /** The decisions of `loader` from `parseDataURL(url)` on. */
  function Dispatch(url: string, host: Host): (r: Step)
    ensures r.Stop? ==> |r.warnings| == 1
  {
    match host.parseDataUrl(url)
    case Some(decoded) =>
      (match decoded
       case None => Stop([InlineMapUnreadable], [])
       case Some(sourceMap) => Process(sourceMap, host.context, []))
    case None =>
      if IsDataPrefix(url) then Stop([InlineMapUnparsable(url)], [])
      else
        match host.resolve(host.context, url)
        case None => Stop([MapNotFound(url)], [])
        case Some(path) =>
          match host.readFile(path)
          case None => Stop([MapUnreadable(path)], [path])
          case Some(text) =>
            match host.parseJson(text)
            case None => Stop([MapUnparsable(url)], [path])
            case Some(sourceMap) => Process(sourceMap, host.dirname(path), [path])
  }

  /** A URL that starts with `data:` but is no data URL gives exactly one
      warning and nothing else; it is never resolved as a path. */
  lemma UnparsableDataUrl(url: string, host: Host)
    requires IsDataPrefix(url) && host.parseDataUrl(url).None?
    ensures Dispatch(url, host) == Stop([InlineMapUnparsable(url)], [])
    ensures forall h: Host :: h.parseDataUrl(url).None? ==> Dispatch(url, h) == Dispatch(url, host)
  {
  }

  /** An external map is processed in the directory of the file it was
      read from, and that file is the one dependency added. */
  lemma ExternalMapContext(url: string, host: Host)
    requires host.parseDataUrl(url).None? && !IsDataPrefix(url)
    requires Dispatch(url, host).Process?
    ensures var path := host.resolve(host.context, url);
      && path.Some? && Dispatch(url, host).context == host.dirname(path.value)
      && Dispatch(url, host).dependencies == [path.value]
  {
  }

  // ---------------------------------------------------------------------------
  // One source

  /** `map.sourceRoot ? sourceRoot + "/" + source : source`. */
  function FullPath(sourceRoot: Option<string>, source: string): (r: string)
    ensures |r| >= |source| && r[|r| - |source|..] == source
    ensures Truthy(sourceRoot) ==> |r| > |sourceRoot.value| && r[..|sourceRoot.value| + 1] == sourceRoot.value + "/"
    ensures !Truthy(sourceRoot) ==> r == source
  {
    if Truthy(sourceRoot) then sourceRoot.value + "/" + source else source
  }

  /** `readFile` of `src/utils.js`: the path read from and its text, or
      `null` when reading fails. */
  function ReadFile(path: string, host: Host): (r: Option<Info>)
    ensures r.Some? <==> host.readFile(path).Some?
    ensures r.Some? ==> r.value == Info(path, host.readFile(path).value)
  {
    match host.readFile(path)
    case None => None
    case Some(content) => Some(Info(path, content))
  }

  /** The result for one source of `map`: an absolute path with embedded
      content gives that content; an absolute path without it is read;
      any other path is resolved in `context`, then read. */
  function SourceResult(host: Host, sourceMap: SourceMap, context: string, source: string): Option<Info> {
    var fullPath := FullPath(sourceMap.sourceRoot, source);
    if host.isAbsolute(fullPath) then
      var embedded := host.sourceContentFor(sourceMap, source);
      if Truthy(embedded) then Some(Info(fullPath, embedded.value)) else ReadFile(fullPath, host)
    else
      match host.resolve(context, fullPath)
      case None => None
      case Some(path) => ReadFile(path, host)
  }

  /** Embedded content of an absolute path is taken without reading or
      resolving anything: whatever the file system and the resolver would
      answer, the result is the same. */
  lemma EmbeddedShortcut(host: Host, sourceMap: SourceMap, context: string, source: string,
                         readFile: string -> Option<string>, resolve: (string, string) -> Option<string>)
    requires host.isAbsolute(FullPath(sourceMap.sourceRoot, source)) && Truthy(host.sourceContentFor(sourceMap, source))
    ensures SourceResult(host, sourceMap, context, source)
         == Some(Info(FullPath(sourceMap.sourceRoot, source), host.sourceContentFor(sourceMap, source).value))
    ensures SourceResult(host.(readFile := readFile, resolve := resolve), sourceMap, context, source)
         == SourceResult(host, sourceMap, context, source)
  {
  }

  /** A source fails (gives `null`) exactly when its file cannot be found or
      read; a found source is named by the path its text came from. */
  lemma SourceFailure(host: Host, sourceMap: SourceMap, context: string, source: string)
    ensures var fullPath := FullPath(sourceMap.sourceRoot, source);
      var path := if host.isAbsolute(fullPath) then Some(fullPath) else host.resolve(context, fullPath);
      SourceResult(host, sourceMap, context, source).None? <==>
        && !(host.isAbsolute(fullPath) && Truthy(host.sourceContentFor(sourceMap, source)))
        && (path.None? || host.readFile(path.value).None?)
  {
  }

  /** The warning emitted for one source of `map`: the source when it
      cannot be resolved, the path when its file cannot be read. */
  function SourceWarning(host: Host, sourceMap: SourceMap, context: string, source: string): (r: Option<Warning>)
    ensures r.Some? <==> SourceResult(host, sourceMap, context, source).None?
  {
    var fullPath := FullPath(sourceMap.sourceRoot, source);
    if host.isAbsolute(fullPath) then
      if Truthy(host.sourceContentFor(sourceMap, source)) || host.readFile(fullPath).Some? then None
      else Some(SourceUnreadable(fullPath))
    else
      match host.resolve(context, fullPath)
      case None => Some(SourceNotFound(source))
      case Some(path) => if host.readFile(path).Some? then None else Some(SourceUnreadable(path))
  }

  /** The warnings emitted for `sources`, in source order. */
  function SourceWarnings(host: Host, sourceMap: SourceMap, context: string, sources: seq<string>): (r: seq<Warning>)
    ensures |r| <= |sources|
  {
    if sources == [] then []
    else
      var w := SourceWarning(host, sourceMap, context, sources[|sources| - 1]);
      SourceWarnings(host, sourceMap, context, sources[..|sources| - 1]) + (if w.Some? then [w.value] else [])
  }

  /** `async.map(map.sources, …)`: one result per source, in source order. */
  function Results(host: Host, sourceMap: SourceMap, context: string): (r: seq<Option<Info>>)
    ensures |r| == |sourceMap.sources|
    ensures forall i :: 0 <= i < |r| ==> r[i] == SourceResult(host, sourceMap, context, sourceMap.sources[i])
  {
    seq(|sourceMap.sources|, i requires 0 <= i < |sourceMap.sources| => SourceResult(host, sourceMap, context, sourceMap.sources[i]))
  }

  // ---------------------------------------------------------------------------
  // Reassembly

  /** The paths `addDependency` receives: the truthy sources of `kept`. */
  function Dependencies(kept: seq<Info>): (r: seq<string>)
    ensures |r| <= |kept|
    ensures forall x :: x in r ==> x != []
  {
    if kept == [] then []
    else Dependencies(kept[..|kept| - 1]) + (if kept[|kept| - 1].source != [] then [kept[|kept| - 1].source] else [])
  }

  /** The map handed on: `map` with its sources replaced by the surviving
      paths, normalised, its contents by theirs, and no `sourceRoot`. */
  function Rebuilt(sourceMap: SourceMap, info: seq<Option<Info>>): (r: SourceMap)
    ensures |r.sources| == |Somes(info)| && r.sourcesContent.Some? && |r.sourcesContent.value| == |r.sources|
    ensures r.sourceRoot.None?
  {
    var kept := Somes(info);
    sourceMap.(sources := seq(|kept|, j requires 0 <= j < |kept| => Normalize(kept[j].source)),
         sourcesContent := Some(seq(|kept|, j requires 0 <= j < |kept| => Some(kept[j].content))),
         sourceRoot := None)
  }

  /** The join callback's loop: push each surviving result's normalised
      path and content, add its path as a dependency when truthy. */
  method Reassemble(sourceMap: SourceMap, info: seq<Option<Info>>) returns (result: SourceMap, dependencies: seq<string>)
    ensures result == Rebuilt(sourceMap, info)
    ensures dependencies == Dependencies(Somes(info))
  {
    var sources: seq<string> := [];
    var contents: seq<Option<string>> := [];
    dependencies := [];
    ghost var kept: seq<Info> := [];
    var i := 0;
    while i < |info|
      invariant 0 <= i <= |info|
      invariant kept == Somes(info[..i])
      invariant Aligned(sources, contents, kept)
      invariant dependencies == Dependencies(kept)
    {
      SomesStep(info, i);
      if info[i].Some? {
        var res := info[i].value;
        AlignedStep(sources, contents, kept, res);
        DependenciesStep(kept, res);
        sources := sources + [Normalize(res.source)];
        contents := contents + [Some(res.content)];
        if res.source != [] {
          dependencies := dependencies + [res.source];
        }
        kept := kept + [res];
      }
      i := i + 1;
    }
    assert info[..i] == info;
    AlignedIsRebuilt(sources, contents, kept);
    result := sourceMap.(sources := sources, sourcesContent := Some(contents), sourceRoot := None);
  }

  /** `sources` and `contents` hold, position by position, the normalised
      path and the content of each result in `kept`. */
  ghost predicate Aligned(sources: seq<string>, contents: seq<Option<string>>, kept: seq<Info>) {
    && |sources| == |kept| && |contents| == |kept|
    && (forall j :: 0 <= j < |kept| ==> sources[j] == Normalize(kept[j].source))
    && (forall j :: 0 <= j < |kept| ==> contents[j] == Some(kept[j].content))
  }

  lemma AlignedStep(sources: seq<string>, contents: seq<Option<string>>, kept: seq<Info>, res: Info)
    requires Aligned(sources, contents, kept)
    ensures Aligned(sources + [Normalize(res.source)], contents + [Some(res.content)], kept + [res])
  {
  }

  lemma AlignedIsRebuilt(sources: seq<string>, contents: seq<Option<string>>, kept: seq<Info>)
    requires Aligned(sources, contents, kept)
    ensures sources == seq(|kept|, j requires 0 <= j < |kept| => Normalize(kept[j].source))
    ensures contents == seq(|kept|, j requires 0 <= j < |kept| => Some(kept[j].content))
  {
  }

  lemma DependenciesStep(kept: seq<Info>, res: Info)
    ensures Dependencies(kept + [res]) == Dependencies(kept) + (if res.source != [] then [res.source] else [])
  {
    assert (kept + [res])[..|kept|] == kept;
  }

  /** Every source either survives or gives exactly one warning. */
  lemma {:induction false} WarningsCount(host: Host, sourceMap: SourceMap, context: string, sources: seq<string>, info: seq<Option<Info>>)
    requires |info| == |sources|
    requires forall i :: 0 <= i < |info| ==> info[i] == SourceResult(host, sourceMap, context, sources[i])
    ensures |SourceWarnings(host, sourceMap, context, sources)| + |Somes(info)| == |sources|
  {
    if sources != [] {
      var n := |sources| - 1;
      var ws, w := SourceWarnings(host, sourceMap, context, sources[..n]), SourceWarning(host, sourceMap, context, sources[n]);
      assert SourceWarnings(host, sourceMap, context, sources) == ws + (if w.Some? then [w.value] else []);
      WarningsCount(host, sourceMap, context, sources[..n], info[..n]);
      CountStep(ws, w, info);
    }
  }

  lemma CountStep(ws: seq<Warning>, w: Option<Warning>, info: seq<Option<Info>>)
    requires info != [] && |ws| + |Somes(info[..|info| - 1])| == |info| - 1
    requires w.Some? <==> info[|info| - 1].None?
    ensures |ws + (if w.Some? then [w.value] else [])| + |Somes(info)| == |info|
  {
  }

  /** The rebuilt map: one normalised path and one content per surviving
      result, aligned by position; no backslash in any path; no
      `sourceRoot`; every other field as it was. */
  lemma RebuiltShape(sourceMap: SourceMap, info: seq<Option<Info>>)
    ensures var r, kept := Rebuilt(sourceMap, info), Somes(info);
      && |r.sources| == |kept| && r.sourcesContent.Some? && |r.sourcesContent.value| == |kept|
      && (forall j :: 0 <= j < |kept| ==> r.sources[j] == Normalize(kept[j].source))
      && (forall j :: 0 <= j < |kept| ==> r.sourcesContent.value[j] == Some(kept[j].content))
      && (forall j :: 0 <= j < |kept| ==> NoBackslash(r.sources[j]))
      && r.sourceRoot.None? && r.other == sourceMap.other && r.sections == sourceMap.sections
  {
    var kept := Somes(info);
    forall j | 0 <= j < |kept| ensures NoBackslash(Normalize(kept[j].source)) {
      NormalizeProperties(kept[j].source);
    }
  }

  // ---------------------------------------------------------------------------
  // Removing the directive

  /** The text without the directive located: everything before `match[0]`
      and everything after it. */
  function Strip(input: string, m: DirectiveMatch): (r: string)
    requires m.start <= m.end <= |input|
    ensures |r| == |input| - (m.end - m.start)
  {
    input[..m.start] + input[m.end..]
  }

  /** `input.replace(match[0], '')` as written: the first occurrence of the
      matched text is removed, wherever it is. */
  function StripAsWritten(input: string, m: DirectiveMatch): (r: string)
    requires m.start <= m.end <= |input|
    ensures |r| == |input| - (m.end - m.start)
    ensures IndexOfFrom(input, input[m.start..m.end], 0) == Some(m.start) ==> r == Strip(input, m)
  {
    assert OccursAt(input, m.start, input[m.start..m.end]);
    ReplaceFirst(input, input[m.start..m.end], "")
  }

  /** A line directive appended to `prefix` is removed together with its
      line terminator, leaving the rest of the text after it. */
  lemma StripWrittenLine(prefix: string, url: string, rest: string, s: string)
    requires WrittenLine(prefix, url, rest, s)
    ensures Locate(s).Some? && Url(s, Locate(s).value) == url
    ensures Strip(s, Locate(s).value) == prefix + rest[TerminatorLength(rest)..]
  {
    LineDirectiveFound(prefix, url, rest, s);
    LineStripped(prefix, url, rest, s, Locate(s).value);
  }

  lemma LineStripped(prefix: string, url: string, rest: string, s: string, m: DirectiveMatch)
    requires s == prefix + WrittenHeader(Line) + url + rest
    requires m == DirectiveMatch(|prefix|, |s| - |rest| + TerminatorLength(rest), |prefix| + 21, |s| - |rest|)
    ensures m.start <= m.end <= |s| && Strip(s, m) == prefix + rest[TerminatorLength(rest)..]
  {
    assert s[..m.start] == prefix;
    assert s[m.end..] == rest[TerminatorLength(rest)..];
  }

  /** A block directive appended to `prefix` is removed, leaving what
      follows the comment. */
  lemma StripWrittenBlock(prefix: string, url: string, rest: string, s: string)
    requires WrittenBlock(prefix, url, rest, s)
    ensures Locate(s).Some? && Url(s, Locate(s).value) == url
    ensures Strip(s, Locate(s).value) == prefix + rest
  {
    BlockDirectiveFound(prefix, url, rest, s);
    BlockStripped(prefix, url, rest, s, Locate(s).value);
  }

  lemma BlockStripped(prefix: string, url: string, rest: string, s: string, m: DirectiveMatch)
    requires s == prefix + WrittenHeader(Block) + url + " */" + rest
    requires m == DirectiveMatch(|prefix|, |s| - |rest|, |prefix| + 21, |s| - |rest| - 3)
    ensures m.start <= m.end <= |s| && Strip(s, m) == prefix + rest
  {
    assert s[..m.start] == prefix;
    assert s[m.end..] == rest;
  }

  /** As written, the removal can miss the directive used. In a text holding
      the same line directive twice, the second one is located (the last
      directive wins), yet `replace` removes the first copy and leaves the
      located one in place; `Strip` removes the located one. */
  lemma ReplaceFirstStripsEarlierCopy(url: string, t: string, s: string)
    requires url != [] && forall i :: 0 <= i < |url| ==> url[i] !in JsWhitespace && url[i] != 's'
    requires t == WrittenHeader(Line) + url && s == t + "\n" + t
    ensures Locate(s) == Some(DirectiveMatch(|t| + 1, |s|, |t| + 22, |s|))
    ensures StripAsWritten(s, Locate(s).value) == "\n" + t
    ensures Strip(s, Locate(s).value) == t + "\n"
  {
    CopiesLocated(url, t, s, DirectiveMatch(|t| + 1, |s|, |t| + 22, |s|));
    CopiesStripped(t, s, DirectiveMatch(|t| + 1, |s|, |t| + 22, |s|));
  }

  /** The second copy is the directive located, as `m`. */
  lemma CopiesLocated(url: string, t: string, s: string, m: DirectiveMatch)
    requires url != [] && forall i :: 0 <= i < |url| ==> url[i] !in JsWhitespace && url[i] != 's'
    requires t == WrittenHeader(Line) + url && s == t + "\n" + t
    requires m == DirectiveMatch(|t| + 1, |s|, |t| + 22, |s|)
    ensures Locate(s) == Some(m)
  {
    CopiesWritten(url, t, s);
    CopiesLineFound(t + "\n", url, s, m);
  }

  /** A line directive ending the text is located as `m`. */
  lemma CopiesLineFound(prefix: string, url: string, s: string, m: DirectiveMatch)
    requires WrittenLine(prefix, url, [], s) && m == DirectiveMatch(|prefix|, |s|, |prefix| + 21, |s|)
    ensures Locate(s) == Some(m)
  {
    LineDirectiveFound(prefix, url, [], s);
  }

  /** The second copy is a line directive written after the first. */
  lemma CopiesWritten(url: string, t: string, s: string)
    requires url != [] && forall i :: 0 <= i < |url| ==> url[i] !in JsWhitespace && url[i] != 's'
    requires t == WrittenHeader(Line) + url && s == t + "\n" + t
    ensures WrittenLine(t + "\n", url, [], s)
  {
    assert s == t + "\n" + WrittenHeader(Line) + url + [];
    TwoCopiesKeywords(url, t, s);
  }

  /** Both removals of the second copy `m`. */
  lemma CopiesStripped(t: string, s: string, m: DirectiveMatch)
    requires s == t + "\n" + t && m == DirectiveMatch(|t| + 1, |s|, |t| + 22, |s|)
    ensures StripAsWritten(s, m) == "\n" + t && Strip(s, m) == t + "\n"
  {
    RemoveCopies(t, s);
  }

  /** The URL of the second copy is the one written. */
  lemma CopiesUrl(url: string, t: string, s: string, m: DirectiveMatch)
    requires t == WrittenHeader(Line) + url && s == t + "\n" + t
    requires m == DirectiveMatch(|t| + 1, |s|, |t| + 22, |s|)
    ensures m.urlStart <= m.urlEnd <= |s| && Url(s, m) == url
  {
    assert s[|t| + 1..] == t;
    assert s[|t| + 22..] == t[21..];
  }

  /** Removing the first copy of `t` from `t + "\n" + t`, and removing the last. */
  lemma RemoveCopies(t: string, s: string)
    requires s == t + "\n" + t
    ensures ReplaceFirst(s, s[|t| + 1..|s|], "") == "\n" + t
    ensures s[..|t| + 1] + s[|s|..] == t + "\n"
  {
    assert s[|t| + 1..|s|] == t;
    assert OccursAt(s, 0, t);
    assert IndexOfFrom(s, t, 0) == Some(0);
    assert s[|t|..] == "\n" + t;
  }

  /** In two copies of a line directive whose URL has no `s`, the keyword
      occurs only in the two headers. */
  lemma TwoCopiesKeywords(url: string, t: string, s: string)
    requires forall i :: 0 <= i < |url| ==> url[i] != 's'
    requires t == WrittenHeader(Line) + url && s == t + "\n" + t
    ensures KeywordsBefore(s, |t| + 1)
  {
    HeaderHasOneS();
    forall i: nat | OccursAt(s, i, Keyword) ensures i == |t| + 5 || i + 16 <= |t| + 1 {
      assert s[i] == s[i..i + 16][0] == 's';
      assert i < |t| ==> s[i] == t[i];
      assert i > |t| ==> s[i] == t[i - |t| - 1];
      CopyChar(url, t, i);
      CopyChar(url, t, i - |t| - 1);
    }
  }

  /** A character of `t` at `k` is the header's or the URL's. */
  lemma CopyChar(url: string, t: string, k: int)
    requires t == WrittenHeader(Line) + url
    ensures 0 <= k < 21 ==> t[k] == WrittenHeader(Line)[k]
    ensures 21 <= k < |t| ==> t[k] == url[k - 21]
  {
  }

  /** The written line header has its only `s` at index 4. */
  lemma HeaderHasOneS()
    ensures forall k :: 0 <= k < 21 && WrittenHeader(Line)[k] == 's' ==> k == 4
  {
    assert WrittenHeader(Line) == "//# sourceMappingURL=";
  }

  // ---------------------------------------------------------------------------
  // The loader

  /** The map `processMap` works on: flattened first when it has sections. */
  function Prepared(sourceMap: SourceMap, host: Host): (r: SourceMap)
    ensures !sourceMap.sections ==> r == sourceMap
    ensures sourceMap.sections ==> r == host.flatten(sourceMap)
  {
    if sourceMap.sections then host.flatten(sourceMap) else sourceMap
  }

  /** How `src/index.js:189` takes the directive out: as written, the first
      copy of the matched text; as intended, the located range. */
  function Removed(input: string, m: DirectiveMatch, reading: Reading): string
    requires m.start <= m.end <= |input|
  {
    if reading == AsWritten then StripAsWritten(input, m) else Strip(input, m)
  }

  /** The join callback: with no surviving source the text and the map
      read are handed on as they are; otherwise the text without the
      directive and the rebuilt map. */
  function Finish(input: string, m: DirectiveMatch, reading: Reading, sourceMap: SourceMap, info: seq<Option<Info>>,
                  warnings: seq<Warning>, dependencies: seq<string>): (r: Outcome)
    requires m.start <= m.end <= |input|
    ensures r.warnings == warnings && r.dependencies == dependencies + Dependencies(Somes(info))
    ensures Somes(info) == [] ==> r.text == input && r.sourceMap == Some(sourceMap)
    ensures Somes(info) != [] ==> r.text == Removed(input, m, reading) && r.sourceMap == Some(Rebuilt(sourceMap, info))
  {
    var rebuilt := Rebuilt(sourceMap, info);
    var deps := dependencies + Dependencies(Somes(info));
    if |rebuilt.sources| == 0 then Outcome(input, Some(sourceMap), warnings, deps)
    else Outcome(Removed(input, m, reading), Some(rebuilt), warnings, deps)
  }

  /** `loader(input, inputMap)`, its last step read as `reading`. */
  function LoadAs(input: string, inputMap: Option<SourceMap>, host: Host, reading: Reading): Outcome {
    match Locate(input)
    case None => Outcome(input, inputMap, [], [])
    case Some(m) =>
      match Dispatch(Url(input, m), host)
      case Stop(warnings, deps) => Outcome(input, inputMap, warnings, deps)
      case Process(sourceMap, context, deps) =>
        var prepared := Prepared(sourceMap, host);
        Finish(input, m, reading, prepared, Results(host, prepared, context),
               SourceWarnings(host, prepared, context, prepared.sources), deps)
  }

  /** `loader(input, inputMap)` as written: the text passes through, or
      loses the first copy of the directive's text. */
  function Load(input: string, inputMap: Option<SourceMap>, host: Host): (r: Outcome)
    ensures Locate(input).None? ==> r == Outcome(input, inputMap, [], [])
    ensures r.text == input || (Locate(input).Some? && r.text == StripAsWritten(input, Locate(input).value))
  {
    LoadAs(input, inputMap, host, AsWritten)
  }

  /** The loader as intended: the located directive is the one removed.
      Only the text can differ from `Load`'s. */
  function LoadCorrected(input: string, inputMap: Option<SourceMap>, host: Host): (r: Outcome)
    ensures r.text == input || (Locate(input).Some? && r.text == Strip(input, Locate(input).value))
  {
    LoadAs(input, inputMap, host, Intended)
  }

  // ---------------------------------------------------------------------------
  // Properties of the loader

  /** Without a directive the text and the incoming map pass through, and
      nothing is warned about or added. */
  lemma LoadNoDirective(input: string, inputMap: Option<SourceMap>, host: Host)
    requires Locate(input).None?
    ensures Load(input, inputMap, host) == Outcome(input, inputMap, [], [])
    ensures LoadCorrected(input, inputMap, host) == Outcome(input, inputMap, [], [])
  {
  }

  /** When no map is obtained, the text and the incoming map pass through
      with exactly one warning; with a directive whose URL cannot be a data
      URL but starts with `data:`, that warning names the URL. */
  lemma LoadStopped(input: string, inputMap: Option<SourceMap>, host: Host)
    requires Locate(input).Some? && Dispatch(Url(input, Locate(input).value), host).Stop?
    ensures Load(input, inputMap, host).text == input && Load(input, inputMap, host).sourceMap == inputMap
    ensures LoadCorrected(input, inputMap, host) == Load(input, inputMap, host)
    ensures |Load(input, inputMap, host).warnings| == 1
    ensures var url := Url(input, Locate(input).value);
      IsDataPrefix(url) && host.parseDataUrl(url).None? ==>
        Load(input, inputMap, host).warnings == [InlineMapUnparsable(url)]
  {
  }

  /** When a map is obtained, the text keeps its directive unless some
      source survives; then the text loses the directive, removed as
      `reading` says, and the rebuilt map is handed on. One warning is
      emitted per source that does not survive. */
  lemma LoadProcessed(input: string, inputMap: Option<SourceMap>, host: Host, reading: Reading)
    requires Locate(input).Some? && Dispatch(Url(input, Locate(input).value), host).Process?
    ensures var m, step := Locate(input).value, Dispatch(Url(input, Locate(input).value), host);
      var sourceMap := Prepared(step.sourceMap, host);
      var kept := Somes(Results(host, sourceMap, step.context));
      var r := LoadAs(input, inputMap, host, reading);
      && r.warnings == SourceWarnings(host, sourceMap, step.context, sourceMap.sources)
      && |r.warnings| + |kept| == |sourceMap.sources|
      && (kept == [] ==> r.text == input && r.sourceMap == Some(sourceMap))
      && (kept != [] ==> r.text == Removed(input, m, reading) && r.sourceMap == Some(Rebuilt(sourceMap, Results(host, sourceMap, step.context))))
  {
    var step := Dispatch(Url(input, Locate(input).value), host);
    var sourceMap := Prepared(step.sourceMap, host);
    WarningsCount(host, sourceMap, step.context, sourceMap.sources, Results(host, sourceMap, step.context));
  }

  /** The two readings differ at most in the text. */
  lemma LoadReadings(input: string, inputMap: Option<SourceMap>, host: Host)
    ensures var a, b := Load(input, inputMap, host), LoadCorrected(input, inputMap, host);
      a.sourceMap == b.sourceMap && a.warnings == b.warnings && a.dependencies == b.dependencies
  {
  }

  /** The loader as written and as intended agree on every text whose
      directive's text has no copy before it. */
  lemma LoadAgrees(input: string, inputMap: Option<SourceMap>, host: Host)
    requires Locate(input).Some? ==>
      var m := Locate(input).value; IndexOfFrom(input, input[m.start..m.end], 0) == Some(m.start)
    ensures Load(input, inputMap, host) == LoadCorrected(input, inputMap, host)
  {
  }

  /** A module ending in a line directive whose map gives at least one
      source comes out, as intended, as the text before the directive and
      after its line; earlier directives may stand before it. */
  lemma LoadCorrectedWrittenLine(prefix: string, url: string, rest: string, s: string, inputMap: Option<SourceMap>, host: Host)
    requires WrittenLine(prefix, url, rest, s)
    requires Dispatch(url, host).Process?
    requires var step := Dispatch(url, host);
      Somes(Results(host, Prepared(step.sourceMap, host), step.context)) != []
    ensures LoadCorrected(s, inputMap, host).text == prefix + rest[TerminatorLength(rest)..]
  {
    StripWrittenLine(prefix, url, rest, s);
    LoadProcessed(s, inputMap, host, Intended);
  }

  /** As written, the same holds when the directive is the only one: no
      earlier text can be a copy of it. */
  lemma LoadWrittenLine(prefix: string, url: string, rest: string, s: string, inputMap: Option<SourceMap>, host: Host)
    requires WrittenLine(prefix, url, rest, s) && OnlyKeyword(s, |prefix|)
    requires Dispatch(url, host).Process?
    requires var step := Dispatch(url, host);
      Somes(Results(host, Prepared(step.sourceMap, host), step.context)) != []
    ensures Load(s, inputMap, host).text == prefix + rest[TerminatorLength(rest)..]
  {
    LineDirectiveFound(prefix, url, rest, s);
    LineFirstCopy(prefix, url, rest, s, Locate(s).value);
    LoadAgrees(s, inputMap, host);
    LoadCorrectedWrittenLine(prefix, url, rest, s, inputMap, host);
  }

  lemma LineFirstCopy(prefix: string, url: string, rest: string, s: string, m: DirectiveMatch)
    requires s == prefix + WrittenHeader(Line) + url + rest && OnlyKeyword(s, |prefix|)
    requires m == DirectiveMatch(|prefix|, |s| - |rest| + TerminatorLength(rest), |prefix| + 21, |s| - |rest|)
    ensures m.start <= m.end <= |s| && IndexOfFrom(s, s[m.start..m.end], 0) == Some(m.start)
  {
    var d := |prefix|;
    assert s[d..d + 21] == WrittenHeader(Line);
    assert s[d + 4..d + 20] == WrittenHeader(Line)[4..20] == Keyword;
    FirstCopy(s, d, m.end);
  }

  /** As written, a text holding the same line directive twice loses the
      first copy although the second is the one used; as intended it loses
      the second. */
  lemma LoadRemovesEarlierCopy(url: string, t: string, s: string, inputMap: Option<SourceMap>, host: Host)
    requires url != [] && forall i :: 0 <= i < |url| ==> url[i] !in JsWhitespace && url[i] != 's'
    requires t == WrittenHeader(Line) + url && s == t + "\n" + t
    requires Dispatch(url, host).Process?
    requires var step := Dispatch(url, host);
      Somes(Results(host, Prepared(step.sourceMap, host), step.context)) != []
    ensures Load(s, inputMap, host).text == "\n" + t
    ensures LoadCorrected(s, inputMap, host).text == t + "\n"
  {
    ReplaceFirstStripsEarlierCopy(url, t, s);
    CopiesUrl(url, t, s, Locate(s).value);
    LoadProcessed(s, inputMap, host, AsWritten);
    LoadProcessed(s, inputMap, host, Intended);
  }
}
