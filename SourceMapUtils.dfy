/** The helpers of `src/utils.js`: `normalize`, and the filter-and-copy
    skeleton of `flattenSourceMap`, with the `source-map` consumer given as
    its list of sources, its content lookup, its mapping stream and its
    source lookup by generated position. */
module SourceMapUtils {
  import opened Text

  /** JavaScript truthiness of a value that is a string or `null`: present
      and not empty. */
  predicate Truthy(o: Option<string>) {
    o.Some? && o.value != []
  }

  // ---------------------------------------------------------------------------
  // normalize

  /** `path.replace(/\\/g, '/')`: every backslash becomes a slash. */
  function Normalize(path: string): (r: string)
    ensures |r| == |path|
  {
    if path == [] then [] else [if path[0] == '\\' then '/' else path[0]] + Normalize(path[1..])
  }

  predicate NoBackslash(s: string) {
    forall i :: 0 <= i < |s| ==> s[i] != '\\'
  }

  /** Character by character: a backslash becomes a slash and every other
      character is kept where it was. */
  lemma {:induction false} NormalizeChars(path: string)
    ensures forall i :: 0 <= i < |path| ==>
      Normalize(path)[i] == if path[i] == '\\' then '/' else path[i]
  {
    if path != [] {
      NormalizeChars(path[1..]);
      forall i | 1 <= i < |path|
        ensures Normalize(path)[i] == if path[i] == '\\' then '/' else path[i]
      {
        assert Normalize(path)[i] == Normalize(path[1..])[i - 1];
      }
    }
  }

  /** No backslash is left, normalising twice is normalising once, and a
      path without backslashes is unchanged. */
  lemma NormalizeProperties(path: string)
    ensures NoBackslash(Normalize(path))
    ensures Normalize(Normalize(path)) == Normalize(path)
    ensures NoBackslash(path) <==> Normalize(path) == path
  {
    NormalizeChars(path);
    NormalizeChars(Normalize(path));
  }

  // ---------------------------------------------------------------------------
  // flattenSourceMap

  datatype Position = Position(line: int, column: int)

  /** A mapping of the consumer's `eachMapping` stream. */
  datatype RawMapping = RawMapping(generated: Position, original: Position)

  /** A mapping as handed to `addMapping`. */
  datatype Mapping = Mapping(source: string, original: Position, generated: Position)

  /** What `toJSON` gives back: the file, the recorded contents per source,
      and the mappings in the order they were added. */
  datatype FlatMap = FlatMap(file: Option<string>, sourcesContent: map<string, Option<string>>, mappings: seq<Mapping>)

  /** The `SourceMapGenerator`, as far as `flattenSourceMap` uses it. */
  class Generator {
    var file: Option<string>
    var contents: map<string, Option<string>>
    var mappings: seq<Mapping>

    constructor (file: Option<string>)
      ensures this.file == file && contents == map[] && mappings == []
    {
      this.file := file;
      contents := map[];
      mappings := [];
    }

    method SetSourceContent(source: string, content: Option<string>)
      modifies this
      ensures contents == old(contents)[source := content]
      ensures file == old(file) && mappings == old(mappings)
    {
      contents := contents[source := content];
    }

    method AddMapping(m: Mapping)
      modifies this
      ensures mappings == old(mappings) + [m]
      ensures file == old(file) && contents == old(contents)
    {
      mappings := mappings + [m];
    }

    function ToJson(): FlatMap
      reads this
    {
      FlatMap(file, contents, mappings)
    }
  }

  /** The mapping `addMapping` receives for `m` when its source is `source`. */
  function Copy(m: RawMapping, source: string): (r: Mapping)
    ensures r.source == source && r.original == m.original && r.generated == m.generated
  {
    Mapping(source, m.original, m.generated)
  }

  /** The mappings kept from the stream `ms`: those whose looked-up source
      is truthy, copied, in stream order. */
  function Kept(ms: seq<RawMapping>, sourceAt: Position -> Option<string>): (r: seq<Mapping>)
    ensures |r| <= |ms|
  {
    if ms == [] then []
    else
      var m := ms[|ms| - 1];
      var source := sourceAt(m.generated);
      Kept(ms[..|ms| - 1], sourceAt) + (if Truthy(source) then [Copy(m, source.value)] else [])
  }

  /** The contents recorded for `sources`, each source in turn. */
  function Contents(sources: seq<string>, contentFor: string -> Option<string>): (r: map<string, Option<string>>)
  {
    if sources == [] then map[]
    else Contents(sources[..|sources| - 1], contentFor)[sources[|sources| - 1] := contentFor(sources[|sources| - 1])]
  }

  /** The generator's file: the map's `file` when it is truthy. */
  function FileOf(file: Option<string>): (r: Option<string>)
    ensures Truthy(file) ==> r == file
    ensures !Truthy(file) ==> r.None?
  {
    if Truthy(file) then file else None
  }

  /** `flattenSourceMap`: the contents of every source of the consumer, then
      the mappings whose looked-up source is truthy. */
  method FlattenSourceMap(file: Option<string>, sources: seq<string>, contentFor: string -> Option<string>,
                          stream: seq<RawMapping>, sourceAt: Position -> Option<string>)
    returns (r: FlatMap)
    ensures r == FlatMap(FileOf(file), Contents(sources, contentFor), Kept(stream, sourceAt))
  {
    var generated := new Generator(FileOf(file));
    var i := 0;
    while i < |sources|
      invariant 0 <= i <= |sources|
      invariant generated.file == FileOf(file) && generated.mappings == []
      invariant generated.contents == Contents(sources[..i], contentFor)
    {
      assert sources[..i + 1][..i] == sources[..i];
      generated.SetSourceContent(sources[i], contentFor(sources[i]));
      i := i + 1;
    }
    assert sources[..i] == sources;
    var j := 0;
    while j < |stream|
      invariant 0 <= j <= |stream|
      invariant generated.file == FileOf(file) && generated.contents == Contents(sources, contentFor)
      invariant generated.mappings == Kept(stream[..j], sourceAt)
    {
      assert stream[..j + 1][..j] == stream[..j];
      var source := sourceAt(stream[j].generated);
      if Truthy(source) {
        generated.AddMapping(Copy(stream[j], source.value));
      }
      j := j + 1;
    }
    assert stream[..j] == stream;
    r := generated.ToJson();
  }

  // ---------------------------------------------------------------------------
  // Properties

  /** Keeping is done mapping by mapping: it distributes over concatenation,
      so the kept mappings are in stream order. */
  lemma {:induction false} KeptConcat(a: seq<RawMapping>, b: seq<RawMapping>, sourceAt: Position -> Option<string>)
    ensures Kept(a + b, sourceAt) == Kept(a, sourceAt) + Kept(b, sourceAt)
    decreases |b|
  {
    if b == [] {
      assert a + b == a;
    } else {
      var b' := b[..|b| - 1];
      assert (a + b)[..|a + b| - 1] == a + b';
      KeptConcat(a, b', sourceAt);
    }
  }

  /** One mapping is kept exactly when its looked-up source is truthy, and
      then with that source and its positions unchanged. */
  lemma KeptOne(m: RawMapping, sourceAt: Position -> Option<string>)
    ensures Truthy(sourceAt(m.generated)) ==> Kept([m], sourceAt) == [Copy(m, sourceAt(m.generated).value)]
    ensures !Truthy(sourceAt(m.generated)) ==> Kept([m], sourceAt) == []
  {
    assert [m][..0] == [];
  }

  /** Every kept mapping has a non-empty source and copies a mapping of the
      stream; every mapping of the stream whose source is truthy is kept. */
  lemma {:induction false} KeptMembers(ms: seq<RawMapping>, sourceAt: Position -> Option<string>)
    ensures forall x :: x in Kept(ms, sourceAt) ==>
      x.source != [] && exists i :: 0 <= i < |ms| && Truthy(sourceAt(ms[i].generated)) && x == Copy(ms[i], sourceAt(ms[i].generated).value)
    ensures forall i :: 0 <= i < |ms| && Truthy(sourceAt(ms[i].generated)) ==>
      Copy(ms[i], sourceAt(ms[i].generated).value) in Kept(ms, sourceAt)
  {
    if ms != [] {
      var init := ms[..|ms| - 1];
      KeptMembers(init, sourceAt);
      forall x | x in Kept(ms, sourceAt)
        ensures x.source != [] && exists i :: 0 <= i < |ms| && Truthy(sourceAt(ms[i].generated)) && x == Copy(ms[i], sourceAt(ms[i].generated).value)
      {
        if x in Kept(init, sourceAt) {
          var i :| 0 <= i < |init| && Truthy(sourceAt(init[i].generated)) && x == Copy(init[i], sourceAt(init[i].generated).value);
          assert ms[i] == init[i];
        } else {
          assert x == Copy(ms[|ms| - 1], sourceAt(ms[|ms| - 1].generated).value);
        }
      }
      forall i | 0 <= i < |ms| && Truthy(sourceAt(ms[i].generated))
        ensures Copy(ms[i], sourceAt(ms[i].generated).value) in Kept(ms, sourceAt)
      {
        if i < |init| {
          assert ms[i] == init[i];
        }
      }
    }
  }

  /** When every looked-up source is truthy, every mapping is kept. */
  lemma {:induction false} KeptAll(ms: seq<RawMapping>, sourceAt: Position -> Option<string>)
    requires forall i :: 0 <= i < |ms| ==> Truthy(sourceAt(ms[i].generated))
    ensures |Kept(ms, sourceAt)| == |ms|
  {
    if ms != [] {
      KeptAll(ms[..|ms| - 1], sourceAt);
    }
  }

  /** Every source of the consumer has its content recorded, and nothing
      else is. */
  lemma {:induction false} ContentsRecorded(sources: seq<string>, contentFor: string -> Option<string>)
    ensures forall s :: s in Contents(sources, contentFor) <==> s in sources
    ensures forall s :: s in Contents(sources, contentFor) ==> Contents(sources, contentFor)[s] == contentFor(s)
  {
    if sources != [] {
      var init := sources[..|sources| - 1];
      ContentsRecorded(init, contentFor);
      assert sources == init + [sources[|sources| - 1]];
    }
  }
}
