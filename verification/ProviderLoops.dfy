/** Loops over sources and paths that both providers run. */
module ProviderLoops {
  import opened Wrappers
  import opened Bytes
  import opened ProviderProtocol
  import Sets

  /** The sources of a population held as a map, in whatever order the map yields them. */
  method ListSources(m: Sources) returns (list: seq<SourceIdentity>)
    requires Keyed(m)
    ensures Lists(list, m)
  {
    list := [];
    var pending := m.Keys;
    while pending != {}
      invariant pending <= m.Keys
      invariant Lists(list, m - pending)
      decreases |pending|
    {
      var path :| path in pending;
      ghost var listed := m - pending;
      pending := pending - {path};
      assert (m - pending) - {path} == listed;
      OneMoreListed(m - pending, path, list);
      list := [m[path]] + list;
    }
    assert m - pending == m;
  }

  /** The sources filed by path; None if two of them share one. */
  method FileSources(list: seq<SourceIdentity>) returns (filed: Option<Sources>)
    ensures filed.Some? <==> DistinctPaths(list)
    ensures filed.Some? ==> filed.value == SourceMap(list) && Keyed(filed.value) && Lists(list, filed.value)
  {
    var sources: Sources := map[];
    var i := 0;
    while i < |list|
      invariant 0 <= i <= |list|
      invariant DistinctPaths(list[..i])
      invariant sources == SourceMap(list[..i])
    {
      var source := list[i];
      assert list[..i + 1] == list[..i] + [source];
      SourceMapLists(list[..i]);
      NewSource(list, i, sources);
      hide Lists, DistinctPaths;
      if source.documentPath in sources { return None; }
      sources := sources[source.documentPath := source];
      i := i + 1;
    }
    assert list[..i] == list;
    SourceMapLists(list);
    filed := Some(sources);
  }

  method ListPaths(m: Sources) returns (paths: seq<Text>)
    ensures |paths| == |m.Keys|
    ensures forall p :: p in paths <==> p in m.Keys
  {
    paths := [];
    var pending := m.Keys;
    while pending != {}
      invariant pending <= m.Keys
      invariant |paths| + |pending| == |m.Keys|
      invariant forall p :: p in paths <==> p in m.Keys - pending
      decreases |pending|
    {
      var path :| path in pending;
      pending := pending - {path};
      paths := paths + [path];
    }
  }

  /** The elements of a list, when there are as many as list positions, occur once each. */
  lemma {:induction false} OnceEach(paths: seq<Text>, elements: set<Text>)
    requires |paths| == |elements| && forall p :: p in paths <==> p in elements
    ensures multiset(paths) == multiset(elements)
  {
    if paths == [] {
      assert elements == {};
    } else {
      var rest := paths[1..];
      assert paths == [paths[0]] + rest;
      if paths[0] in rest {
        ElementsAtMost(rest, elements);
        assert false;
      }
      OnceEach(rest, elements - {paths[0]});
      assert multiset(elements) == multiset{paths[0]} + multiset(elements - {paths[0]});
    }
  }

  lemma {:induction false} ElementsAtMost(paths: seq<Text>, elements: set<Text>)
    requires forall p :: p in elements ==> p in paths
    ensures |elements| <= |paths|
  {
    if paths == [] {
      Sets.NoElements(elements);
    } else {
      assert paths == [paths[0]] + paths[1..];
      ElementsAtMost(paths[1..], elements - {paths[0]});
    }
  }
}
