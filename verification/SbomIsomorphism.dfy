/** An accepted normalization renames the nodes of the dependency graph and changes nothing
    else about it. */
module SbomIsomorphism {
  import opened Wrappers
  import opened JsonTrees
  import opened SbomNormalize

  function MapTexts(f: string -> string, refs: seq<string>): (r: seq<string>)
    ensures |r| == |refs| && forall i | 0 <= i < |refs| :: r[i] == f(refs[i])
  {
    seq(|refs|, i requires 0 <= i < |refs| => f(refs[i]))
  }

  // ---- replacing strings renames references and keeps the shape ----

  function MapForest<S, T>(f: S -> T, components: Option<seq<Json<S>>>): Option<seq<Json<T>>> {
    match components
    case None => None
    case Some(cs) => Some(MapAll(f, cs))
  }

  lemma {:induction false} MapAllAppend<S, T>(f: S -> T, a: seq<Json<S>>, b: seq<Json<S>>)
    ensures MapAll(f, a + b) == MapAll(f, a) + MapAll(f, b)
  {
    var whole, parts := MapAll(f, a + b), MapAll(f, a) + MapAll(f, b);
    forall i | 0 <= i < |whole| ensures whole[i] == parts[i] {
      assert whole[i] == MapStrings(f, (a + b)[i]);
    }
  }

  lemma {:induction false} TreeMapped<S, T>(f: S -> T, j: Json<S>)
    ensures ComponentTree(MapStrings(f, j)) == MapForest(f, ComponentTree(j))
    decreases j
  {
    if j.Object? {
      GetMapped(f, j, "components");
      assert MapAll(f, [j]) == [MapStrings(f, j)];
      match Get(j, "components")
      case Some(List(items)) =>
        ForestMapped(f, items);
        if ComponentForest(items).Some? { MapAllAppend(f, [j], ComponentForest(items).value); }
      case _ =>
    }
  }

  lemma {:induction false} ForestMapped<S, T>(f: S -> T, items: seq<Json<S>>)
    ensures ComponentForest(MapAll(f, items)) == MapForest(f, ComponentForest(items))
    decreases items
  {
    if items != [] {
      TreeMapped(f, items[0]);
      ForestMapped(f, items[1..]);
      assert MapAll(f, items)[1..] == MapAll(f, items[1..]);
      if ComponentTree(items[0]).Some? && ComponentForest(items[1..]).Some? {
        MapAllAppend(f, ComponentTree(items[0]).value, ComponentForest(items[1..]).value);
      }
    }
  }

  lemma ComponentsMapped<S, T>(f: S -> T, doc: Json<S>)
    ensures DocumentComponents(MapStrings(f, doc)) == MapForest(f, DocumentComponents(doc))
  {
    MetadataMapped(f, doc);
    ArrayMapped(f, doc, "components");
    if MetadataComponent(doc).Some? && ArrayAt(doc, "components").Some? {
      var described := MetadataComponent(doc).value;
      var head := if described.Some? then [described.value] else [];
      var items := ArrayAt(doc, "components").value;
      ForestMapped(f, head + items);
      MapAllAppend(f, head, items);
      assert MapAll(f, head) == if described.Some? then [MapStrings(f, described.value)] else [];
    }
  }

  lemma MetadataMapped<S, T>(f: S -> T, doc: Json<S>)
    ensures MetadataComponent(MapStrings(f, doc)).Some? <==> MetadataComponent(doc).Some?
    ensures MetadataComponent(doc).Some? ==>
      MetadataComponent(MapStrings(f, doc)).value == MapOption(f, MetadataComponent(doc).value)
  {
    GetMapped(f, doc, "metadata");
    match Get(doc, "metadata")
    case Some(Object(fields)) => FindMapped(f, fields, "component");
    case _ =>
  }

  lemma {:induction false} RefsMapped(f: string -> string, components: seq<Document>)
    ensures RefsOf(MapAll(f, components)) == MapTexts(f, RefsOf(components))
  {
    if components != [] {
      RefsMapped(f, components[1..]);
      GetMapped(f, components[0], "bom-ref");
      assert MapAll(f, components)[1..] == MapAll(f, components[1..]);
      assert RefOf(MapStrings(f, components[0])) == MapTexts(f, RefOf(components[0]));
    }
  }

  function MapDependency(f: string -> string, d: Dependency): Dependency {
    Dependency(if d.parent.Some? then Some(f(d.parent.value)) else None, MapTexts(f, d.children))
  }

  function MapDependencies(f: string -> string, ds: seq<Dependency>): (r: seq<Dependency>)
    ensures |r| == |ds| && forall i | 0 <= i < |ds| :: r[i] == MapDependency(f, ds[i])
  {
    seq(|ds|, i requires 0 <= i < |ds| => MapDependency(f, ds[i]))
  }

  lemma {:induction false} TextsMapped(f: string -> string, items: seq<Document>)
    ensures TextsAmong(MapAll(f, items)) == MapTexts(f, TextsAmong(items))
  {
    if items != [] {
      TextsMapped(f, items[1..]);
      assert MapAll(f, items)[1..] == MapAll(f, items[1..]);
    }
  }

  lemma DependencyMapped(f: string -> string, entry: Document)
    ensures DependencyOf(MapStrings(f, entry)).Some? <==> DependencyOf(entry).Some?
    ensures DependencyOf(entry).Some?
      ==> DependencyOf(MapStrings(f, entry)).value == MapDependencies(f, DependencyOf(entry).value)
  {
    ArrayMapped(f, entry, "dependsOn");
    GetMapped(f, entry, "ref");
    if ArrayAt(entry, "dependsOn").Some? { TextsMapped(f, ArrayAt(entry, "dependsOn").value); }
  }

  lemma {:induction false} DependenciesMapped(f: string -> string, entries: seq<Document>)
    ensures Dependencies(MapAll(f, entries)).Some? <==> Dependencies(entries).Some?
    ensures Dependencies(entries).Some? ==>
      Dependencies(MapAll(f, entries)).value == MapDependencies(f, Dependencies(entries).value)
  {
    hide DependencyOf, MapDependency;
    if entries != [] {
      DependenciesMapped(f, entries[1..]);
      assert MapAll(f, entries)[0] == MapStrings(f, entries[0]) && MapAll(f, entries)[1..] == MapAll(f, entries[1..]);
      hide MapAll, MapStrings;
      DependencyMapped(f, entries[0]);
    }
  }

  // ---- adding provenance keeps references and dependencies ----

  lemma PlacedKeepsOthers(sourcePaths: map<string, string>, fields: seq<Field<string>>)
    requires Placed(sourcePaths, fields).Ok?
    ensures forall k | k != "properties" :: FindField(Placed(sourcePaths, fields).value, k) == FindField(fields, k)
  {
  }

  lemma {:induction false} RefsAppend(a: seq<Document>, b: seq<Document>)
    ensures RefsOf(a + b) == RefsOf(a) + RefsOf(b)
  {
    if a == [] {
      assert a + b == b;
    } else {
      assert (a + b)[1..] == a[1..] + b;
      RefsAppend(a[1..], b);
    }
  }

  /** A component and what it is with its provenance: the placed fields, except that what is
      nested in it may have changed as well. */
  ghost predicate PlacedAs(sourcePaths: map<string, string>, c: Document, o: Document) {
    && c.Object? && o.Object? && Placed(sourcePaths, c.fields).Ok?
    && forall k | k != "components" :: FindField(o.fields, k) == FindField(Placed(sourcePaths, c.fields).value, k)
  }

  /** Two well-formed forests, component by component. */
  ghost predicate Aligned(
    sourcePaths: map<string, string>, before: Option<seq<Document>>, after: Option<seq<Document>>) {
    && before.Some? && after.Some? && |after.value| == |before.value|
    && forall i | 0 <= i < |before.value| :: PlacedAs(sourcePaths, before.value[i], after.value[i])
  }

  lemma AlignedJoin(
    sourcePaths: map<string, string>, a: seq<Document>, a': seq<Document>, b: seq<Document>, b': seq<Document>)
    requires Aligned(sourcePaths, Some(a), Some(a')) && Aligned(sourcePaths, Some(b), Some(b'))
    ensures Aligned(sourcePaths, Some(a + b), Some(a' + b'))
  {
    hide PlacedAs;
  }

  lemma {:induction false} PlacedTreeAligned(sourcePaths: map<string, string>, j: Document)
    requires PlacedTree(sourcePaths, j).Ok?
    ensures Aligned(sourcePaths, ComponentTree(j), ComponentTree(PlacedTree(sourcePaths, j).value))
    decreases j
  {
    if j.Object? {
      PlacedKeepsOthers(sourcePaths, j.fields);
      var placed := PlacedTree(sourcePaths, j).value;
      assert PlacedAs(sourcePaths, j, placed);
      hide PlacedAs, Placed;
      match Get(j, "components")
      case Some(List(items)) =>
        PlacedForestAligned(sourcePaths, items);
        var after := PlacedForest(sourcePaths, items).value;
        AlignedJoin(sourcePaths, [j], [placed], ComponentForest(items).value, ComponentForest(after).value);
      case _ =>
    }
  }

  lemma {:induction false} PlacedForestAligned(sourcePaths: map<string, string>, items: seq<Document>)
    requires PlacedForest(sourcePaths, items).Ok?
    ensures Aligned(sourcePaths, ComponentForest(items), ComponentForest(PlacedForest(sourcePaths, items).value))
    decreases items
  {
    if items != [] {
      hide PlacedAs;
      PlacedTreeAligned(sourcePaths, items[0]);
      PlacedForestAligned(sourcePaths, items[1..]);
      var placed := PlacedForest(sourcePaths, items).value;
      assert placed[1..] == PlacedForest(sourcePaths, items[1..]).value;
      AlignedJoin(sourcePaths, ComponentTree(items[0]).value, ComponentTree(placed[0]).value,
        ComponentForest(items[1..]).value, ComponentForest(placed[1..]).value);
    }
  }

  lemma PlacedMetadataKeeps(sourcePaths: map<string, string>, doc: Document)
    requires PlacedMetadata(sourcePaths, doc).Ok?
    ensures var d := PlacedMetadata(sourcePaths, doc).value;
            && (forall k | k != "metadata" :: Get(d, k) == Get(doc, k))
            && MetadataComponent(doc).Some? && MetadataComponent(d).Some?
            && (MetadataComponent(doc).value.None? <==> MetadataComponent(d).value.None?)
            && (MetadataComponent(doc).value.Some? ==>
                 Aligned(sourcePaths, ComponentTree(MetadataComponent(doc).value.value),
                   ComponentTree(MetadataComponent(d).value.value)))
  {
    match Get(doc, "metadata")
    case Some(Object(fields)) =>
      var described := FindField(fields, "component");
      if described.Some? { PlacedTreeAligned(sourcePaths, described.value); }
    case _ =>
  }

  lemma PlacedComponentsKeeps(sourcePaths: map<string, string>, doc: Document)
    requires PlacedComponents(sourcePaths, doc).Ok?
    ensures var d := PlacedComponents(sourcePaths, doc).value;
            && (forall k | k != "components" :: Get(d, k) == Get(doc, k))
            && ArrayAt(doc, "components").Some? && ArrayAt(d, "components").Some?
            && Aligned(sourcePaths, ComponentForest(ArrayAt(doc, "components").value),
               ComponentForest(ArrayAt(d, "components").value))
  {
    match Get(doc, "components")
    case Some(List(items)) => PlacedForestAligned(sourcePaths, items);
    case _ =>
  }

  /** The components below the metadata component, then those of the component list. */
  lemma ComponentsByParts(doc: Document)
    requires MetadataComponent(doc).Some? && ArrayAt(doc, "components").Some?
    requires MetadataComponent(doc).value.Some? ==> ComponentTree(MetadataComponent(doc).value.value).Some?
    requires ComponentForest(ArrayAt(doc, "components").value).Some?
    ensures DocumentComponents(doc)
      == Some(DescribedComponents(MetadataComponent(doc).value) +
              ComponentForest(ArrayAt(doc, "components").value).value)
  {
    var described, items := MetadataComponent(doc).value, ArrayAt(doc, "components").value;
    if described.None? {
      assert [] + items == items;
      assert [] + ComponentForest(items).value == ComponentForest(items).value;
    } else {
      assert ([described.value] + items)[1..] == items;
    }
  }

  function DescribedComponents(described: Option<Document>): seq<Document> {
    match described
    case None => []
    case Some(c) => match ComponentTree(c) case None => [] case Some(cs) => cs
  }

  /** Two documents aligned in both parts are aligned. */
  lemma AlignedParts(sourcePaths: map<string, string>, doc: Document, d: Document)
    requires MetadataComponent(doc).Some? && MetadataComponent(d).Some?
    requires MetadataComponent(doc).value.None? <==> MetadataComponent(d).value.None?
    requires MetadataComponent(doc).value.Some? ==>
      Aligned(sourcePaths, ComponentTree(MetadataComponent(doc).value.value),
        ComponentTree(MetadataComponent(d).value.value))
    requires ArrayAt(doc, "components").Some? && ArrayAt(d, "components").Some?
    requires Aligned(sourcePaths, ComponentForest(ArrayAt(doc, "components").value),
      ComponentForest(ArrayAt(d, "components").value))
    ensures Aligned(sourcePaths, DocumentComponents(doc), DocumentComponents(d))
  {
    hide MetadataComponent, ArrayAt, ComponentTree, ComponentForest, PlacedAs, DocumentComponents;
    ComponentsByParts(doc);
    ComponentsByParts(d);
    AlignedJoin(sourcePaths, DescribedComponents(MetadataComponent(doc).value),
      DescribedComponents(MetadataComponent(d).value), ComponentForest(ArrayAt(doc, "components").value).value,
      ComponentForest(ArrayAt(d, "components").value).value);
  }

  lemma SameField(a: Document, b: Document, key: string)
    requires Get(a, key) == Get(b, key)
    ensures ArrayAt(a, key) == ArrayAt(b, key)
    ensures key == "metadata" ==> MetadataComponent(a) == MetadataComponent(b)
    ensures key == "dependencies" ==> DependenciesOf(a) == DependenciesOf(b)
  {
    hide Get, Dependencies;
  }

  /** Provenance is added to each component in its place. */
  lemma PlacedDocumentAligned(sourcePaths: map<string, string>, doc: Document)
    requires PlacedDocument(sourcePaths, doc).Ok?
    ensures var d := PlacedDocument(sourcePaths, doc).value;
            && Aligned(sourcePaths, DocumentComponents(doc), DocumentComponents(d))
            && DependenciesOf(d) == DependenciesOf(doc)
            && forall k | k != "metadata" && k != "components" :: Get(d, k) == Get(doc, k)
  {
    var middle := PlacedMetadata(sourcePaths, doc).value;
    var d := PlacedComponents(sourcePaths, middle).value;
    PlacedMetadataKeeps(sourcePaths, doc);
    PlacedComponentsKeeps(sourcePaths, middle);
    SameField(d, middle, "metadata");
    SameField(middle, doc, "components");
    SameField(middle, doc, "dependencies");
    SameField(d, middle, "dependencies");
    hide PlacedMetadata, PlacedComponents, MetadataComponent, ArrayAt, DependenciesOf, Get, Aligned, ComponentTree,
      ComponentForest, DocumentComponents;
    AlignedParts(sourcePaths, doc, d);
  }

  lemma {:induction false} AlignedRefs(sourcePaths: map<string, string>, before: seq<Document>, after: seq<Document>)
    requires Aligned(sourcePaths, Some(before), Some(after))
    ensures RefsOf(after) == RefsOf(before)
  {
    if before != [] {
      var c, o := before[0], after[0];
      assert PlacedAs(sourcePaths, c, o);
      PlacedKeepsOthers(sourcePaths, c.fields);
      assert RefOf(o) == RefOf(c);
      forall i | 0 <= i < |before[1..]| ensures PlacedAs(sourcePaths, before[1..][i], after[1..][i]) {
        assert PlacedAs(sourcePaths, before[i + 1], after[i + 1]);
      }
      hide PlacedAs;
      AlignedRefs(sourcePaths, before[1..], after[1..]);
    }
  }

  /** Provenance neither adds, drops nor renames a reference or a dependency. */
  lemma PlacedDocumentKeeps(sourcePaths: map<string, string>, doc: Document)
    requires PlacedDocument(sourcePaths, doc).Ok?
    ensures var d := PlacedDocument(sourcePaths, doc).value;
            ComponentRefs(d) == ComponentRefs(doc) && DependenciesOf(d) == DependenciesOf(doc)
  {
    var d := PlacedDocument(sourcePaths, doc).value;
    PlacedDocumentAligned(sourcePaths, doc);
    hide PlacedDocument, DependenciesOf, DocumentComponents, Aligned;
    AlignedSome(sourcePaths, DocumentComponents(doc), DocumentComponents(d));
    AlignedRefs(sourcePaths, DocumentComponents(doc).value, DocumentComponents(d).value);
  }

  lemma AlignedSome(sourcePaths: map<string, string>, before: Option<seq<Document>>, after: Option<seq<Document>>)
    requires Aligned(sourcePaths, before, after)
    ensures before.Some? && after.Some? && Aligned(sourcePaths, Some(before.value), Some(after.value))
  {
  }

  // ---- the result ----

  lemma UnrepeatedImage(f: string -> string, refs: seq<string>)
    requires NoRepeats(MapTexts(f, refs))
    ensures NoRepeats(refs)
    ensures forall a, b | a in refs && b in refs && f(a) == f(b) :: a == b
  {
    forall i, j | 0 <= i < j < |refs| ensures refs[i] != refs[j] {
      assert MapTexts(f, refs)[i] != MapTexts(f, refs)[j];
    }
    forall a, b | a in refs && b in refs && f(a) == f(b) ensures a == b {
      var i :| 0 <= i < |refs| && refs[i] == a;
      var j :| 0 <= j < |refs| && refs[j] == b;
      assert MapTexts(f, refs)[i] == MapTexts(f, refs)[j];
    }
  }

  /** Accepted normalization renames the component references one to one, keeping their order,
      renames every dependency with them, and leaves nothing dangling. */
  lemma NormalizationRenames(roots: seq<Root>, doc: Document)
    requires Normalized(roots, doc).Some?
    ensures RenamingOf(roots, doc).Ok?
    ensures var f, out := Replace(RenamingOf(roots, doc).value.replacements), Normalized(roots, doc).value;
            && ComponentRefs(out) == MapTexts(f, ComponentRefs(doc))
            && NoRepeats(ComponentRefs(doc))
            && (forall a, b | a in ComponentRefs(doc) && b in ComponentRefs(doc) && f(a) == f(b) :: a == b)
            && DependenciesOf(doc).Some?
            && DependenciesOf(out) == Some(MapDependencies(f, DependenciesOf(doc).value))
            && (forall ref | ref in Mentioned(DependenciesOf(out).value) :: ref in ComponentRefs(out))
  {
    var r := RenamingOf(roots, doc).value;
    var f := Replace(r.replacements);
    var replaced := MapStrings(f, doc);
    PlacedDocumentKeeps(r.sourcePaths, replaced);
    ReplacedDocument(f, doc);
    hide MapStrings, PlacedDocument, RenamingOf, Replace, Mentioned, Contains, ComponentRefs, DependenciesOf,
      MapDependencies;
    UnrepeatedImage(f, ComponentRefs(doc));
  }

  lemma ReplacedDocument(f: string -> string, doc: Document)
    ensures ComponentRefs(MapStrings(f, doc)) == MapTexts(f, ComponentRefs(doc))
    ensures DependenciesOf(MapStrings(f, doc)).Some? <==> DependenciesOf(doc).Some?
    ensures DependenciesOf(doc).Some?
      ==> DependenciesOf(MapStrings(f, doc)).value == MapDependencies(f, DependenciesOf(doc).value)
  {
    ComponentsMapped(f, doc);
    hide DocumentComponents, RefsOf;
    if DocumentComponents(doc).Some? { RefsMapped(f, DocumentComponents(doc).value); }
    ArrayMapped(f, doc, "dependencies");
    if ArrayAt(doc, "dependencies").Some? { DependenciesMapped(f, ArrayAt(doc, "dependencies").value); }
  }

  /** When the dependencies of the input speak of its components, the output's edges are exactly
      the images of the input's: the two graphs are isomorphic under the renaming. */
  lemma GraphsIsomorphic(roots: seq<Root>, doc: Document, a: string, b: string)
    requires Normalized(roots, doc).Some?
    requires DependenciesOf(doc).Some? && forall ref | ref in Mentioned(DependenciesOf(doc).value) ::
      ref in ComponentRefs(doc)
    requires a in ComponentRefs(doc) && b in ComponentRefs(doc)
    ensures var f, out := Replace(RenamingOf(roots, doc).value.replacements), Normalized(roots, doc).value;
            (a, b) in Edges(DependenciesOf(doc).value) <==> (f(a), f(b)) in Edges(DependenciesOf(out).value)
  {
    NormalizationRenames(roots, doc);
    hide Normalized, RenamingOf, ComponentRefs, DependenciesOf, Replace;
    var f := Replace(RenamingOf(roots, doc).value.replacements);
    var ds := DependenciesOf(doc).value;
    EdgesMapped(f, ds, a, b);
    if (f(a), f(b)) in Edges(MapDependencies(f, ds)) {
      var x, y :| (x, y) in Edges(ds) && f(x) == f(a) && f(y) == f(b);
      EdgeEndsMentioned(ds, x, y);
    }
  }

  lemma EdgesMapped(f: string -> string, ds: seq<Dependency>, a: string, b: string)
    ensures (a, b) in Edges(ds) ==> (f(a), f(b)) in Edges(MapDependencies(f, ds))
    ensures (f(a), f(b)) in Edges(MapDependencies(f, ds))
      ==> exists x, y :: (x, y) in Edges(ds) && f(x) == f(a) && f(y) == f(b)
  {
    var mapped := MapDependencies(f, ds);
    if (a, b) in Edges(ds) {
      var d :| d in ds && d.parent == Some(a) && b in d.children;
      var i :| 0 <= i < |ds| && ds[i] == d;
      var k :| 0 <= k < |d.children| && d.children[k] == b;
      assert mapped[i] in mapped && mapped[i].children[k] == f(b);
    }
    if (f(a), f(b)) in Edges(mapped) {
      var m :| m in mapped && m.parent == Some(f(a)) && f(b) in m.children;
      var i :| 0 <= i < |mapped| && mapped[i] == m;
      var k :| 0 <= k < |m.children| && m.children[k] == f(b);
      assert ds[i] in ds && ds[i].children[k] in ds[i].children;
      assert (ds[i].parent.value, ds[i].children[k]) in Edges(ds);
    }
  }

  lemma EdgeEndsMentioned(ds: seq<Dependency>, x: string, y: string)
    requires (x, y) in Edges(ds)
    ensures x in Mentioned(ds) && y in Mentioned(ds)
  {
  }
}
