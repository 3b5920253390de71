/** Which documents the normalization accepts. */
module SbomAcceptance {
  import opened Wrappers
  import opened JsonTrees
  import opened SbomNormalize
  import opened SbomIsomorphism
  import opened SbomRelocation
  import opened SbomPlaceless
  import opened SbomContents

  // ---- roots ----

  /** Lower-case letters, digits and dashes by their codes, not a dash first. */
  ghost predicate Label(name: string) {
    && name != "" && name[0] as int != 45
    && forall i | 0 <= i < |name| ::
         97 <= name[i] as int <= 122 || 48 <= name[i] as int <= 57 || name[i] as int == 45
  }

  /** The unlabelled root comes first, and no two roots share a label, a place or a part of one. */
  lemma RootsIff(roots: seq<Root>)
    ensures ValidRoots(roots) <==>
      && roots != [] && roots[0].name == ""
      && (forall i | 1 <= i < |roots| :: Label(roots[i].name))
      && (forall i, j | 0 <= i < |roots| && 0 <= j < |roots| && i != j ::
           roots[i].name != roots[j].name && roots[i].uri != roots[j].uri && !(roots[i].uri + "/" <= roots[j].uri))
  {
    forall i | 0 <= i < |roots| ensures ValidLabel(roots[i].name) <==> Label(roots[i].name) {
      LabelIff(roots[i].name);
    }
    hide ValidLabel, Label;
    if ValidRoots(roots) {
      forall i, j | 0 <= i < |roots| && 0 <= j < |roots| && i != j
        ensures roots[i].name != roots[j].name && roots[i].uri != roots[j].uri && !(roots[i].uri + "/" <= roots[j].uri)
      {
        var a, b := if i < j then i else j, if i < j then j else i;
        assert 0 <= a < b < |roots|;
        assert roots[a].name != roots[b].name && !Overlaps(roots[b].uri, roots[a].uri);
      }
    }
  }

  lemma LabelIff(name: string)
    ensures ValidLabel(name) <==> Label(name)
  {
    assert forall i | 0 <= i < |name| :: name[i] in name;
  }

  // ---- collecting ----

  /** Every component under a root is a package of it, and no two are the same package. */
  ghost predicate Collectable(roots: seq<Root>, product: string, cs: seq<Document>) {
    && (forall i | 0 <= i < |cs| && UnderRoot(roots, cs[i]) :: exists p :: Packaged(roots, product, cs[i], p))
    && (forall i, j, p, q | 0 <= i < j < |cs| && Packaged(roots, product, cs[i], p)
          && Packaged(roots, product, cs[j], q) :: p.Canonical() != q.Canonical())
  }

  lemma {:induction false} CollectedIff(roots: seq<Root>, product: string, cs: seq<Document>)
    requires ValidRoots(roots)
    ensures Collected(roots, product, cs).Ok? <==> Collectable(roots, product, cs)
    decreases |cs|
  {
    hide ValidRoots, LocalComponent, UnderRoot, Packaged;
    if cs != [] {
      var n := |cs| - 1;
      var front := cs[..n];
      CollectedIff(roots, product, front);
      CollectableFront(roots, product, cs);
      NotUnderRoot(roots, product, cs[n]);
      hide Collectable;
      if Collected(roots, product, front).Ok? {
        if UnderRoot(roots, cs[n]) {
          LastCollected(roots, product, cs);
        } else {
          CollectableOther(roots, product, cs);
        }
      }
    }
  }

  lemma CollectableFront(roots: seq<Root>, product: string, cs: seq<Document>)
    requires cs != []
    ensures Collectable(roots, product, cs) ==> Collectable(roots, product, cs[..|cs| - 1])
  {
    hide UnderRoot, Packaged;
  }

  lemma PackagedUnder(roots: seq<Root>, product: string, c: Document, p: Package)
    requires Packaged(roots, product, c, p)
    ensures UnderRoot(roots, c)
  {
    ReferenceStarts(p);
    var i :| 0 <= i < |roots| && roots[i] == p.root;
    assert Prefix(roots[i]) <= p.Reference();
  }

  lemma CollectableOther(roots: seq<Root>, product: string, cs: seq<Document>)
    requires cs != [] && Collectable(roots, product, cs[..|cs| - 1]) && !UnderRoot(roots, cs[|cs| - 1])
    ensures Collectable(roots, product, cs)
  {
    hide UnderRoot, Packaged;
    var n := |cs| - 1;
    forall i | 0 <= i < |cs| && UnderRoot(roots, cs[i]) ensures exists p :: Packaged(roots, product, cs[i], p) {
      assert cs[..n][i] == cs[i];
    }
    forall i, j, p, q | 0 <= i < j < |cs| && Packaged(roots, product, cs[i], p) && Packaged(roots, product, cs[j], q)
      ensures p.Canonical() != q.Canonical()
    {
      PackagedUnder(roots, product, cs[j], q);
      assert cs[..n][i] == cs[i] && cs[..n][j] == cs[j];
    }
  }

  lemma LastCollected(roots: seq<Root>, product: string, cs: seq<Document>)
    requires ValidRoots(roots) && cs != [] && UnderRoot(roots, cs[|cs| - 1])
    requires Collected(roots, product, cs[..|cs| - 1]).Ok? && Collectable(roots, product, cs[..|cs| - 1])
    ensures Collected(roots, product, cs).Ok? <==> Collectable(roots, product, cs)
  {
    hide ValidRoots, LocalComponent, UnderRoot, Packaged;
    var n := |cs| - 1;
    var front := cs[..n];
    NotUnderRoot(roots, product, cs[n]);
    if Collectable(roots, product, cs) {
      var p :| Packaged(roots, product, cs[n], p);
      ClaimedAs(roots, product, cs[n], p);
      if p.Canonical() in Collected(roots, product, front).value.sourcePaths {
        RenamesOnly(roots, product, front, p.Canonical());
        var i :| 0 <= i < n && var x := LocalComponent(roots, product, front[i]);
          x.Ok? && x.value.Some? && p.Canonical() == x.value.value.canonical;
        assert front[i] == cs[i];
        var q := PackageOf(roots, product, front[i]);
        ClaimedAs(roots, product, front[i], q);
      }
    }
    if Collected(roots, product, cs).Ok? {
      var p := PackageOf(roots, product, cs[n]);
      ClaimedAs(roots, product, cs[n], p);
      forall i, q | 0 <= i < n && Packaged(roots, product, cs[i], q) ensures q.Canonical() != p.Canonical() {
        assert front[i] == cs[i];
        ClaimedAs(roots, product, cs[i], q);
        KeepsUrlAndPlace(roots, product, front, i, LocalComponent(roots, product, front[i]).value.value);
      }
      OneMoreCollectable(roots, product, cs, p);
    }
  }

  lemma OneMoreCollectable(roots: seq<Root>, product: string, cs: seq<Document>, p: Package)
    requires ValidRoots(roots) && cs != [] && Collectable(roots, product, cs[..|cs| - 1])
    requires Packaged(roots, product, cs[|cs| - 1], p)
    requires forall i, q | 0 <= i < |cs| - 1 && Packaged(roots, product, cs[i], q) :: q.Canonical() != p.Canonical()
    ensures Collectable(roots, product, cs)
  {
    hide ValidRoots, UnderRoot, Packaged;
    var n := |cs| - 1;
    forall i | 0 <= i < |cs| && UnderRoot(roots, cs[i]) ensures exists q :: Packaged(roots, product, cs[i], q) {
      if i < n { assert cs[..n][i] == cs[i]; }
    }
    forall i, j, q, q' | 0 <= i < j < |cs| && Packaged(roots, product, cs[i], q) && Packaged(roots, product, cs[j], q')
      ensures q.Canonical() != q'.Canonical()
    {
      assert cs[..n][i] == cs[i];
      if j < n { assert cs[..n][j] == cs[j]; } else { SameCanonical(roots, product, cs[n], p, q'); }
    }
  }

  lemma SameCanonical(roots: seq<Root>, product: string, c: Document, p: Package, q: Package)
    requires ValidRoots(roots) && Packaged(roots, product, c, p) && Packaged(roots, product, c, q)
    ensures p.Canonical() == q.Canonical()
  {
    hide ValidRoots, Packaged, LocalComponent;
    ClaimedAs(roots, product, c, p);
    ClaimedAs(roots, product, c, q);
  }

  // ---- placing ----

  /** A component whose reference can be looked up and, if it has a place, takes one more property
      and does not say where it is already. */
  ghost predicate Placeable(places: map<string, string>, c: Document) {
    match Get(c, "bom-ref")
    case Some(Str(ref)) =>
      ref in places ==>
        ArrayAt(c, "properties").Some? && forall q | q in ArrayAt(c, "properties").value :: !NamesProvenance(q)
    case Some(List(_)) => false
    case Some(Object(_)) => false
    case _ => true
  }

  lemma PlacedIff(places: map<string, string>, j: Document)
    requires j.Object?
    ensures Placed(places, j.fields).Ok? <==> Placeable(places, j)
  {
  }

  lemma {:induction false} TreePlacedIff(places: map<string, string>, j: Document)
    ensures PlacedTree(places, j).Ok? <==>
      ComponentTree(j).Some? && forall c | c in ComponentTree(j).value :: Placeable(places, c)
    decreases j
  {
    if j.Object? {
      hide Placed, Placeable, SetField;
      PlacedIff(places, j);
      match Get(j, "components")
      case Some(List(items)) => ForestPlacedIff(places, items);
      case _ =>
    }
  }

  lemma {:induction false} ForestPlacedIff(places: map<string, string>, items: seq<Document>)
    ensures PlacedForest(places, items).Ok? <==>
      ComponentForest(items).Some? && forall c | c in ComponentForest(items).value :: Placeable(places, c)
    decreases items
  {
    if items != [] {
      hide Placeable;
      TreePlacedIff(places, items[0]);
      ForestPlacedIff(places, items[1..]);
    }
  }

  /** Places are recorded exactly when metadata, component lists and components have the kinds of
      values they need. */
  lemma DocumentPlacedIff(places: map<string, string>, doc: Document)
    ensures PlacedDocument(places, doc).Ok? <==>
      DocumentComponents(doc).Some? && forall c | c in DocumentComponents(doc).value :: Placeable(places, c)
  {
    hide Placeable, PlacedMetadata, PlacedComponents, ComponentTree, ComponentForest, MetadataComponent;
    MetadataPlacedIff(places, doc);
    ComponentsPlacedIff(places, doc);
    if MetadataComponent(doc).Some? && ArrayAt(doc, "components").Some? {
      var described, items := MetadataComponent(doc).value, ArrayAt(doc, "components").value;
      HeadForest(if described.Some? then [described.value] else [], items);
    }
    if PlacedMetadata(places, doc).Ok? {
      var middle := PlacedMetadata(places, doc).value;
      PlacedMetadataKeeps(places, doc);
      SameField(middle, doc, "components");
      ComponentsPlacedIff(places, middle);
    }
  }

  lemma ComponentsPlacedIff(places: map<string, string>, doc: Document)
    ensures PlacedComponents(places, doc).Ok? <==>
      && ArrayAt(doc, "components").Some? && ComponentForest(ArrayAt(doc, "components").value).Some?
      && forall c | c in ComponentForest(ArrayAt(doc, "components").value).value :: Placeable(places, c)
  {
    hide Placeable;
    match Get(doc, "components")
    case Some(List(items)) => ForestPlacedIff(places, items);
    case _ =>
  }

  lemma MetadataPlacedIff(places: map<string, string>, doc: Document)
    ensures PlacedMetadata(places, doc).Ok? <==>
      MetadataComponent(doc).Some? && (MetadataComponent(doc).value.Some? ==>
        var tree := ComponentTree(MetadataComponent(doc).value.value);
        tree.Some? && forall c | c in tree.value :: Placeable(places, c))
  {
    hide Placeable, PlacedTree, ComponentTree;
    match Get(doc, "metadata")
    case Some(Object(fields)) =>
      if FindField(fields, "component").Some? { TreePlacedIff(places, FindField(fields, "component").value); }
    case _ =>
  }

  lemma {:induction false} HeadForest(head: seq<Document>, items: seq<Document>)
    requires |head| <= 1
    ensures ComponentForest(head + items).Some? <==>
      (head != [] ==> ComponentTree(head[0]).Some?) && ComponentForest(items).Some?
    ensures ComponentForest(head + items).Some? ==>
      ComponentForest(head + items).value
        == (if head == [] then [] else ComponentTree(head[0]).value) + ComponentForest(items).value
  {
    hide ComponentTree;
    if head == [] {
      assert head + items == items;
    } else {
      assert (head + items)[1..] == items;
    }
  }

  // ---- accepting ----

  /** The described component's reference, if it has one, is a text. */
  ghost predicate ReferenceIsText(doc: Document) {
    forall d, v | MetadataComponent(doc) == Some(Some(d)) && Get(d, "bom-ref") == Some(v) :: v.Str?
  }

  /** A document is renamed exactly when its roots are admissible, its parts have the right kinds
      of values, something in it is local and all that is local can be collected. */
  lemma RenamedIff(roots: seq<Root>, doc: Document)
    ensures RenamingOf(roots, doc).Ok? <==>
      && ValidRoots(roots)
      && DocumentComponents(doc).Some? && ReferenceIsText(doc)
      && (exists c | c in DocumentComponents(doc).value :: UnderRoot(roots, c))
      && exists product | DescribesProduct(doc, product) ::
           Collectable(roots, product, DocumentComponents(doc).value)
  {
    hide ValidRoots, Collectable, UnderRoot, Collected, DescribesProduct, DocumentComponents, MetadataSource;
    hide ReferenceIsText, MetadataComponent;
    ComponentsDescribed(doc);
    if DocumentComponents(doc).Some? {
      SourceIsText(doc);
      if ValidRoots(roots) && ReferenceIsText(doc) {
        var cs, source := DocumentComponents(doc).value, MetadataSource(MetadataComponent(doc).value).value;
        ProductDescribed(doc, source);
        CollectedIff(roots, source, cs);
        forall product | DescribesProduct(doc, product) ensures product == source { OneProduct(doc, product, source); }
        if Collected(roots, source, cs).Ok? { ReplacesIff(roots, source, cs); }
      }
    }
  }

  lemma ComponentsDescribed(doc: Document)
    ensures DocumentComponents(doc).Some? ==> MetadataComponent(doc).Some?
  {
  }

  lemma SourceIsText(doc: Document)
    requires MetadataComponent(doc).Some?
    ensures MetadataSource(MetadataComponent(doc).value).Some? <==> ReferenceIsText(doc)
  {
    hide RightPartition;
  }

  lemma OneProduct(doc: Document, a: string, b: string)
    requires DescribesProduct(doc, a) && DescribesProduct(doc, b)
    ensures a == b
  {
    hide MetadataComponent, CutAt;
  }

  lemma ReplacesIff(roots: seq<Root>, source: string, cs: seq<Document>)
    requires ValidRoots(roots) && Collected(roots, source, cs).Ok?
    ensures Collected(roots, source, cs).value.replacements != map[] <==> exists c | c in cs :: UnderRoot(roots, c)
  {
    hide ValidRoots, Collected, UnderRoot, LocalComponent;
    if Collected(roots, source, cs).value.replacements != map[] {
      SomeLocal(roots, source, cs, Collected(roots, source, cs).value);
    }
    if c :| c in cs && UnderRoot(roots, c) {
      var i :| 0 <= i < |cs| && cs[i] == c;
      LocalUnder(roots, source, cs, i);
      NotUnderRoot(roots, source, c);
      KeepsUrlAndPlace(roots, source, cs, i, LocalComponent(roots, source, c).value.value);
    }
  }

  /** A renamed document is accepted exactly when its places can be recorded and, with them, no
      text names a root or a file URL, no reference stands twice, and the dependencies are
      lists that mention components only. */
  lemma NormalizedIff(roots: seq<Root>, doc: Document, r: Renaming)
    requires RenamingOf(roots, doc) == Ok(r)
    ensures var placed := PlacedDocument(r.sourcePaths, MapStrings(Replace(r.replacements), doc));
            Normalized(roots, doc).Some? <==>
              && placed.Ok?
              && (forall s | s in Strings(placed.value) :: !Contains(s, "file:///") &&
                   forall i | 0 <= i < |roots| :: !Contains(s, roots[i].uri))
              && (forall i, j | 0 <= i < j < |ComponentRefs(placed.value)| ::
                   ComponentRefs(placed.value)[i] != ComponentRefs(placed.value)[j])
              && DependenciesOf(placed.value).Some?
              && forall entry | entry in DependenciesOf(placed.value).value ::
                   && (entry.parent.Some? ==> entry.parent.value in ComponentRefs(placed.value))
                   && forall child | child in entry.children :: child in ComponentRefs(placed.value)
  {
    hide RenamingOf, PlacedDocument, Accepted;
    var placed := PlacedDocument(r.sourcePaths, MapStrings(Replace(r.replacements), doc));
    if placed.Ok? { AcceptedIff(roots, placed.value); }
    hide *;
  }

  lemma AcceptedIff(roots: seq<Root>, d: Document)
    ensures Accepted(roots, d) <==>
      && (forall s | s in Strings(d) :: !Contains(s, "file:///") &&
           forall i | 0 <= i < |roots| :: !Contains(s, roots[i].uri))
      && (forall i, j | 0 <= i < j < |ComponentRefs(d)| :: ComponentRefs(d)[i] != ComponentRefs(d)[j])
      && DependenciesOf(d).Some?
      && forall entry | entry in DependenciesOf(d).value ::
           && (entry.parent.Some? ==> entry.parent.value in ComponentRefs(d))
           && forall child | child in entry.children :: child in ComponentRefs(d)
  {
    hide Strings, ComponentRefs, DependenciesOf, Contains, Mentioned, MentionsRoot;
    AcceptedTexts(roots, d);
    if DependenciesOf(d).Some? { MentionedIff(DependenciesOf(d).value, ComponentRefs(d)); }
  }

  lemma AcceptedTexts(roots: seq<Root>, d: Document)
    ensures ((forall s | s in Strings(d) :: !MentionsRoot(roots, s)) &&
             (forall s | s in Strings(d) :: !Contains(s, "file:///"))) <==>
            (forall s | s in Strings(d) ::
               !Contains(s, "file:///") && forall i | 0 <= i < |roots| :: !Contains(s, roots[i].uri))
  {
    hide Strings, Contains;
    forall s ensures MentionsRoot(roots, s) <==> exists i | 0 <= i < |roots| :: Contains(s, roots[i].uri) {
      if MentionsRoot(roots, s) {
        var root :| root in roots && Contains(s, root.uri);
        var i :| 0 <= i < |roots| && roots[i] == root;
      }
    }
  }

  /** A text contains what stands somewhere in it. */
  lemma {:induction false} ContainsIff(s: string, part: string)
    ensures Contains(s, part) <==> exists before, after :: s == before + part + after
  {
    if part <= s {
      assert s == [] + part + s[|part|..];
    } else if s != [] {
      ContainsIff(s[1..], part);
      if before, after :| s[1..] == before + part + after { assert s == ([s[0]] + before) + part + after; }
      if before, after :| s == before + part + after {
        assert before == [] ==> part <= s;
        assert s[1..] == before[1..] + part + after;
      }
    }
  }

  lemma MentionedIff(ds: seq<Dependency>, refs: seq<string>)
    ensures (forall ref | ref in Mentioned(ds) :: ref in refs) <==> forall d | d in ds ::
      && (d.parent.Some? ==> d.parent.value in refs)
      && forall child | child in d.children :: child in refs
  {
    if forall ref | ref in Mentioned(ds) :: ref in refs {
      forall d | d in ds ensures d.parent.Some? ==> d.parent.value in refs {
        assert d.parent.Some? ==> d.parent.value in Mentioned(ds);
      }
      forall d, child | d in ds && child in d.children ensures child in refs { assert child in Mentioned(ds); }
    }
  }

  // ---- what a dependency list says ----

  /** The entry names `parent` and lists `child` below it. */
  predicate Names(entry: Document, parent: string, child: string) {
    && Get(entry, "ref") == Some(Str(parent))
    && ArrayAt(entry, "dependsOn").Some? && Str(child) in ArrayAt(entry, "dependsOn").value
  }

  predicate Refers(entry: Document, ref: string) {
    entry.Object? && (Get(entry, "ref") == Some(Str(ref))
      || (ArrayAt(entry, "dependsOn").Some? && Str(ref) in ArrayAt(entry, "dependsOn").value))
  }

  lemma {:induction false} TextsAmongIff(items: seq<Document>, text: string)
    ensures text in TextsAmong(items) <==> Str(text) in items
  {
    if items != [] {
      TextsAmongIff(items[1..], text);
      assert items == [items[0]] + items[1..];
    }
  }

  lemma {:induction false} DependenciesIff(entries: seq<Document>, parent: string, child: string)
    requires Dependencies(entries).Some?
    ensures (parent, child) in Edges(Dependencies(entries).value) <==>
      exists i | 0 <= i < |entries| :: Names(entries[i], parent, child)
    ensures child in Mentioned(Dependencies(entries).value) <==>
      exists i | 0 <= i < |entries| :: Refers(entries[i], child)
  {
    hide Edges, Mentioned, DependencyOf, Names, Refers;
    if entries != [] {
      DependenciesIff(entries[1..], parent, child);
      EntryIff(entries[0], parent, child);
      EdgesJoin(DependencyOf(entries[0]).value, Dependencies(entries[1..]).value);
      HeadOrTail(entries, (entry: Document) => Names(entry, parent, child));
      HeadOrTail(entries, (entry: Document) => Refers(entry, child));
    } else {
      assert Edges([]) == {} && Mentioned([]) == {} by { NothingMentioned(); }
    }
  }

  lemma NothingMentioned()
    ensures Edges([]) == {} && Mentioned([]) == {}
  {
  }

  lemma HeadOrTail(entries: seq<Document>, good: Document -> bool)
    requires entries != []
    ensures (exists i | 0 <= i < |entries| :: good(entries[i])) <==>
      good(entries[0]) || exists i | 0 <= i < |entries[1..]| :: good(entries[1..][i])
  {
    if i :| 0 <= i < |entries| && good(entries[i]) {
      if i > 0 { assert entries[1..][i - 1] == entries[i]; }
    }
    if i :| 0 <= i < |entries[1..]| && good(entries[1..][i]) { assert entries[i + 1] == entries[1..][i]; }
  }

  lemma EdgesJoin(a: seq<Dependency>, b: seq<Dependency>)
    ensures Edges(a + b) == Edges(a) + Edges(b)
    ensures Mentioned(a + b) == Mentioned(a) + Mentioned(b)
  {
  }

  lemma EntryIff(entry: Document, parent: string, child: string)
    requires DependencyOf(entry).Some?
    ensures (parent, child) in Edges(DependencyOf(entry).value) <==> Names(entry, parent, child)
    ensures child in Mentioned(DependencyOf(entry).value) <==> Refers(entry, child)
  {
    hide Get, TextsAmong;
    TextsAmongIff(ArrayAt(entry, "dependsOn").value, child);
    if entry.Object? {
      var d := DependencyOf(entry).value[0];
      assert DependencyOf(entry).value == [d];
      assert (parent, child) in Edges([d]) <==> d.parent == Some(parent) && child in d.children;
      assert child in Mentioned([d]) <==> d.parent == Some(child) || child in d.children;
    } else {
      NothingRead(entry);
    }
  }

  lemma NothingRead(entry: Document)
    requires !entry.Object?
    ensures Get(entry, "ref").None?
  {
  }

  /** The dependencies of a document are what its entries say: an edge for each child listed by an
      entry with a reference, and no other. */
  lemma DocumentEdgesIff(doc: Document, parent: string, child: string)
    requires DependenciesOf(doc).Some?
    ensures ArrayAt(doc, "dependencies").Some?
    ensures (parent, child) in Edges(DependenciesOf(doc).value) <==>
      exists entry | entry in ArrayAt(doc, "dependencies").value :: Names(entry, parent, child)
    ensures child in Mentioned(DependenciesOf(doc).value) <==>
      exists entry | entry in ArrayAt(doc, "dependencies").value :: Refers(entry, child)
  {
    var entries := ArrayAt(doc, "dependencies").value;
    DependenciesIff(entries, parent, child);
    hide Names, Refers, Edges, Mentioned, Dependencies;
  }

  /** The references of a document are those of its components. */
  lemma {:induction false} RefListedIff(components: seq<Document>, ref: string)
    ensures ref in RefsOf(components) <==> exists i | 0 <= i < |components| ::
      Get(components[i], "bom-ref") == Some(Str(ref))
  {
    if components != [] {
      RefListedIff(components[1..], ref);
      hide Get;
      assert components == [components[0]] + components[1..];
    }
  }
}
