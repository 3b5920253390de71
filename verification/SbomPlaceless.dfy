/** The document-level half of relocation: collecting, replacing and accepting do not depend on
    where the roots are either. */
module SbomPlaceless {
  import opened Wrappers
  import opened JsonTrees
  import opened SbomNormalize
  import opened SbomIsomorphism
  import opened SbomRelocation

  // ---- collecting the renaming ----

  function Lookup(r: Renaming, s: string): Option<string> {
    if s in r.replacements then Some(r.replacements[s]) else None
  }

  predicate InStep(r: Renaming) {
    r.replacements == map[] <==> r.sourcePaths == map[]
  }

  /** The same renaming, as far as templates can tell. */
  ghost predicate SameRenaming(r1: seq<Root>, r2: seq<Root>, a: Renaming, b: Renaming) {
    && a.sourcePaths == b.sourcePaths && InStep(a) && InStep(b)
    && forall t | WellPlaced(|r1|, t) :: Lookup(a, Write(r1, t)) == Lookup(b, Write(r2, t))
  }

  lemma AdoptTogether(
    r1: seq<Root>, r2: seq<Root>, a: Renaming, b: Renaming, t: Template, p: Template, l1: Local, l2: Local)
    requires Admissible(r1) && Admissible(r2) && |r1| == |r2|
    requires SameRenaming(r1, r2, a, b) && SameLocal(r1, r2, t, p, l1, l2) && Adopt(a, l1).Ok?
    ensures Adopt(b, l2).Ok? && SameRenaming(r1, r2, Adopt(a, l1).value, Adopt(b, l2).value)
  {
    var a', b' := Adopt(a, l1).value, Adopt(b, l2).value;
    hide WellPlaced, Admissible, Write;
    forall s | WellPlaced(|r1|, s) ensures Lookup(a', Write(r1, s)) == Lookup(b', Write(r2, s)) {
      WrittenAlike(r1, r2, s, t);
      WrittenAlike(r1, r2, s, p);
      assert Lookup(a, Write(r1, s)) == Lookup(b, Write(r2, s));
    }
    assert l1.bomRef in a'.replacements && l2.bomRef in b'.replacements;
    assert l1.canonical in a'.sourcePaths && l2.canonical in b'.sourcePaths;
  }

  lemma WrittenAlike(r1: seq<Root>, r2: seq<Root>, s: Template, t: Template)
    requires Admissible(r1) && Admissible(r2) && |r1| == |r2| && WellPlaced(|r1|, s) && WellPlaced(|r1|, t)
    ensures Write(r1, s) == Write(r1, t) <==> Write(r2, s) == Write(r2, t)
  {
    if Write(r1, s) == Write(r1, t) { SameTemplate(r1, s, t); }
    if Write(r2, s) == Write(r2, t) { SameTemplate(r2, s, t); }
  }

  /** Every local component's canonical URL is free of local URIs. */
  ghost predicate CanonicalsFree(roots: seq<Root>, source: string, components: seq<Document>) {
    forall c | c in components :: var x := LocalComponent(roots, source, c);
      x.Ok? && x.value.Some? ==> FirstAt(x.value.value.canonical).None?
  }

  lemma {:induction false} CollectedTogether(r1: seq<Root>, r2: seq<Root>, source: Template, cs: seq<Json<Template>>)
    requires Admissible(r1) && Admissible(r2) && SameLabels(r1, r2) && WellPlaced(|r1|, source)
    requires forall c | c in cs :: ComponentPlaced(|r1|, c)
    requires Collected(r1, Write(r1, source), MapAll(Written(r1), cs)).Ok?
    requires CanonicalsFree(r1, Write(r1, source), MapAll(Written(r1), cs))
    ensures Collected(r2, Write(r2, source), MapAll(Written(r2), cs)).Ok?
    ensures SameRenaming(r1, r2, Collected(r1, Write(r1, source), MapAll(Written(r1), cs)).value,
                         Collected(r2, Write(r2, source), MapAll(Written(r2), cs)).value)
    decreases |cs|
  {
    if cs != [] {
      var n := |cs| - 1;
      var m1, m2 := MapAll(Written(r1), cs), MapAll(Written(r2), cs);
      var c := cs[n];
      MapAllPrefix(Written(r1), cs);
      MapAllPrefix(Written(r2), cs);
      assert m1[n] in m1;
      hide MapAll, LocalComponent, Written, WellPlaced, Write, Admissible, ComponentPlaced, SameRenaming, Adopt,
        FirstAt;
      FrontFree(r1, Write(r1, source), m1);
      CollectedTogether(r1, r2, source, cs[..n]);
      LocalRelocates(r1, r2, source, c);
      var x1 := LocalComponent(r1, Write(r1, source), m1[n]).value;
      var x2 := LocalComponent(r2, Write(r2, source), m2[n]).value;
      if x1.Some? {
        var t, p :| SameLocal(r1, r2, t, p, x1.value, x2.value);
        AdoptTogether(r1, r2, Collected(r1, Write(r1, source), m1[..n]).value,
          Collected(r2, Write(r2, source), m2[..n]).value, t, p, x1.value, x2.value);
      }
    } else {
      assert MapAll(Written(r1), cs) == [] && MapAll(Written(r2), cs) == [];
    }
  }

  lemma FrontFree(roots: seq<Root>, source: string, components: seq<Document>)
    requires components != [] && CanonicalsFree(roots, source, components)
    ensures CanonicalsFree(roots, source, components[..|components| - 1])
  {
    hide LocalComponent, FirstAt;
  }

  lemma MapAllPrefix<S, T>(f: S -> T, items: seq<Json<S>>)
    requires items != []
    ensures var n := |items| - 1;
            MapAll(f, items)[..n] == MapAll(f, items[..n]) && MapAll(f, items)[n] == MapStrings(f, items[n])
  {
    var n := |items| - 1;
    var whole, front := MapAll(f, items), MapAll(f, items[..n]);
    forall i | 0 <= i < n ensures whole[..n][i] == front[i] {
      assert items[..n][i] == items[i];
    }
  }

  // ---- which texts a document holds ----

  /** Every text of the one is a text of the other. */
  ghost predicate TextsWithin<S(!new)>(a: seq<S>, b: seq<S>) {
    forall s | s in a :: s in b
  }

  lemma {:induction false} FieldTexts<S(!new)>(fields: seq<Field<S>>, key: string)
    ensures var v := FindField(fields, key); v.Some? ==> TextsWithin(Strings(v.value), StringsOfFields(fields))
  {
    if fields != [] { FieldTexts(fields[1..], key); }
  }

  lemma ValueTexts<S(!new)>(j: Json<S>, key: string)
    ensures Get(j, key).Some? ==> TextsWithin(Strings(Get(j, key).value), Strings(j))
  {
    if j.Object? { FieldTexts(j.fields, key); }
  }

  lemma {:induction false} ItemTexts<S(!new)>(items: seq<Json<S>>, i: nat)
    requires i < |items|
    ensures TextsWithin(Strings(items[i]), StringsOfAll(items))
  {
    if i > 0 { ItemTexts(items[1..], i - 1); }
  }

  /** Every component's texts are texts of the tree it stands in. */
  ghost predicate AllWithin<S(!new)>(components: Option<seq<Json<S>>>, texts: seq<S>) {
    components.Some? ==> forall c | c in components.value :: TextsWithin(Strings(c), texts)
  }

  lemma {:induction false} TreeTexts<S(!new)>(j: Json<S>)
    ensures AllWithin(ComponentTree(j), Strings(j))
    decreases j
  {
    if j.Object? {
      ValueTexts(j, "components");
      match Get(j, "components")
      case Some(List(items)) => ForestTexts(items);
      case _ =>
    }
  }

  lemma {:induction false} ForestTexts<S(!new)>(items: seq<Json<S>>)
    ensures AllWithin(ComponentForest(items), StringsOfAll(items))
    decreases items
  {
    if items != [] {
      TreeTexts(items[0]);
      ForestTexts(items[1..]);
    }
  }

  lemma {:induction false} ForestJoins<S(!new)>(head: seq<Json<S>>, items: seq<Json<S>>)
    ensures StringsOfAll(head + items) == StringsOfAll(head) + StringsOfAll(items)
  {
    if head == [] {
      assert head + items == items;
    } else {
      assert (head + items)[1..] == head[1..] + items;
      ForestJoins(head[1..], items);
    }
  }

  lemma ComponentTexts<S(!new)>(doc: Json<S>)
    ensures AllWithin(DocumentComponents(doc), Strings(doc))
  {
    if DocumentComponents(doc).Some? {
      var described := MetadataComponent(doc).value;
      var items := ArrayAt(doc, "components").value;
      var head := if described.Some? then [described.value] else [];
      ForestTexts(head + items);
      ForestJoins(head, items);
      DescribedTexts(doc);
      ListedTexts(doc);
      hide ComponentForest, ArrayAt, MetadataComponent, Strings;
      assert StringsOfAll(head) == if described.Some? then Strings(described.value) + [] else [];
    }
  }

  lemma DescribedTexts<S(!new)>(doc: Json<S>)
    ensures MetadataComponent(doc).Some? && MetadataComponent(doc).value.Some? ==>
      TextsWithin(Strings(MetadataComponent(doc).value.value), Strings(doc))
  {
    ValueTexts(doc, "metadata");
    match Get(doc, "metadata")
    case Some(Object(fields)) => FieldTexts(fields, "component");
    case _ =>
  }

  lemma ListedTexts<S(!new)>(doc: Json<S>)
    ensures ArrayAt(doc, "components").Some?
      ==> TextsWithin(StringsOfAll(ArrayAt(doc, "components").value), Strings(doc))
  {
    ValueTexts(doc, "components");
  }

  // ---- replacing texts ----

  lemma {:induction false} MappedTexts<S(!new), T(!new)>(f: S -> T, j: Json<S>)
    ensures forall s | s in Strings(j) :: f(s) in Strings(MapStrings(f, j))
    decreases j
  {
    match j
    case List(items) => MappedAllTexts(f, items);
    case Object(fields) => MappedFieldTexts(f, fields);
    case _ =>
  }

  lemma {:induction false} MappedAllTexts<S(!new), T(!new)>(f: S -> T, items: seq<Json<S>>)
    ensures forall s | s in StringsOfAll(items) :: f(s) in StringsOfAll(MapAll(f, items))
    decreases items
  {
    if items != [] {
      MappedTexts(f, items[0]);
      MappedAllTexts(f, items[1..]);
      assert MapAll(f, items)[1..] == MapAll(f, items[1..]);
    }
  }

  lemma {:induction false} MappedFieldTexts<S(!new), T(!new)>(f: S -> T, fields: seq<Field<S>>)
    ensures forall s | s in StringsOfFields(fields) :: f(s) in StringsOfFields(MapFields(f, fields))
    decreases fields
  {
    if fields != [] {
      assert fields[0].value < fields[0];
      MappedTexts(f, fields[0].value);
      MappedFieldTexts(f, fields[1..]);
      assert MapFields(f, fields)[1..] == MapFields(f, fields[1..]);
    }
  }

  /** Two ways of replacing that agree on every text of a document agree on the document. */
  lemma {:induction false} MapAgrees<R(!new), S(!new), T(!new), U(!new)>(
    w: R -> S, f: S -> U, v: R -> T, g: T -> U, j: Json<R>)
    requires forall s | s in Strings(j) :: f(w(s)) == g(v(s))
    ensures MapStrings(f, MapStrings(w, j)) == MapStrings(g, MapStrings(v, j))
    decreases j
  {
    match j
    case List(items) => MapAllAgrees(w, f, v, g, items);
    case Object(fields) => MapFieldsAgrees(w, f, v, g, fields);
    case _ =>
  }

  lemma {:induction false} MapAllAgrees<R(!new), S(!new), T(!new), U(!new)>(
    w: R -> S, f: S -> U, v: R -> T, g: T -> U, items: seq<Json<R>>)
    requires forall s | s in StringsOfAll(items) :: f(w(s)) == g(v(s))
    ensures MapAll(f, MapAll(w, items)) == MapAll(g, MapAll(v, items))
    decreases items
  {
    if items != [] {
      MapAgrees(w, f, v, g, items[0]);
      MapAllAgrees(w, f, v, g, items[1..]);
      assert MapAll(w, items)[1..] == MapAll(w, items[1..]) && MapAll(v, items)[1..] == MapAll(v, items[1..]);
    }
  }

  lemma {:induction false} MapFieldsAgrees<R(!new), S(!new), T(!new), U(!new)>(
    w: R -> S, f: S -> U, v: R -> T, g: T -> U, fields: seq<Field<R>>)
    requires forall s | s in StringsOfFields(fields) :: f(w(s)) == g(v(s))
    ensures MapFields(f, MapFields(w, fields)) == MapFields(g, MapFields(v, fields))
    decreases fields
  {
    if fields != [] {
      assert fields[0].value < fields[0];
      MapAgrees(w, f, v, g, fields[0].value);
      MapFieldsAgrees(w, f, v, g, fields[1..]);
      assert MapFields(w, fields)[1..] == MapFields(w, fields[1..])
        && MapFields(v, fields)[1..] == MapFields(v, fields[1..]);
    }
  }

  // ---- provenance only adds texts ----

  lemma {:induction false} SetFieldTexts(fields: seq<Field<string>>, key: string, value: Document)
    requires FindField(fields, key).Some? ==> TextsWithin(Strings(FindField(fields, key).value), Strings(value))
    ensures TextsWithin(StringsOfFields(fields), StringsOfFields(SetField(fields, key, value)))
  {
    if fields != [] {
      if fields[0].key == key {
        assert SetField(fields, key, value)[1..] == fields[1..];
      } else {
        SetFieldTexts(fields[1..], key, value);
        assert SetField(fields, key, value)[1..] == SetField(fields[1..], key, value);
      }
    }
  }

  lemma PlacedTexts(sourcePaths: map<string, string>, fields: seq<Field<string>>)
    requires Placed(sourcePaths, fields).Ok?
    ensures TextsWithin(StringsOfFields(fields), StringsOfFields(Placed(sourcePaths, fields).value))
  {
    var r := Placed(sourcePaths, fields).value;
    if r != fields {
      var ref := FindField(fields, "bom-ref").value.text;
      var entry := Object([Field("name", Str(PROVENANCE)), Field("value", Str(sourcePaths[ref]))]);
      match FindField(fields, "properties")
      case Some(List(properties)) =>
        ForestJoins(properties, [entry]);
        SetFieldTexts(fields, "properties", List(properties + [entry]));
      case None =>
        SetFieldTexts(fields, "properties", List([entry]));
    }
  }

  lemma {:induction false} PlacedTreeTexts(sourcePaths: map<string, string>, j: Document)
    requires PlacedTree(sourcePaths, j).Ok?
    ensures TextsWithin(Strings(j), Strings(PlacedTree(sourcePaths, j).value))
    decreases j
  {
    if j.Object? {
      PlacedTexts(sourcePaths, j.fields);
      PlacedKeepsOthers(sourcePaths, j.fields);
      hide Placed;
      match Get(j, "components")
      case Some(List(items)) =>
        PlacedForestTexts(sourcePaths, items);
        SetFieldTexts(Placed(sourcePaths, j.fields).value, "components", List(PlacedForest(sourcePaths, items).value));
      case _ =>
    }
  }

  lemma {:induction false} PlacedForestTexts(sourcePaths: map<string, string>, items: seq<Document>)
    requires PlacedForest(sourcePaths, items).Ok?
    ensures TextsWithin(StringsOfAll(items), StringsOfAll(PlacedForest(sourcePaths, items).value))
    decreases items
  {
    if items != [] {
      PlacedTreeTexts(sourcePaths, items[0]);
      PlacedForestTexts(sourcePaths, items[1..]);
      assert PlacedForest(sourcePaths, items).value[1..] == PlacedForest(sourcePaths, items[1..]).value;
    }
  }

  lemma PlacedDocumentTexts(sourcePaths: map<string, string>, doc: Document)
    requires PlacedDocument(sourcePaths, doc).Ok?
    ensures TextsWithin(Strings(doc), Strings(PlacedDocument(sourcePaths, doc).value))
  {
    var middle := PlacedMetadata(sourcePaths, doc).value;
    PlacedMetadataTexts(sourcePaths, doc);
    PlacedComponentsTexts(sourcePaths, middle);
    hide PlacedMetadata, PlacedComponents;
  }

  lemma PlacedMetadataTexts(sourcePaths: map<string, string>, doc: Document)
    requires PlacedMetadata(sourcePaths, doc).Ok?
    ensures TextsWithin(Strings(doc), Strings(PlacedMetadata(sourcePaths, doc).value))
  {
    match Get(doc, "metadata")
    case Some(Object(fields)) =>
      var described := FindField(fields, "component");
      if described.Some? {
        var placed := PlacedTree(sourcePaths, described.value).value;
        PlacedTreeTexts(sourcePaths, described.value);
        SetFieldTexts(fields, "component", placed);
        SetFieldTexts(doc.fields, "metadata", Object(SetField(fields, "component", placed)));
      }
    case _ =>
  }

  lemma PlacedComponentsTexts(sourcePaths: map<string, string>, doc: Document)
    requires PlacedComponents(sourcePaths, doc).Ok?
    ensures TextsWithin(Strings(doc), Strings(PlacedComponents(sourcePaths, doc).value))
  {
    match Get(doc, "components")
    case Some(List(items)) =>
      PlacedForestTexts(sourcePaths, items);
      SetFieldTexts(doc.fields, "components", List(PlacedForest(sourcePaths, items).value));
    case _ =>
  }

  // ---- accepted canonical references name no machine ----

  lemma LocalShape(roots: seq<Root>, source: string, c: Document)
    requires LocalComponent(roots, source, c).Ok? && LocalComponent(roots, source, c).value.Some?
    ensures var l := LocalComponent(roots, source, c).value.value;
            Get(c, "bom-ref") == Some(Str(l.bomRef)) && "path+" <= l.bomRef && CARGO <= l.purl
  {
    var l := LocalComponent(roots, source, c).value.value;
    var bomRef := Get(c, "bom-ref").value.text;
    var root := RootOf(roots, bomRef).value;
    ClaimShape(root, source, bomRef, Get(c, "purl"));
    hide Claim;
  }

  lemma ClaimShape(root: Root, source: string, bomRef: string, purl: Option<Document>)
    requires Claim(root, source, bomRef, purl).Ok?
    ensures var l := Claim(root, source, bomRef, purl).value;
            l.bomRef == bomRef && "path+" <= l.bomRef && CARGO <= l.purl
  {
    assert Prefix(root)[..5] == "path+";
    assert bomRef[..5] == Prefix(root)[..5];
    hide RightPartition, CanonicalPurl, ValidSourcePath;
  }

  lemma KeysApart(bomRef: string, purl: string)
    requires "path+" <= bomRef && CARGO <= purl
    ensures bomRef != purl
  {
    assert bomRef[1] == 'a' && purl[1] == 'k';
  }

  /** A local reference not claimed again is renamed to its own canonical URL. */
  lemma {:induction false} KeepsCanonical(roots: seq<Root>, source: string, cs: seq<Document>, i: nat, l: Local)
    requires i < |cs| && Collected(roots, source, cs).Ok? && LocalComponent(roots, source, cs[i]) == Ok(Some(l))
    requires forall k | i < k < |cs| :: Get(cs[k], "bom-ref") != Some(Str(l.bomRef))
    ensures Lookup(Collected(roots, source, cs).value, l.bomRef) == Some(l.canonical)
    decreases |cs|
  {
    hide LocalComponent, Get, CARGO, Adopt, Lookup;
    var n := |cs| - 1;
    LocalShape(roots, source, cs[i]);
    var front, x := Collected(roots, source, cs[..n]).value, LocalComponent(roots, source, cs[n]).value;
    if x.Some? {
      LocalShape(roots, source, cs[n]);
      KeysApart(l.bomRef, x.value.purl);
      AdoptedKeys(front, x.value, l.bomRef);
    }
    if i < n {
      assert cs[..n][i] == cs[i];
      assert forall k | i < k < n :: cs[..n][k] == cs[k];
      KeepsCanonical(roots, source, cs[..n], i, l);
    }
  }

  lemma AdoptedKeys(r: Renaming, l: Local, ref: string)
    requires Adopt(r, l).Ok? && ref != l.purl
    ensures Lookup(Adopt(r, l).value, ref) == if ref == l.bomRef then Some(l.canonical) else Lookup(r, ref)
  {
  }

  lemma {:induction false} RefListed(cs: seq<Document>, i: nat, ref: string)
    requires i < |cs| && Get(cs[i], "bom-ref") == Some(Str(ref))
    ensures ref in RefsOf(cs)
  {
    if i > 0 { RefListed(cs[1..], i - 1, ref); }
  }

  lemma RefsApart(cs: seq<Document>, i: nat, k: nat, ref: string)
    requires NoRepeats(RefsOf(cs)) && i < k < |cs| && Get(cs[i], "bom-ref") == Some(Str(ref))
    ensures Get(cs[k], "bom-ref") != Some(Str(ref))
  {
    hide RefsOf, Get, NoRepeats;
    if Get(cs[k], "bom-ref") == Some(Str(ref)) {
      assert cs[..k][i] == cs[i] && cs[k..][0] == cs[k];
      RefListed(cs[..k], i, ref);
      RefListed(cs[k..], 0, ref);
      assert cs == cs[..k] + cs[k..];
      RefsAppend(cs[..k], cs[k..]);
      RepeatedInJoin(RefsOf(cs[..k]), RefsOf(cs[k..]), ref);
      assert false;
    }
  }

  lemma RepeatedInJoin(a: seq<string>, b: seq<string>, x: string)
    requires x in a && x in b
    ensures !NoRepeats(a + b)
  {
    var i :| 0 <= i < |a| && a[i] == x;
    var j :| 0 <= j < |b| && b[j] == x;
    assert (a + b)[i] == (a + b)[|a| + j];
  }

  /** What an accepted document renames by. */
  lemma AcceptedRenaming(roots: seq<Root>, doc: Document) returns (source: string, cs: seq<Document>, r: Renaming)
    requires Normalized(roots, doc).Some?
    ensures ValidRoots(roots) && MetadataComponent(doc).Some?
      && MetadataSource(MetadataComponent(doc).value) == Some(source)
    ensures DocumentComponents(doc) == Some(cs) && Collected(roots, source, cs) == Ok(r) && r.replacements != map[]
    ensures RenamingOf(roots, doc) == Ok(r)
    ensures var placed := PlacedDocument(r.sourcePaths, MapStrings(Replace(r.replacements), doc));
            placed.Ok? && placed.value == Normalized(roots, doc).value && Accepted(roots, placed.value)
  {
    hide ValidRoots, Collected, PlacedDocument, Accepted, MapStrings, DocumentComponents;
    source := MetadataSource(MetadataComponent(doc).value).value;
    cs := DocumentComponents(doc).value;
    r := Collected(roots, source, cs).value;
  }

  lemma AcceptedTextsFree(roots: seq<Root>, doc: Document, r: Renaming, s: string)
    requires var placed := PlacedDocument(r.sourcePaths, MapStrings(Replace(r.replacements), doc));
             placed.Ok? && Accepted(roots, placed.value)
    requires s in Strings(doc)
    ensures FirstAt(Replace(r.replacements)(s)).None?
  {
    var f := Replace(r.replacements);
    var replaced := MapStrings(f, doc);
    MappedTexts(f, doc);
    PlacedDocumentTexts(r.sourcePaths, replaced);
    hide PlacedDocument, MapStrings, Strings, NoRepeats, ComponentRefs, DependenciesOf, Mentioned;
    assert f(s) in Strings(replaced);
    assert f(s) in Strings(PlacedDocument(r.sourcePaths, replaced).value);
  }

  lemma AcceptedCanonicalsFree(roots: seq<Root>, doc: Document, source: string, cs: seq<Document>, r: Renaming)
    requires Normalized(roots, doc).Some?
    requires DocumentComponents(doc) == Some(cs) && Collected(roots, source, cs) == Ok(r)
    requires var placed := PlacedDocument(r.sourcePaths, MapStrings(Replace(r.replacements), doc));
             placed.Ok? && Accepted(roots, placed.value)
    ensures CanonicalsFree(roots, source, cs)
  {
    hide Normalized, PlacedDocument, Accepted, Collected, LocalComponent, FirstAt;
    forall c | c in cs && LocalComponent(roots, source, c).Ok? && LocalComponent(roots, source, c).value.Some?
      ensures FirstAt(LocalComponent(roots, source, c).value.value.canonical).None?
    {
      var i :| 0 <= i < |cs| && cs[i] == c;
      AcceptedCanonicalFree(roots, doc, source, cs, r, i);
    }
  }

  lemma AcceptedCanonicalFree(roots: seq<Root>, doc: Document, source: string, cs: seq<Document>, r: Renaming, i: nat)
    requires Normalized(roots, doc).Some?
    requires DocumentComponents(doc) == Some(cs) && Collected(roots, source, cs) == Ok(r)
    requires var placed := PlacedDocument(r.sourcePaths, MapStrings(Replace(r.replacements), doc));
             placed.Ok? && Accepted(roots, placed.value)
    requires i < |cs| && LocalComponent(roots, source, cs[i]).Ok? && LocalComponent(roots, source, cs[i]).value.Some?
    ensures FirstAt(LocalComponent(roots, source, cs[i]).value.value.canonical).None?
  {
    NormalizationRenames(roots, doc);
    ComponentTexts(doc);
    hide Normalized, PlacedDocument, Accepted, Collected, LocalComponent, FirstAt, RenamingOf, NoRepeats, Strings,
      DependenciesOf;
    var c := cs[i];
    var l := LocalComponent(roots, source, c).value.value;
    LocalShape(roots, source, c);
    forall k | i < k < |cs| ensures Get(cs[k], "bom-ref") != Some(Str(l.bomRef)) { RefsApart(cs, i, k, l.bomRef); }
    KeepsCanonical(roots, source, cs, i, l);
    TextHeld(c, "bom-ref", l.bomRef);
    AcceptedTextsFree(roots, doc, r, l.bomRef);
  }

  lemma TextHeld<S(!new)>(c: Json<S>, key: string, text: S)
    requires Get(c, key) == Some(Str(text))
    ensures text in Strings(c)
  {
    ValueTexts(c, key);
    assert Strings(Str(text)) == [text];
    hide Strings;
  }

  // ---- relocation ----

  /** Every text of the document names at most one root, well placed. */
  ghost predicate AllPlaced(n: nat, doc: Json<Template>) {
    forall t | t in Strings(doc) :: WellPlaced(n, t)
  }

  /** The reference whose package may use the root's own place, as a template. */
  function TemplateSource(described: Option<Json<Template>>): Option<Template> {
    match described
    case Some(Object(fields)) =>
      (match FindField(fields, "bom-ref")
       case None => Some(Plain(""))
       case Some(Str(t)) => Some(Cut(t))
       case Some(_) => None)
    case _ => Some(Plain(""))
  }

  lemma SourceWritten(roots: seq<Root>, doc: Json<Template>)
    requires Admissible(roots) && AllPlaced(|roots|, doc) && MetadataComponent(doc).Some?
    ensures var source := TemplateSource(MetadataComponent(doc).value);
            MetadataSource(MapOption(Written(roots), MetadataComponent(doc).value)) ==
              if source.Some? then Some(Write(roots, source.value)) else None
    ensures var source := TemplateSource(MetadataComponent(doc).value);
            source.Some? ==> WellPlaced(|roots|, source.value)
  {
    DescribedTexts(doc);
    var described := MetadataComponent(doc).value;
    if described.Some? {
      forall t | t in Strings(described.value) ensures WellPlaced(|roots|, t) { assert t in Strings(doc); }
      DescribedWritten(roots, described.value);
    }
    hide Strings, FirstAt, AllPlaced, MetadataComponent, FindField, RightPartition;
  }

  lemma DescribedWritten(roots: seq<Root>, c: Json<Template>)
    requires Admissible(roots) && forall t | t in Strings(c) :: WellPlaced(|roots|, t)
    ensures var source := TemplateSource(Some(c));
            && MetadataSource(Some(MapStrings(Written(roots), c)))
               == (if source.Some? then Some(Write(roots, source.value)) else None)
            && (source.Some? ==> WellPlaced(|roots|, source.value))
  {
    hide FindField, Strings, FirstAt, WellPlaced, RightPartition, Cut, Write;
    if c.Object? {
      FindMapped(Written(roots), c.fields, "bom-ref");
      var ref := FindField(c.fields, "bom-ref");
      if ref.Some? && ref.value.Str? {
        TextHeld(c, "bom-ref", ref.value.text);
        CutWritten(roots, ref.value.text);
        CutPlaced(|roots|, ref.value.text);
      } else if ref.None? {
        NothingWritten(roots);
      }
    } else {
      NothingWritten(roots);
    }
  }

  lemma NothingWritten(roots: seq<Root>)
    ensures WellPlaced(|roots|, Plain("")) && Write(roots, Plain("")) == ""
  {
  }

  lemma ComponentsPlaced(n: nat, doc: Json<Template>)
    requires AllPlaced(n, doc) && DocumentComponents(doc).Some?
    ensures forall c | c in DocumentComponents(doc).value :: ComponentPlaced(n, c)
  {
    ComponentTexts(doc);
    hide DocumentComponents, Strings, WellPlaced, Get;
    forall c | c in DocumentComponents(doc).value ensures ComponentPlaced(n, c) {
      OnePlaced(n, doc, c);
    }
  }

  lemma OnePlaced(n: nat, doc: Json<Template>, c: Json<Template>)
    requires AllPlaced(n, doc) && TextsWithin(Strings(c), Strings(doc))
    ensures ComponentPlaced(n, c)
  {
    hide Strings, WellPlaced, Get;
    match Get(c, "bom-ref") {
      case Some(Str(t)) => TextHeld(c, "bom-ref", t);
      case _ =>
    }
    match Get(c, "purl") {
      case Some(Str(t)) => TextHeld(c, "purl", t);
      case _ =>
    }
  }

  /** Once renamed, a text accepted at the one place is the same text at the other. */
  lemma TextRelocates(r1: seq<Root>, r2: seq<Root>, a: Renaming, b: Renaming, t: Template)
    requires Admissible(r1) && |r1| == |r2| && WellPlaced(|r1|, t) && SameRenaming(r1, r2, a, b)
    requires FirstAt(Replace(a.replacements)(Write(r1, t))).None?
    ensures Replace(a.replacements)(Write(r1, t)) == Replace(b.replacements)(Write(r2, t))
  {
    assert Lookup(a, Write(r1, t)) == Lookup(b, Write(r2, t));
    if Lookup(a, Write(r1, t)).None? {
      WrittenFirst(r1, t);
      hide FirstAt;
    }
  }

  /** Other roots than those it was accepted against find nothing to object to. */
  lemma AcceptedAnywhere(r1: seq<Root>, r2: seq<Root>, out: Document)
    requires LocalUris(r2) && Accepted(r1, out)
    ensures Accepted(r2, out)
  {
    forall s | s in Strings(out) ensures !MentionsRoot(r2, s) {
      forall r | r in r2 ensures !Contains(s, r.uri) {
        if Contains(s, r.uri) {
          RootMentionsScheme(s, r.uri);
          assert false;
        }
      }
    }
    hide Strings, ComponentRefs, DependenciesOf, Mentioned, Contains;
  }

  lemma RenamingElsewhere(
    r1: seq<Root>, r2: seq<Root>, doc2: Document, source: Template, cs: seq<Json<Template>>) returns (b: Renaming)
    requires Admissible(r1) && Admissible(r2) && SameLabels(r1, r2) && WellPlaced(|r1|, source)
    requires forall c | c in cs :: ComponentPlaced(|r1|, c)
    requires MetadataComponent(doc2).Some? && MetadataSource(MetadataComponent(doc2).value) == Some(Write(r2, source))
    requires DocumentComponents(doc2) == Some(MapAll(Written(r2), cs))
    requires var x := Collected(r1, Write(r1, source), MapAll(Written(r1), cs)); x.Ok? && x.value.replacements != map[]
    requires CanonicalsFree(r1, Write(r1, source), MapAll(Written(r1), cs))
    ensures RenamingOf(r2, doc2) == Ok(b)
    ensures SameRenaming(r1, r2, Collected(r1, Write(r1, source), MapAll(Written(r1), cs)).value, b)
  {
    CollectedTogether(r1, r2, source, cs);
    hide Collected, MapAll, Write, Written, ValidRoots, LocalUris, DocumentComponents, MetadataComponent,
      MetadataSource, CanonicalsFree, Lookup;
    b := Collected(r2, Write(r2, source), MapAll(Written(r2), cs)).value;
    assert b.replacements != map[];
  }

  /** The parts of a document written against some roots. */
  lemma WrittenParts(roots: seq<Root>, doc: Json<Template>)
    requires Admissible(roots) && AllPlaced(|roots|, doc) && MetadataComponent(doc).Some?
    ensures var d := MapStrings(Written(roots), doc);
            && MetadataComponent(d).Some?
            && MetadataSource(MetadataComponent(d).value) == (
                 var source := TemplateSource(MetadataComponent(doc).value);
                 if source.Some? then Some(Write(roots, source.value)) else None)
            && DocumentComponents(d) == MapForest(Written(roots), DocumentComponents(doc))
  {
    MetadataMapped(Written(roots), doc);
    SourceWritten(roots, doc);
    ComponentsMapped(Written(roots), doc);
    hide *;
  }

  lemma RenamingRelocates(r1: seq<Root>, r2: seq<Root>, doc: Json<Template>) returns (a: Renaming, b: Renaming)
    requires Admissible(r1) && Admissible(r2) && SameLabels(r1, r2) && AllPlaced(|r1|, doc)
    requires Normalized(r1, MapStrings(Written(r1), doc)).Some?
    ensures RenamingOf(r2, MapStrings(Written(r2), doc)) == Ok(b)
    ensures SameRenaming(r1, r2, a, b)
    ensures var placed := PlacedDocument(a.sourcePaths,
      MapStrings(Replace(a.replacements), MapStrings(Written(r1), doc)));
            placed.Ok? && placed.value == Normalized(r1, MapStrings(Written(r1), doc)).value
              && Accepted(r1, placed.value)
  {
    var doc1, doc2 := MapStrings(Written(r1), doc), MapStrings(Written(r2), doc);
    var source, cs, r := AcceptedRenaming(r1, doc1);
    AcceptedCanonicalsFree(r1, doc1, source, cs, r);
    MetadataMapped(Written(r1), doc);
    assert |r1| == |r2|;
    WrittenParts(r1, doc);
    WrittenParts(r2, doc);
    hide Normalized, PlacedDocument, Accepted, MapStrings, Written, Write, Collected, CanonicalsFree, MetadataSource,
      Strings, TemplateSource;
    hide Admissible, SameRenaming, SameLabels, MetadataComponent, RenamingOf, Replace;
    assert DocumentComponents(doc).Some?;
    var forest := DocumentComponents(doc).value;
    hide DocumentComponents;
    ComponentsPlaced(|r1|, doc);
    SourceWritten(r1, doc);
    a := r;
    b := RenamingElsewhere(r1, r2, doc2, TemplateSource(MetadataComponent(doc).value).value, forest);
  }

  /** The same document relocated to other roots normalizes to the identical output. */
  lemma RelocationInvariant(r1: seq<Root>, r2: seq<Root>, doc: Json<Template>)
    requires Admissible(r1) && Admissible(r2) && SameLabels(r1, r2) && AllPlaced(|r1|, doc)
    requires Normalized(r1, MapStrings(Written(r1), doc)).Some?
    ensures Normalized(r2, MapStrings(Written(r2), doc)) == Normalized(r1, MapStrings(Written(r1), doc))
  {
    var doc1, doc2 := MapStrings(Written(r1), doc), MapStrings(Written(r2), doc);
    var a, b := RenamingRelocates(r1, r2, doc);
    forall t | t in Strings(doc)
      ensures Replace(a.replacements)(Written(r1)(t)) == Replace(b.replacements)(Written(r2)(t))
    {
      WrittenIs(r1, t);
      WrittenIs(r2, t);
      MappedTexts(Written(r1), doc);
      AcceptedTextsFree(r1, doc1, a, Write(r1, t));
      TextRelocates(r1, r2, a, b, t);
    }
    MapAgrees(Written(r1), Replace(a.replacements), Written(r2), Replace(b.replacements), doc);
    AcceptedAnywhere(r1, r2, Normalized(r1, doc1).value);
    hide MapStrings, PlacedDocument, Accepted, RenamingOf, Strings;
  }

  /** Whether a document is accepted does not depend on where it was written, and if it is,
      neither does the result. */
  lemma PlacedIsPlaceless(r1: seq<Root>, r2: seq<Root>, doc: Json<Template>)
    requires Admissible(r1) && Admissible(r2) && SameLabels(r1, r2) && AllPlaced(|r1|, doc)
    ensures Normalized(r1, MapStrings(Written(r1), doc)) == Normalized(r2, MapStrings(Written(r2), doc))
  {
    hide Normalized, MapStrings, Written, Admissible, AllPlaced;
    assert SameLabels(r2, r1);
    if Normalized(r1, MapStrings(Written(r1), doc)).Some? {
      RelocationInvariant(r1, r2, doc);
    } else if Normalized(r2, MapStrings(Written(r2), doc)).Some? {
      RelocationInvariant(r2, r1, doc);
    }
  }
}
