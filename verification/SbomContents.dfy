/** What an accepted normalization writes: which components it renames, to what, and where it says
    they came from. */
module SbomContents {
  import opened Wrappers
  import opened Splitting
  import opened JsonTrees
  import opened SbomNormalize
  import opened SbomIsomorphism
  import opened SbomRelocation
  import opened SbomPlaceless
  import SbomForeign

  // ---- how a local component is read ----

  /** The parts of a local reference, path+<uri>/<path>#<version>, and of a package URL,
      <name>?<qualifiers><tail>. */
  datatype Package = Package(
    root: Root, path: string, version: string, name: string, qualifiers: string, tail: string)
  {
    function Reference(): string { "path+" + root.uri + "/" + path + "#" + version }
    function Url(): string { name + "?" + qualifiers + tail }
    /** The package URL without its qualifiers. */
    function Canonical(): string { name + tail }
    function Place(): string { if root.name == "" then path else root.name + "/" + path }

    ghost predicate Cut() {
      && '#' !in version
      && '?' !in name && '#' !in name && '#' !in qualifiers && (tail == "" || tail[0] == '#')
    }
  }

  /** Nothing between two slashes is empty, a dot or two dots. */
  ghost predicate RelativePath(path: string) {
    forall before, part, after | Between(path, '/', before, part, after) :: part != "" && part != "." && part != ".."
  }

  /** A component of one of the roots, with a Cargo URL that says where in the root it is; the
      described product may say that it is the root itself. */
  ghost predicate Packaged(roots: seq<Root>, product: string, c: Document, p: Package) {
    && p.root in roots && p.Cut() && RelativePath(p.path)
    && Get(c, "bom-ref") == Some(Str(p.Reference())) && Get(c, "purl") == Some(Str(p.Url()))
    && "pkg:cargo/" <= p.Url()
    && (|| p.qualifiers == "download_url=" + p.root.uri + "/" + p.path
        || (p.qualifiers == "download_url=file://." && product == "path+" + p.root.uri + "/" + p.path))
  }

  /** The component's reference lies under one of the roots. */
  ghost predicate UnderRoot(roots: seq<Root>, c: Document) {
    exists ref, i | Get(c, "bom-ref") == Some(Str(ref)) && 0 <= i < |roots| :: "path+" + roots[i].uri + "/" <= ref
  }

  lemma {:induction false} NoRootFound(roots: seq<Root>, ref: string, i: nat)
    requires RootOf(roots, ref).None? && i < |roots|
    ensures !(Prefix(roots[i]) <= ref)
  {
    if i > 0 { NoRootFound(roots[1..], ref, i - 1); }
  }

  /** No two roots share a reference. */
  lemma RootOfIs(roots: seq<Root>, ref: string, j: nat)
    requires ValidRoots(roots) && j < |roots| && Prefix(roots[j]) <= ref
    ensures RootOf(roots, ref) == Some(roots[j])
  {
    hide ValidRoots;
    if RootOf(roots, ref).None? { NoRootFound(roots, ref, j); }
    var i := SbomForeign.RootFound(roots, ref);
    var x, y := ref[|Prefix(roots[i])|..], ref[|Prefix(roots[j])|..];
    assert ref == "path+" + (roots[i].uri + ("/" + x)) == "path+" + (roots[j].uri + ("/" + y));
    assert ref[5..] == roots[i].uri + ("/" + x) == roots[j].uri + ("/" + y);
    UriCancel(roots, i, "/" + x, j, "/" + y);
  }

  lemma CutLast(x: string, y: string)
    requires '#' !in y
    ensures RightPartition(x + "#" + y, '#') == Parts(x, true, y)
  {
    var s := x + ("#" + y);
    assert s == x + "#" + y;
    assert s[..|x|] == x && s[|x| + 1..] == y;
    LastInJoin("#", y, '#');
    LastInJoin(x, "#" + y, '#');
    assert "#"[..0] == "";
  }

  lemma CutsBack(s: string)
    ensures var p := RightPartition(s, '#'); p.found ==> s == p.before + "#" + p.after && '#' !in p.after
  {
  }

  lemma RelativePathIff(path: string)
    ensures ValidSourcePath(path) <==> RelativePath(path)
  {
    forall part { PieceIff(path, '/', part); }
    if path == "" { assert Between(path, '/', [], [], []); }
    if path != [] && path[0] == '/' { assert path == [] + [] + path && Between(path, '/', [], [], path); }
    hide SplitOn;
  }

  /** Any way to read a local reference and its URL is the one the normalization uses. */
  lemma ClaimedAs(roots: seq<Root>, product: string, c: Document, p: Package)
    requires ValidRoots(roots) && Packaged(roots, product, c, p)
    ensures LocalComponent(roots, product, c) == Ok(Some(Local(p.Reference(), p.Url(), p.Canonical(), p.Place())))
  {
    hide ValidRoots, RightPartition, ValidSourcePath, RelativePath, CanonicalPurl, RootOf, Claim, Prefix;
    var j :| 0 <= j < |roots| && roots[j] == p.root;
    ReferenceStarts(p);
    RootOfIs(roots, p.Reference(), j);
    ClaimedFrom(product, p);
  }

  lemma ReferenceStarts(p: Package)
    ensures Prefix(p.root) <= p.Reference() && p.Reference()[|Prefix(p.root)|..] == p.path + "#" + p.version
  {
    assert p.Reference() == Prefix(p.root) + (p.path + "#" + p.version);
  }

  lemma ClaimedFrom(product: string, p: Package)
    requires p.Cut() && RelativePath(p.path) && "pkg:cargo/" <= p.Url()
    requires p.qualifiers == "download_url=" + p.root.uri + "/" + p.path
             || (p.qualifiers == "download_url=file://." && product == "path+" + p.root.uri + "/" + p.path)
    ensures Claim(p.root, product, p.Reference(), Some(Str(p.Url())))
         == Ok(Local(p.Reference(), p.Url(), p.Canonical(), p.Place()))
  {
    hide RightPartition, ValidSourcePath, RelativePath, CanonicalPurl, Claim, Prefix;
    ReferenceStarts(p);
    CutLast(p.path, p.version);
    CutLast("path+" + p.root.uri + "/" + p.path, p.version);
    RelativePathIff(p.path);
    UrlParts(p);
    ClaimIff(p.root, product, p.Reference(), p.path + "#" + p.version, p.Url());
  }

  lemma UrlParts(p: Package)
    requires p.Cut()
    ensures CanonicalPurl(p.Url()) == (p.Canonical(), true, p.qualifiers)
  {
    hide CanonicalPurl, JoinPurl;
    var subpath := if p.tail == "" then "" else p.tail[1..];
    PurlParts(p.name, p.qualifiers, p.tail != "", subpath);
    UrlJoined(p, subpath);
  }

  lemma UrlJoined(p: Package, subpath: string)
    requires p.tail == if p.tail != "" then ['#'] + subpath else ""
    ensures p.Url() == JoinPurl(p.name, p.qualifiers, p.tail != "", subpath)
    ensures p.Canonical() == if p.tail != "" then p.name + "#" + subpath else p.name
  {
  }

  lemma PackageOf(roots: seq<Root>, product: string, c: Document) returns (p: Package)
    requires LocalComponent(roots, product, c).Ok? && LocalComponent(roots, product, c).value.Some?
    ensures Packaged(roots, product, c, p)
  {
    hide RightPartition, ValidSourcePath, CanonicalPurl, Claim, Prefix, RootOf;
    var ref := Get(c, "bom-ref").value.text;
    var i := SbomForeign.RootFound(roots, ref);
    ClaimHasUrl(roots[i], product, ref, Get(c, "purl"));
    p := PackageFrom(roots[i], product, ref, Get(c, "purl").value.text);
  }

  lemma ClaimHasUrl(root: Root, product: string, ref: string, purl: Option<Document>)
    ensures Claim(root, product, ref, purl).Ok? ==> purl.Some? && purl.value.Str?
  {
    hide RightPartition, ValidSourcePath, CanonicalPurl, Prefix;
  }

  lemma PackageFrom(root: Root, product: string, ref: string, purl: string) returns (p: Package)
    requires Prefix(root) <= ref && Claim(root, product, ref, Some(Str(purl))).Ok?
    ensures p.root == root && p.Cut() && RelativePath(p.path) && p.Reference() == ref && p.Url() == purl
    ensures "pkg:cargo/" <= purl
    ensures p.qualifiers == "download_url=" + root.uri + "/" + p.path
            || (p.qualifiers == "download_url=file://." && product == "path+" + root.uri + "/" + p.path)
  {
    hide RightPartition, ValidSourcePath, CanonicalPurl, Claim, Prefix, RelativePath, JoinPurl;
    var tail := ref[|Prefix(root)|..];
    ClaimIff(root, product, ref, tail, purl);
    CutsBack(tail);
    var name, qualifiers, found, subpath := PurlShape(purl);
    var source := RightPartition(tail, '#');
    RelativePathIff(source.before);
    p := Package(root, source.before, source.after, name, qualifiers, if found then ['#'] + subpath else "");
    ReferenceStarts(p);
    CutLast("path+" + root.uri + "/" + source.before, source.after);
    UrlJoined(p, subpath);
    assert ref == Prefix(root) + tail;
    assert p.Reference() == Prefix(root) + p.Reference()[|Prefix(root)|..];
  }

  lemma NotUnderRoot(roots: seq<Root>, product: string, c: Document)
    requires ValidRoots(roots)
    ensures LocalComponent(roots, product, c) == Ok(None) <==> !UnderRoot(roots, c)
  {
    hide ValidRoots, Claim;
    match Get(c, "bom-ref")
    case Some(Str(ref)) =>
      if RootOf(roots, ref).None? {
        forall i | 0 <= i < |roots| ensures !(Prefix(roots[i]) <= ref) { NoRootFound(roots, ref, i); }
      } else {
        var i := SbomForeign.RootFound(roots, ref);
      }
    case _ =>
  }

  // ---- what the renaming does ----

  /** A local URL is renamed to what is left of it, and its place recorded. */
  lemma {:induction false} KeepsUrlAndPlace(roots: seq<Root>, source: string, cs: seq<Document>, i: nat, l: Local)
    requires i < |cs| && Collected(roots, source, cs).Ok? && LocalComponent(roots, source, cs[i]) == Ok(Some(l))
    ensures var r := Collected(roots, source, cs).value;
            && Lookup(r, l.purl) == Some(l.canonical)
            && l.canonical in r.sourcePaths && r.sourcePaths[l.canonical] == l.sourcePath
    decreases |cs|
  {
    hide LocalComponent, Get, CARGO;
    var n := |cs| - 1;
    LocalCanonical(roots, source, cs[i]);
    var x := LocalComponent(roots, source, cs[n]).value;
    if x.Some? { LocalCanonical(roots, source, cs[n]); }
    if i < n {
      assert cs[..n][i] == cs[i];
      KeepsUrlAndPlace(roots, source, cs[..n], i, l);
      LocalShape(roots, source, cs[i]);
      if x.Some? {
        LocalShape(roots, source, cs[n]);
        KeysApart(x.value.bomRef, l.purl);
      }
    }
  }

  lemma LocalCanonical(roots: seq<Root>, source: string, c: Document)
    requires LocalComponent(roots, source, c).Ok? && LocalComponent(roots, source, c).value.Some?
    ensures var l := LocalComponent(roots, source, c).value.value; l.canonical == CanonicalPurl(l.purl).0
  {
    hide RightPartition, ValidSourcePath, CanonicalPurl, RootOf, Prefix;
  }

  /** Nothing else is renamed, and no other place recorded. */
  lemma {:induction false} RenamesOnly(roots: seq<Root>, source: string, cs: seq<Document>, s: string)
    requires Collected(roots, source, cs).Ok?
    ensures s in Collected(roots, source, cs).value.replacements ==>
      exists i | 0 <= i < |cs| :: var x := LocalComponent(roots, source, cs[i]);
        x.Ok? && x.value.Some? && (s == x.value.value.bomRef || s == x.value.value.purl)
    ensures s in Collected(roots, source, cs).value.sourcePaths ==>
      exists i | 0 <= i < |cs| :: var x := LocalComponent(roots, source, cs[i]);
        x.Ok? && x.value.Some? && s == x.value.value.canonical
    decreases |cs|
  {
    hide LocalComponent;
    if cs != [] {
      var n := |cs| - 1;
      RenamesOnly(roots, source, cs[..n], s);
      assert forall i | 0 <= i < n :: cs[..n][i] == cs[i];
      var x := LocalComponent(roots, source, cs[n]).value;
    }
  }

  // ---- the result ----

  ghost predicate CutAt(ref: string, q: string, version: string) {
    ref == q + "#" + version && '#' !in version
  }

  /** `product` is the described component's reference up to its version, if it has both. */
  ghost predicate DescribesProduct(doc: Document, product: string) {
    && (forall d, ref, q, version | MetadataComponent(doc) == Some(Some(d)) && Get(d, "bom-ref") == Some(Str(ref))
          && CutAt(ref, q, version) :: product == q)
    && (product != "" ==> exists d, ref, version ::
          && MetadataComponent(doc) == Some(Some(d)) && Get(d, "bom-ref") == Some(Str(ref))
          && CutAt(ref, product, version))
  }

  lemma ProductDescribed(doc: Document, product: string)
    requires MetadataComponent(doc).Some? && MetadataSource(MetadataComponent(doc).value) == Some(product)
    ensures DescribesProduct(doc, product)
  {
    hide RightPartition, MetadataComponent;
    forall d, ref, q, version | MetadataComponent(doc) == Some(Some(d)) && Get(d, "bom-ref") == Some(Str(ref))
        && CutAt(ref, q, version)
      ensures product == q
    {
      CutLast(q, version);
    }
    if product != "" {
      var d := MetadataComponent(doc).value.value;
      var ref := Get(d, "bom-ref").value.text;
      CutsBack(ref);
      NothingBefore(ref);
      assert CutAt(ref, product, RightPartition(ref, '#').after);
    }
  }

  lemma NothingBefore(s: string)
    ensures !RightPartition(s, '#').found ==> RightPartition(s, '#').before == ""
  {
  }

  /** The provenance entry. */
  function Entry(place: string): Document {
    Object([Field("name", Str("h00ligan:source:relative-path")), Field("value", Str(place))])
  }

  ghost predicate NamesProvenance(property: Document) {
    property.Object? && Get(property, "name") == Some(Str("h00ligan:source:relative-path"))
  }

  /** The component `o` is `c` renamed to its bare URL, its properties followed by its place,
      which no other of them states. */
  ghost predicate Provenanced(f: string -> string, c: Document, o: Document, p: Package) {
    && Get(o, "bom-ref") == Some(Str(p.Canonical())) && Get(o, "purl") == Some(Str(p.Canonical()))
    && ArrayAt(c, "properties").Some?
    && var kept := MapAll(f, ArrayAt(c, "properties").value);
       Get(o, "properties") == Some(List(kept + [Entry(p.Place())])) && forall q | q in kept :: !NamesProvenance(q)
  }

  /** What becomes of one component. */
  ghost predicate NormalizedAs(roots: seq<Root>, product: string, f: string -> string, c: Document, o: Document) {
    && (forall k | k != "properties" && k != "components" :: Get(o, k) == MapOption(f, Get(c, k)))
    && (if UnderRoot(roots, c)
        then exists p :: Packaged(roots, product, c, p) && Provenanced(f, c, o, p)
        else Get(o, "properties") == MapOption(f, Get(c, "properties")))
  }

  /** Only the references and URLs of local components are replaced. */
  ghost predicate ReplacesOnlyLocal(roots: seq<Root>, product: string, cs: seq<Document>, f: string -> string) {
    forall s | f(s) != s :: exists i, p | 0 <= i < |cs| ::
      Packaged(roots, product, cs[i], p) && (s == p.Reference() || s == p.Url()) && f(s) == p.Canonical()
  }

  lemma RenamedTo(roots: seq<Root>, source: string, cs: seq<Document>, i: nat, r: Renaming)
    requires i < |cs| && NoRepeats(RefsOf(cs)) && Collected(roots, source, cs) == Ok(r)
    requires LocalComponent(roots, source, cs[i]).Ok? && LocalComponent(roots, source, cs[i]).value.Some?
    ensures var l := LocalComponent(roots, source, cs[i]).value.value;
            && Replace(r.replacements)(l.bomRef) == Replace(r.replacements)(l.purl) == l.canonical
            && l.canonical in r.sourcePaths && r.sourcePaths[l.canonical] == l.sourcePath
  {
    hide Collected, LocalComponent, RefsOf, NoRepeats;
    var l := LocalComponent(roots, source, cs[i]).value.value;
    LocalShape(roots, source, cs[i]);
    forall k | i < k < |cs| ensures Get(cs[k], "bom-ref") != Some(Str(l.bomRef)) { RefsApart(cs, i, k, l.bomRef); }
    KeepsCanonical(roots, source, cs, i, l);
    KeepsUrlAndPlace(roots, source, cs, i, l);
  }

  lemma OnlyLocalReplaced(roots: seq<Root>, product: string, cs: seq<Document>, r: Renaming)
    requires ValidRoots(roots) && NoRepeats(RefsOf(cs)) && Collected(roots, product, cs) == Ok(r)
    ensures ReplacesOnlyLocal(roots, product, cs, Replace(r.replacements))
  {
    hide Collected, LocalComponent, RefsOf, NoRepeats, ValidRoots, Packaged;
    var f := Replace(r.replacements);
    forall s | f(s) != s
      ensures exists i, p | 0 <= i < |cs| ::
        Packaged(roots, product, cs[i], p) && (s == p.Reference() || s == p.Url()) && f(s) == p.Canonical()
    {
      RenamesOnly(roots, product, cs, s);
      var i :| 0 <= i < |cs| && var x := LocalComponent(roots, product, cs[i]);
        x.Ok? && x.value.Some? && (s == x.value.value.bomRef || s == x.value.value.purl);
      var p := PackageOf(roots, product, cs[i]);
      ClaimedAs(roots, product, cs[i], p);
      RenamedTo(roots, product, cs, i, r);
    }
  }

  /** How a local component is placed. */
  lemma LocalPlaced(
    roots: seq<Root>, product: string, sourcePaths: map<string, string>, f: string -> string, c: Document, o: Document,
    p: Package)
    requires Packaged(roots, product, c, p)
    requires f(p.Reference()) == f(p.Url()) == p.Canonical()
    requires p.Canonical() in sourcePaths && sourcePaths[p.Canonical()] == p.Place()
    requires PlacedAs(sourcePaths, MapStrings(f, c), o)
    ensures Provenanced(f, c, o, p)
    ensures forall k | k != "properties" && k != "components" :: Get(o, k) == MapOption(f, Get(c, k))
  {
    hide Placed, MapStrings, MapAll, FindField;
    var m := MapStrings(f, c);
    ReadMapped(f, c, p);
    PlacedEntry(sourcePaths, m.fields, p);
    ArrayMapped(f, c, "properties");
    forall k | k != "properties" && k != "components" ensures Get(o, k) == MapOption(f, Get(c, k)) {
      GetMapped(f, c, k);
      assert Get(o, k) == FindField(o.fields, k) && Get(m, k) == FindField(m.fields, k);
    }
    assert Get(o, "properties") == FindField(o.fields, "properties");
  }

  lemma ReadMapped(f: string -> string, c: Document, p: Package)
    requires Get(c, "bom-ref") == Some(Str(p.Reference())) && Get(c, "purl") == Some(Str(p.Url()))
    requires f(p.Reference()) == f(p.Url()) == p.Canonical()
    ensures var m := MapStrings(f, c);
            m.Object? && Get(m, "bom-ref") == Get(m, "purl") == Some(Str(p.Canonical()))
  {
    hide FindField;
    GetMapped(f, c, "bom-ref");
    GetMapped(f, c, "purl");
  }

  lemma PlacedEntry(sourcePaths: map<string, string>, fields: seq<Field<string>>, p: Package)
    requires FindField(fields, "bom-ref") == Some(Str(p.Canonical()))
    requires p.Canonical() in sourcePaths && sourcePaths[p.Canonical()] == p.Place()
    requires Placed(sourcePaths, fields).Ok?
    ensures var placed, kept := Placed(sourcePaths, fields).value, ArrayAt(Object(fields), "properties");
            && kept.Some? && (forall q | q in kept.value :: !NamesProvenance(q))
            && FindField(placed, "properties") == Some(List(kept.value + [Entry(p.Place())]))
            && forall k | k != "properties" :: FindField(placed, k) == FindField(fields, k)
  {
    assert [] + [Entry(p.Place())] == [Entry(p.Place())];
  }

  /** How any other component is placed. */
  lemma OtherPlaced(sourcePaths: map<string, string>, f: string -> string, c: Document, o: Document)
    requires forall ref | Get(c, "bom-ref") == Some(Str(ref)) :: f(ref) !in sourcePaths
    requires PlacedAs(sourcePaths, MapStrings(f, c), o)
    ensures forall k | k != "components" :: Get(o, k) == MapOption(f, Get(c, k))
  {
    hide Placed, MapAll, FindField;
    var m := MapStrings(f, c);
    forall ref | Get(m, "bom-ref") == Some(Str(ref)) ensures ref !in sourcePaths { GetMapped(f, c, "bom-ref"); }
    hide MapStrings;
    UnplacedFields(sourcePaths, m.fields);
    forall k | k != "components" ensures Get(o, k) == MapOption(f, Get(c, k)) {
      GetMapped(f, c, k);
      assert Get(o, k) == FindField(o.fields, k) && Get(m, k) == FindField(m.fields, k);
    }
  }

  lemma UnplacedFields(sourcePaths: map<string, string>, fields: seq<Field<string>>)
    requires forall ref | FindField(fields, "bom-ref") == Some(Str(ref)) :: ref !in sourcePaths
    requires Placed(sourcePaths, fields).Ok?
    ensures Placed(sourcePaths, fields).value == fields
  {
  }

  /** A reference that is not local is not renamed to one that is. */
  lemma NotPlaced(roots: seq<Root>, product: string, doc: Document, cs: seq<Document>, r: Renaming, i: nat, ref: string)
    requires ValidRoots(roots) && DocumentComponents(doc) == Some(cs) && Collected(roots, product, cs) == Ok(r)
    requires var f := Replace(r.replacements);
             forall a, b | a in ComponentRefs(doc) && b in ComponentRefs(doc) && f(a) == f(b) :: a == b
    requires NoRepeats(RefsOf(cs))
    requires i < |cs| && Get(cs[i], "bom-ref") == Some(Str(ref)) && !UnderRoot(roots, cs[i])
    ensures Replace(r.replacements)(ref) !in r.sourcePaths
  {
    hide Collected, LocalComponent, RefsOf, NoRepeats, ValidRoots, UnderRoot, DocumentComponents;
    var f := Replace(r.replacements);
    RefListed(cs, i, ref);
    if f(ref) in r.sourcePaths {
      RenamesOnly(roots, product, cs, f(ref));
      var k :| 0 <= k < |cs| && var x := LocalComponent(roots, product, cs[k]);
        x.Ok? && x.value.Some? && f(ref) == x.value.value.canonical;
      RenamedTo(roots, product, cs, k, r);
      LocalShape(roots, product, cs[k]);
      RefListed(cs, k, LocalComponent(roots, product, cs[k]).value.value.bomRef);
      NotUnderRoot(roots, product, cs[k]);
      SameReference(roots, cs[i], cs[k]);
    }
  }

  lemma SameReference(roots: seq<Root>, c: Document, d: Document)
    requires Get(c, "bom-ref") == Get(d, "bom-ref")
    ensures UnderRoot(roots, c) == UnderRoot(roots, d)
  {
  }

  /** An accepted document is the input with the reference and URL of every local component
      replaced by the bare URL throughout, and with the place of each local component recorded
      at the end of its properties; nothing else is touched. */
  lemma NormalizedContents(roots: seq<Root>, doc: Document)
    returns (product: string, f: string -> string, cs: seq<Document>, os: seq<Document>)
    requires Normalized(roots, doc).Some?
    ensures var out := Normalized(roots, doc).value;
            && DocumentComponents(doc) == Some(cs) && DocumentComponents(out) == Some(os) && |os| == |cs|
            && (forall i | 0 <= i < |cs| :: NormalizedAs(roots, product, f, cs[i], os[i]))
            && (exists i | 0 <= i < |cs| :: UnderRoot(roots, cs[i]))
            && forall k | k != "metadata" && k != "components" :: Get(out, k) == MapOption(f, Get(doc, k))
    ensures DescribesProduct(doc, product)
    ensures ReplacesOnlyLocal(roots, product, cs, f)
  {
    hide Normalized, PlacedDocument, Collected, ValidRoots, Accepted, NoRepeats, RefsOf, MapStrings, DocumentComponents;
    hide Aligned, PlacedAs, UnderRoot, NormalizedAs, ReplacesOnlyLocal, LocalComponent, MetadataComponent, Packaged;
    hide DescribesProduct, DependenciesOf, MapDependencies, MetadataSource, RenamingOf;
    var source, components, r := AcceptedRenaming(roots, doc);
    product, cs, f := source, components, Replace(r.replacements);
    var out, mapped := Normalized(roots, doc).value, MapStrings(f, doc);
    NormalizationRenames(roots, doc);
    ComponentsMapped(f, doc);
    PlacedDocumentAligned(r.sourcePaths, mapped);
    AlignedSome(r.sourcePaths, DocumentComponents(mapped), DocumentComponents(out));
    os := DocumentComponents(out).value;
    AlignedAt(r.sourcePaths, MapAll(f, cs), os);
    OnlyLocalReplaced(roots, product, cs, r);
    ProductDescribed(doc, product);
    forall i | 0 <= i < |cs| ensures NormalizedAs(roots, product, f, cs[i], os[i]) {
      assert PlacedAs(r.sourcePaths, MapStrings(f, cs[i]), os[i]);
      OneNormalized(roots, product, doc, cs, os[i], r, i);
    }
    forall k | k != "metadata" && k != "components" ensures Get(out, k) == MapOption(f, Get(doc, k)) {
      GetMapped(f, doc, k);
    }
    SomeLocal(roots, product, cs, r);
  }

  lemma AlignedAt(sourcePaths: map<string, string>, before: seq<Document>, after: seq<Document>)
    requires Aligned(sourcePaths, Some(before), Some(after))
    ensures |before| == |after| && forall i | 0 <= i < |before| :: PlacedAs(sourcePaths, before[i], after[i])
  {
  }

  lemma SomeLocal(roots: seq<Root>, product: string, cs: seq<Document>, r: Renaming)
    requires ValidRoots(roots) && Collected(roots, product, cs) == Ok(r) && r.replacements != map[]
    ensures exists i | 0 <= i < |cs| :: UnderRoot(roots, cs[i])
  {
    hide Collected, LocalComponent, ValidRoots, UnderRoot;
    var s :| s in r.replacements;
    RenamesOnly(roots, product, cs, s);
    var i :| 0 <= i < |cs| && var x := LocalComponent(roots, product, cs[i]);
      x.Ok? && x.value.Some? && (s == x.value.value.bomRef || s == x.value.value.purl);
    NotUnderRoot(roots, product, cs[i]);
  }

  lemma OneNormalized(
    roots: seq<Root>, product: string, doc: Document, cs: seq<Document>, o: Document, r: Renaming, i: nat)
    requires ValidRoots(roots) && DocumentComponents(doc) == Some(cs) && Collected(roots, product, cs) == Ok(r)
    requires var f := Replace(r.replacements);
             forall a, b | a in ComponentRefs(doc) && b in ComponentRefs(doc) && f(a) == f(b) :: a == b
    requires NoRepeats(ComponentRefs(doc))
    requires i < |cs| && PlacedAs(r.sourcePaths, MapStrings(Replace(r.replacements), cs[i]), o)
    ensures NormalizedAs(roots, product, Replace(r.replacements), cs[i], o)
  {
    hide Collected, ValidRoots, NoRepeats, RefsOf, MapStrings, DocumentComponents, PlacedAs, UnderRoot, LocalComponent;
    hide Packaged, Provenanced;
    var f := Replace(r.replacements);
    NotUnderRoot(roots, product, cs[i]);
    if UnderRoot(roots, cs[i]) {
      LocalUnder(roots, product, cs, i);
      var p := PackageOf(roots, product, cs[i]);
      ClaimedAs(roots, product, cs[i], p);
      RenamedTo(roots, product, cs, i, r);
      LocalPlaced(roots, product, r.sourcePaths, f, cs[i], o, p);
    } else {
      forall ref | Get(cs[i], "bom-ref") == Some(Str(ref)) ensures f(ref) !in r.sourcePaths {
        NotPlaced(roots, product, doc, cs, r, i, ref);
      }
      OtherPlaced(r.sourcePaths, f, cs[i], o);
    }
  }

  lemma {:induction false} LocalUnder(roots: seq<Root>, product: string, cs: seq<Document>, i: nat)
    requires i < |cs| && Collected(roots, product, cs).Ok?
    ensures LocalComponent(roots, product, cs[i]).Ok?
    decreases |cs|
  {
    hide LocalComponent;
    if i < |cs| - 1 {
      assert cs[..|cs| - 1][i] == cs[i];
      LocalUnder(roots, product, cs[..|cs| - 1], i);
    }
  }
}
