/** Renaming the machine-local references of a CycloneDX document to package URLs. */
module SbomNormalize {
  import opened Wrappers
  import opened Splitting
  import opened JsonTrees

  type Document = Json<string>

  datatype NormalizationError =
    | Malformed
    | InvalidRoots
    | InvalidSourcePath
    | NoCargoPurl
    | UnexpectedSourceUrl
    | PurlsNotUnique
    | NothingLocal
    | InvalidProperties
    | AlreadyDeclared
    | UnmappedReference
    | AbsoluteFileUri
    | DuplicateReference
    | DanglingDependency

  // ---- text ----

  function IndexOf(s: string, c: char): (r: Option<nat>)
    ensures r.Some? ==> r.value < |s| && s[r.value] == c && c !in s[..r.value]
    ensures r.None? ==> c !in s
  {
    if s == [] then None
    else if s[0] == c then Some(0)
    else
      match IndexOf(s[1..], c)
      case None => None
      case Some(i) =>
        assert s[..i + 1] == [s[0]] + s[1..][..i];
        Some(i + 1)
  }

  function LastIndexOf(s: string, c: char): (r: Option<nat>)
    ensures r.Some? ==> r.value < |s| && s[r.value] == c && c !in s[r.value + 1..]
    ensures r.None? ==> c !in s
  {
    if s == [] then None
    else if s[|s| - 1] == c then Some(|s| - 1)
    else
      match LastIndexOf(s[..|s| - 1], c)
      case None => None
      case Some(i) =>
        assert s[i + 1..] == s[..|s| - 1][i + 1..] + [s[|s| - 1]];
        Some(i)
  }

  datatype Parts = Parts(before: string, found: bool, after: string)

  /** Cut at the first separator. */
  function Partition(s: string, c: char): Parts {
    match IndexOf(s, c)
    case None => Parts(s, false, "")
    case Some(i) => Parts(s[..i], true, s[i + 1..])
  }

  /** Cut at the last separator. */
  function RightPartition(s: string, c: char): Parts {
    match LastIndexOf(s, c)
    case None => Parts("", false, s)
    case Some(i) => Parts(s[..i], true, s[i + 1..])
  }

  predicate Contains(s: string, part: string) {
    part <= s || (s != [] && Contains(s[1..], part))
  }

  // ---- roots ----

  datatype Root = Root(name: string, uri: string)

  predicate ValidLabel(name: string) {
    name != [] && name[0] != '-' && forall c | c in name :: 'a' <= c <= 'z' || '0' <= c <= '9' || c == '-'
  }

  predicate Overlaps(a: string, b: string) {
    a == b || b + "/" <= a || a + "/" <= b
  }

  /** The workspace first, then labelled source roots, none inside another. */
  predicate ValidRoots(roots: seq<Root>) {
    && roots != [] && roots[0].name == ""
    && (forall i | 1 <= i < |roots| :: ValidLabel(roots[i].name))
    && (forall i, j | 0 <= i < j < |roots| :: roots[i].name != roots[j].name && !Overlaps(roots[j].uri, roots[i].uri))
  }

  // ---- components ----

  /** Outer None: the metadata is no object. */
  function MetadataComponent<S>(doc: Json<S>): Option<Option<Json<S>>> {
    match Get(doc, "metadata")
    case None => Some(None)
    case Some(Object(fields)) => Some(FindField(fields, "component"))
    case Some(_) => None
  }

  /** A component and everything nested in it; None when a component list is no array. */
  function ComponentTree<S>(j: Json<S>): Option<seq<Json<S>>>
    decreases j
  {
    if !j.Object? then Some([])
    else
      match Get(j, "components")
      case None => Some([j])
      case Some(List(items)) =>
        (match ComponentForest(items)
         case None => None
         case Some(nested) => Some([j] + nested))
      case Some(_) => None
  }

  function ComponentForest<S>(items: seq<Json<S>>): Option<seq<Json<S>>>
    decreases items
  {
    if items == [] then Some([])
    else
      match ComponentTree(items[0])
      case None => None
      case Some(first) =>
        match ComponentForest(items[1..])
        case None => None
        case Some(rest) => Some(first + rest)
  }

  /** The metadata component, then the others, each with what is nested in it. */
  function DocumentComponents<S>(doc: Json<S>): Option<seq<Json<S>>> {
    match MetadataComponent(doc)
    case None => None
    case Some(described) =>
      match ArrayAt(doc, "components")
      case None => None
      case Some(items) => ComponentForest((if described.Some? then [described.value] else []) + items)
  }

  // ---- which references are local, and what becomes of them ----

  /** What one workspace component contributes. */
  datatype Local = Local(bomRef: string, purl: string, canonical: string, sourcePath: string)

  predicate ValidSourcePath(path: string) {
    path != [] && path[0] != '/' && forall part | part in SplitOn(path, '/') ::
      part != "" && part != "." && part != ".."
  }

  function Prefix(root: Root): string {
    "path+" + root.uri + "/"
  }

  /** The first root a reference lies under. */
  function RootOf(roots: seq<Root>, bomRef: string): Option<Root> {
    if roots == [] then None
    else if Prefix(roots[0]) <= bomRef then Some(roots[0])
    else RootOf(roots[1..], bomRef)
  }

  /** A package URL without its qualifiers, and the qualifiers. */
  function CanonicalPurl(purl: string): (string, bool, string) {
    var subpath := Partition(purl, '#');
    var query := Partition(subpath.before, '?');
    (if subpath.found then query.before + "#" + subpath.after else query.before, query.found, query.after)
  }

  function PlaceOf(root: Root, path: string): string {
    if root.name == "" then path else root.name + "/" + path
  }

  function Claim(
    root: Root, metadataSource: string, bomRef: string, purl: Option<Document>): Result<Local, NormalizationError> {
    if !(Prefix(root) <= bomRef) then Err(InvalidSourcePath)
    else
      var source := RightPartition(bomRef[|Prefix(root)|..], '#');
      if !source.found || !ValidSourcePath(source.before) then Err(InvalidSourcePath)
      else if purl.None? || !purl.value.Str? || !("pkg:cargo/" <= purl.value.text) then Err(NoCargoPurl)
      else
        var (canonical, qualified, qualifiers) := CanonicalPurl(purl.value.text);
        if !qualified || (qualifiers != "download_url=" + root.uri + "/" + source.before
           && !(RightPartition(bomRef, '#').before == metadataSource && qualifiers == "download_url=file://."))
        then Err(UnexpectedSourceUrl)
        else Ok(Local(bomRef, purl.value.text, canonical, PlaceOf(root, source.before)))
  }

  /** None for a component that is not local to any root. */
  function LocalComponent(
    roots: seq<Root>, metadataSource: string, c: Document): Result<Option<Local>, NormalizationError> {
    match Get(c, "bom-ref")
    case Some(Str(bomRef)) =>
      (match RootOf(roots, bomRef)
       case None => Ok(None)
       case Some(root) =>
         match Claim(root, metadataSource, bomRef, Get(c, "purl"))
         case Err(e) => Err(e)
         case Ok(local) => Ok(Some(local)))
    case _ => Ok(None)
  }

  /** The replacement of every local reference and package URL, and the place of every
      canonical one. */
  datatype Renaming = Renaming(replacements: map<string, string>, sourcePaths: map<string, string>)

  function Adopt(r: Renaming, l: Local): Result<Renaming, NormalizationError> {
    if l.canonical in r.sourcePaths then Err(PurlsNotUnique)
    else Ok(Renaming(r.replacements[l.bomRef := l.canonical][l.purl := l.canonical],
      r.sourcePaths[l.canonical := l.sourcePath]))
  }

  function Collected(
    roots: seq<Root>, metadataSource: string, components: seq<Document>): Result<Renaming, NormalizationError> {
    if components == [] then Ok(Renaming(map[], map[]))
    else
      match Collected(roots, metadataSource, components[..|components| - 1])
      case Err(e) => Err(e)
      case Ok(front) =>
        match LocalComponent(roots, metadataSource, components[|components| - 1])
        case Err(e) => Err(e)
        case Ok(None) => Ok(front)
        case Ok(Some(local)) => Adopt(front, local)
  }

  function MetadataSource(described: Option<Document>): Option<string> {
    match described
    case Some(Object(fields)) =>
      (match FindField(fields, "bom-ref")
       case None => Some("")
       case Some(Str(bomRef)) => Some(RightPartition(bomRef, '#').before)
       case Some(_) => None)
    case _ => Some("")
  }

  function RenamingOf(roots: seq<Root>, doc: Document): Result<Renaming, NormalizationError> {
    if !ValidRoots(roots) then Err(InvalidRoots)
    else
      match MetadataComponent(doc)
      case None => Err(Malformed)
      case Some(described) =>
        match (MetadataSource(described), DocumentComponents(doc))
        case (Some(metadataSource), Some(components)) =>
          (match Collected(roots, metadataSource, components)
           case Err(e) => Err(e)
           case Ok(r) => if r.replacements == map[] then Err(NothingLocal) else Ok(r))
        case (_, _) => Err(Malformed)
  }

  function Replace(replacements: map<string, string>): string -> string {
    (s: string) => if s in replacements then replacements[s] else s
  }

  // ---- provenance ----

  const PROVENANCE := "h00ligan:source:relative-path"

  predicate DeclaresProvenance(properties: seq<Document>) {
    exists p | p in properties :: p.Object? && Get(p, "name") == Some(Str(PROVENANCE))
  }

  function SetField(fields: seq<Field<string>>, key: string, value: Document): (r: seq<Field<string>>)
    ensures FindField(r, key) == Some(value)
    ensures forall k | k != key :: FindField(r, k) == FindField(fields, k)
  {
    if fields == [] then [Field(key, value)]
    else if fields[0].key == key then
      var r := [Field(key, value)] + fields[1..];
      assert r[1..] == fields[1..];
      r
    else
      var r := [fields[0]] + SetField(fields[1..], key, value);
      assert r[1..] == SetField(fields[1..], key, value);
      r
  }

  /** One component with its place appended to its properties. */
  function Placed(
    sourcePaths: map<string, string>, fields: seq<Field<string>>): Result<seq<Field<string>>, NormalizationError> {
    match FindField(fields, "bom-ref")
    case Some(Str(ref)) =>
      if ref !in sourcePaths then Ok(fields)
      else
        var entry := Object([Field("name", Str(PROVENANCE)), Field("value", Str(sourcePaths[ref]))]);
        (match FindField(fields, "properties")
         case None => Ok(SetField(fields, "properties", List([entry])))
         case Some(List(properties)) =>
           if DeclaresProvenance(properties) then Err(AlreadyDeclared)
           else Ok(SetField(fields, "properties", List(properties + [entry])))
         case Some(_) => Err(InvalidProperties))
    case Some(List(_)) => Err(Malformed)
    case Some(Object(_)) => Err(Malformed)
    case _ => Ok(fields)
  }

  function PlacedTree(sourcePaths: map<string, string>, j: Document): Result<Document, NormalizationError>
    decreases j
  {
    if !j.Object? then Ok(j)
    else
      match Placed(sourcePaths, j.fields)
      case Err(e) => Err(e)
      case Ok(fields) =>
        match Get(j, "components")
        case None => Ok(Object(fields))
        case Some(List(items)) =>
          (match PlacedForest(sourcePaths, items)
           case Err(e) => Err(e)
           case Ok(placed) => Ok(Object(SetField(fields, "components", List(placed)))))
        case Some(_) => Err(Malformed)
  }

  function PlacedForest(
    sourcePaths: map<string, string>, items: seq<Document>): Result<seq<Document>, NormalizationError>
    decreases items
  {
    if items == [] then Ok([])
    else
      match PlacedTree(sourcePaths, items[0])
      case Err(e) => Err(e)
      case Ok(first) =>
        match PlacedForest(sourcePaths, items[1..])
        case Err(e) => Err(e)
        case Ok(rest) => Ok([first] + rest)
  }

  function PlacedMetadata(sourcePaths: map<string, string>, doc: Document): Result<Document, NormalizationError> {
    match Get(doc, "metadata")
    case None => Ok(doc)
    case Some(Object(fields)) =>
      (match FindField(fields, "component")
       case None => Ok(doc)
       case Some(described) =>
         match PlacedTree(sourcePaths, described)
         case Err(e) => Err(e)
         case Ok(placed) => Ok(Object(SetField(doc.fields, "metadata", Object(SetField(fields, "component", placed))))))
    case Some(_) => Err(Malformed)
  }

  function PlacedComponents(sourcePaths: map<string, string>, doc: Document): Result<Document, NormalizationError> {
    match Get(doc, "components")
    case None => Ok(doc)
    case Some(List(items)) =>
      (match PlacedForest(sourcePaths, items)
       case Err(e) => Err(e)
       case Ok(placed) => Ok(Object(SetField(doc.fields, "components", List(placed)))))
    case Some(_) => Err(Malformed)
  }

  function PlacedDocument(sourcePaths: map<string, string>, doc: Document): Result<Document, NormalizationError> {
    match PlacedMetadata(sourcePaths, doc)
    case Err(e) => Err(e)
    case Ok(described) => PlacedComponents(sourcePaths, described)
  }

  // ---- the dependency graph of a document ----

  function RefOf(c: Document): seq<string> {
    match Get(c, "bom-ref")
    case Some(Str(ref)) => [ref]
    case _ => []
  }

  function RefsOf(components: seq<Document>): seq<string> {
    if components == [] then [] else RefOf(components[0]) + RefsOf(components[1..])
  }

  /** The component references in document order. */
  function ComponentRefs(doc: Document): seq<string> {
    match DocumentComponents(doc)
    case None => []
    case Some(components) => RefsOf(components)
  }

  datatype Dependency = Dependency(parent: Option<string>, children: seq<string>)

  function TextsAmong(items: seq<Document>): seq<string> {
    if items == [] then []
    else (if items[0].Str? then [items[0].text] else []) + TextsAmong(items[1..])
  }

  /** Nothing for an entry that is no object; None when its children are no array. */
  function DependencyOf(entry: Document): Option<seq<Dependency>> {
    match ArrayAt(entry, "dependsOn")
    case None => None
    case Some(items) =>
      if !entry.Object? then Some([])
      else Some([Dependency(match Get(entry, "ref") case Some(Str(ref)) => Some(ref) case _ => None,
        TextsAmong(items))])
  }

  function Dependencies(entries: seq<Document>): Option<seq<Dependency>> {
    if entries == [] then Some([])
    else
      match (DependencyOf(entries[0]), Dependencies(entries[1..]))
      case (Some(first), Some(rest)) => Some(first + rest)
      case (_, _) => None
  }

  function DependenciesOf(doc: Document): Option<seq<Dependency>> {
    match ArrayAt(doc, "dependencies")
    case None => None
    case Some(entries) => Dependencies(entries)
  }

  /** Every reference the dependency list mentions. */
  function Mentioned(ds: seq<Dependency>): set<string> {
    (set d, c | d in ds && c in d.children :: c) + (set d | d in ds && d.parent.Some? :: d.parent.value)
  }

  function Edges(ds: seq<Dependency>): set<(string, string)> {
    set d, c | d in ds && d.parent.Some? && c in d.children :: (d.parent.value, c)
  }

  // ---- the whole normalization ----

  predicate MentionsRoot(roots: seq<Root>, s: string) {
    exists r | r in roots :: Contains(s, r.uri)
  }

  ghost predicate NoRepeats(refs: seq<string>) {
    forall i, j | 0 <= i < j < |refs| :: refs[i] != refs[j]
  }

  ghost predicate Accepted(roots: seq<Root>, normalized: Document) {
    && (forall s | s in Strings(normalized) :: !MentionsRoot(roots, s))
    && (forall s | s in Strings(normalized) :: !Contains(s, "file:///"))
    && NoRepeats(ComponentRefs(normalized))
    && DependenciesOf(normalized).Some?
    && (forall ref | ref in Mentioned(DependenciesOf(normalized).value) :: ref in ComponentRefs(normalized))
  }

  /** The normalized document, or None when it is refused. */
  ghost function Normalized(roots: seq<Root>, doc: Document): Option<Document> {
    match RenamingOf(roots, doc)
    case Err(_) => None
    case Ok(r) =>
      match PlacedDocument(r.sourcePaths, MapStrings(Replace(r.replacements), doc))
      case Err(_) => None
      case Ok(normalized) => if Accepted(roots, normalized) then Some(normalized) else None
  }

  // ---- the loops ----

  method CollectRenaming(roots: seq<Root>, metadataSource: string, components: seq<Document>)
    returns (r: Result<Renaming, NormalizationError>)
    ensures r == Collected(roots, metadataSource, components)
  {
    hide LocalComponent;
    var replacements: map<string, string> := map[];
    var sourcePaths: map<string, string> := map[];
    var i := 0;
    while i < |components|
      invariant 0 <= i <= |components|
      invariant Collected(roots, metadataSource, components[..i]) == Ok(Renaming(replacements, sourcePaths))
    {
      assert components[..i + 1][..i] == components[..i];
      match LocalComponent(roots, metadataSource, components[i]) {
        case Err(e) =>
          ErrorStays(roots, metadataSource, components, i + 1);
          return Err(e);
        case Ok(None) =>
        case Ok(Some(local)) =>
          if local.canonical in sourcePaths {
            ErrorStays(roots, metadataSource, components, i + 1);
            return Err(PurlsNotUnique);
          }
          sourcePaths := sourcePaths[local.canonical := local.sourcePath];
          replacements := replacements[local.bomRef := local.canonical][local.purl := local.canonical];
      }
      i := i + 1;
    }
    assert components[..i] == components;
    r := Ok(Renaming(replacements, sourcePaths));
  }

  lemma {:induction false} ErrorStays(roots: seq<Root>, metadataSource: string, components: seq<Document>, i: nat)
    requires i <= |components| && Collected(roots, metadataSource, components[..i]).Err?
    ensures Collected(roots, metadataSource, components) == Collected(roots, metadataSource, components[..i])
    decreases |components|
  {
    if i == |components| {
      assert components[..i] == components;
    } else {
      assert components[..|components| - 1][..i] == components[..i];
      ErrorStays(roots, metadataSource, components[..|components| - 1], i);
    }
  }

  method HasRepeats(refs: seq<string>) returns (repeats: bool)
    ensures repeats <==> !NoRepeats(refs)
  {
    var seen: set<string> := {};
    var i := 0;
    while i < |refs|
      invariant 0 <= i <= |refs|
      invariant NoRepeats(refs[..i])
      invariant forall ref :: ref in seen <==> ref in refs[..i]
    {
      if refs[i] in seen {
        var k :| 0 <= k < i && refs[..i][k] == refs[i];
        assert refs[k] == refs[i];
        return true;
      }
      seen := seen + {refs[i]};
      i := i + 1;
    }
    assert refs[..i] == refs;
    repeats := false;
  }

  method MentionedRefs(ds: seq<Dependency>) returns (refs: set<string>)
    ensures refs == Mentioned(ds)
  {
    refs := {};
    var i := 0;
    while i < |ds|
      invariant 0 <= i <= |ds|
      invariant refs == Mentioned(ds[..i])
    {
      assert ds[..i + 1] == ds[..i] + [ds[i]];
      MentionedOneMore(ds[..i], ds[i]);
      if ds[i].parent.Some? { refs := refs + {ds[i].parent.value}; }
      refs := refs + (set c | c in ds[i].children);
      i := i + 1;
    }
    assert ds[..i] == ds;
  }

  lemma MentionedOneMore(ds: seq<Dependency>, d: Dependency)
    ensures Mentioned(ds + [d])
      == Mentioned(ds) + (if d.parent.Some? then {d.parent.value} else {}) + (set c | c in d.children)
  {
  }

  /** Whether some string still names this machine. */
  method NamesThisMachine(roots: seq<Root>, texts: seq<string>) returns (found: bool)
    ensures found <==> exists s | s in texts :: MentionsRoot(roots, s) || Contains(s, "file:///")
  {
    var i := 0;
    while i < |texts|
      invariant 0 <= i <= |texts|
      invariant forall k | 0 <= k < i :: !MentionsRoot(roots, texts[k]) && !Contains(texts[k], "file:///")
    {
      if MentionsRoot(roots, texts[i]) || Contains(texts[i], "file:///") { return true; }
      i := i + 1;
    }
    found := false;
  }

  method Normalize(roots: seq<Root>, doc: Document) returns (result: Option<Document>)
    ensures result == Normalized(roots, doc)
  {
    hide Contains, MentionsRoot, ComponentRefs, DependenciesOf, PlacedDocument, Collected, Mentioned, NoRepeats;
    if !ValidRoots(roots) { return None; }
    var described := MetadataComponent(doc);
    if described.None? { return None; }
    var metadataSource := MetadataSource(described.value);
    var components := DocumentComponents(doc);
    if metadataSource.None? || components.None? { return None; }
    var renaming := CollectRenaming(roots, metadataSource.value, components.value);
    if renaming.Err? || renaming.value.replacements == map[] { return None; }
    var placed := PlacedDocument(renaming.value.sourcePaths, MapStrings(Replace(renaming.value.replacements), doc));
    if placed.Err? { return None; }
    var normalized := placed.value;
    var local := NamesThisMachine(roots, Strings(normalized));
    if local { return None; }
    var repeats := HasRepeats(ComponentRefs(normalized));
    if repeats { return None; }
    var dependencies := DependenciesOf(normalized);
    if dependencies.None? { return None; }
    var mentioned := MentionedRefs(dependencies.value);
    if exists ref | ref in mentioned :: ref !in ComponentRefs(normalized) { return None; }
    result := Some(normalized);
  }
}
