/** Checking that a CycloneDX document describes exactly the Cargo graph of the product. */
module SbomGraph {
  import opened Wrappers
  import Sets

  type Id = string

  datatype Package = Package(name: string, version: string)

  type Edge = (Package, Package)

  // ---- what Cargo reports ----

  datatype Kind = Unspecified | Named(name: string)

  datatype Dependency = Dependency(pkg: Id, kinds: seq<Kind>)

  datatype Metadata = Metadata(packages: map<Id, Package>, nodes: map<Id, seq<Dependency>>)

  datatype GraphError = RootPopulation | MissingNode | MissingPackage | AmbiguousCoordinates

  const PRODUCT := "h00ligan-product"

  /** Development dependencies do not count. */
  predicate Admitted(d: Dependency) {
    exists k | k in d.kinds :: k == Unspecified || k == Named("normal") || k == Named("build")
  }

  predicate AdmittedEdge(m: Metadata, a: Id, b: Id) {
    a in m.nodes && exists d | d in m.nodes[a] :: d.pkg == b && Admitted(d)
  }

  /** An edge counts exactly when one of the reasons for it is not development: a kind that is
      unset, normal or build. */
  lemma AdmittedEdgeIff(m: Metadata, a: Id, b: Id)
    ensures AdmittedEdge(m, a, b) <==> a in m.nodes && exists i, j ::
      && 0 <= i < |m.nodes[a]| && m.nodes[a][i].pkg == b
      && 0 <= j < |m.nodes[a][i].kinds|
      && m.nodes[a][i].kinds[j] in {Unspecified, Named("normal"), Named("build")}
  {
    if a in m.nodes {
      if i, j :| 0 <= i < |m.nodes[a]| && m.nodes[a][i].pkg == b && 0 <= j < |m.nodes[a][i].kinds|
                 && m.nodes[a][i].kinds[j] in {Unspecified, Named("normal"), Named("build")} {
        assert m.nodes[a][i] in m.nodes[a] && m.nodes[a][i].kinds[j] in m.nodes[a][i].kinds;
      }
    }
    if AdmittedEdge(m, a, b) {
      var d :| d in m.nodes[a] && d.pkg == b && Admitted(d);
      var k :| k in d.kinds && (k == Unspecified || k == Named("normal") || k == Named("build"));
      var i :| 0 <= i < |m.nodes[a]| && m.nodes[a][i] == d;
      var j :| 0 <= j < |d.kinds| && d.kinds[j] == k;
    }
  }

  ghost predicate IsPath(m: Metadata, path: seq<Id>) {
    path != [] && forall i | 0 <= i < |path| - 1 :: AdmittedEdge(m, path[i], path[i + 1])
  }

  ghost predicate Reaches(m: Metadata, root: Id, x: Id) {
    exists path :: IsPath(m, path) && path[0] == root && path[|path| - 1] == x
  }

  lemma ReachesItself(m: Metadata, root: Id)
    ensures Reaches(m, root, root)
  {
    assert IsPath(m, [root]);
  }

  lemma ReachesNext(m: Metadata, root: Id, a: Id, b: Id)
    requires Reaches(m, root, a) && AdmittedEdge(m, a, b)
    ensures Reaches(m, root, b)
  {
    var path :| IsPath(m, path) && path[0] == root && path[|path| - 1] == a;
    var longer := path + [b];
    assert IsPath(m, longer) && longer[|longer| - 1] == b;
  }

  /** A set that holds the root and everything one edge away from its members holds all that
      can be reached. */
  lemma {:induction false} ClosedContains(m: Metadata, root: Id, closed: set<Id>, path: seq<Id>)
    requires root in closed && forall a, b | a in closed && AdmittedEdge(m, a, b) :: b in closed
    requires IsPath(m, path) && path[0] == root
    ensures path[|path| - 1] in closed
  {
    if |path| > 1 {
      var front := path[..|path| - 1];
      assert IsPath(m, front);
      ClosedContains(m, root, closed, front);
      assert AdmittedEdge(m, path[|path| - 2], path[|path| - 1]);
    }
  }

  // ---- the worklist ----

  function Mentioned(m: Metadata): set<Id> {
    m.nodes.Keys + set a, d | a in m.nodes && d in m.nodes[a] :: d.pkg
  }

  /** What the loop knows: everything found is reachable, and everything already taken off the
      list has all its admitted dependencies found. */
  ghost predicate Progress(m: Metadata, root: Id, reachable: set<Id>, pending: seq<Id>) {
    && root in reachable && reachable <= Mentioned(m) + {root}
    && (forall x | x in reachable :: Reaches(m, root, x))
    && (forall x | x in pending :: x in reachable)
    && (forall a | a in reachable && a !in pending :: a in m.nodes)
    && (forall a, b | a in reachable && a !in pending && AdmittedEdge(m, a, b) :: b in reachable)
  }

  /** As `Progress`, with one package taken off the list and its first `i` dependencies done. */
  ghost predicate ProgressAt(m: Metadata, root: Id, reachable: set<Id>, pending: seq<Id>, id: Id, i: nat)
    requires id in m.nodes && i <= |m.nodes[id]|
  {
    && root in reachable && reachable <= Mentioned(m) + {root}
    && (forall x | x in reachable :: Reaches(m, root, x))
    && (forall x | x in pending :: x in reachable)
    && (forall a | a in reachable && a !in pending :: a in m.nodes)
    && (forall a, b | a in reachable && a !in pending && a != id && AdmittedEdge(m, a, b) :: b in reachable)
    && (forall k | 0 <= k < i && Admitted(m.nodes[id][k]) :: m.nodes[id][k].pkg in reachable)
  }

  ghost function Unfound(m: Metadata, root: Id, reachable: set<Id>): nat {
    |Mentioned(m) + {root} - reachable|
  }

  lemma Taken(m: Metadata, root: Id, reachable: set<Id>, pending: seq<Id>)
    requires pending != [] && Progress(m, root, reachable, pending) && pending[|pending| - 1] in m.nodes
    ensures ProgressAt(m, root, reachable, pending[..|pending| - 1], pending[|pending| - 1], 0)
    ensures pending[|pending| - 1] in reachable
  {
    hide Reaches, AdmittedEdge, Mentioned;
    assert pending == pending[..|pending| - 1] + [pending[|pending| - 1]];
  }

  lemma Passed(m: Metadata, root: Id, reachable: set<Id>, pending: seq<Id>, id: Id, i: nat)
    requires id in m.nodes && i < |m.nodes[id]| && id in reachable
    requires ProgressAt(m, root, reachable, pending, id, i)
    requires !Admitted(m.nodes[id][i]) || m.nodes[id][i].pkg in reachable
    ensures ProgressAt(m, root, reachable, pending, id, i + 1)
  {
    hide Reaches, AdmittedEdge, Mentioned, Admitted;
  }

  lemma Found(m: Metadata, root: Id, reachable: set<Id>, pending: seq<Id>, id: Id, i: nat)
    requires id in m.nodes && i < |m.nodes[id]| && id in reachable
    requires ProgressAt(m, root, reachable, pending, id, i)
    requires Admitted(m.nodes[id][i]) && m.nodes[id][i].pkg !in reachable
    ensures var b := m.nodes[id][i].pkg;
            && ProgressAt(m, root, reachable + {b}, pending + [b], id, i + 1)
            && Unfound(m, root, reachable + {b}) == Unfound(m, root, reachable) - 1
  {
    var b := m.nodes[id][i].pkg;
    assert AdmittedEdge(m, id, b);
    ReachesNext(m, root, id, b);
    assert b in Mentioned(m);
    hide Reaches, AdmittedEdge, Mentioned, Admitted;
    assert Mentioned(m) + {root} - (reachable + {b}) == (Mentioned(m) + {root} - reachable) - {b};
  }

  lemma AllPassed(m: Metadata, root: Id, reachable: set<Id>, pending: seq<Id>, id: Id)
    requires id in m.nodes && ProgressAt(m, root, reachable, pending, id, |m.nodes[id]|)
    ensures Progress(m, root, reachable, pending)
  {
    hide Reaches, Mentioned, Admitted;
    forall b | AdmittedEdge(m, id, b) ensures b in reachable {
      var d :| d in m.nodes[id] && d.pkg == b && Admitted(d);
      var k :| 0 <= k < |m.nodes[id]| && m.nodes[id][k] == d;
    }
  }

  /** Everything admitted directly below one package. */
  method Expand(m: Metadata, ghost root: Id, found: set<Id>, waiting: seq<Id>, id: Id)
    returns (reachable: set<Id>, pending: seq<Id>)
    requires id in m.nodes && id in found && ProgressAt(m, root, found, waiting, id, 0)
    ensures Progress(m, root, reachable, pending)
    ensures Unfound(m, root, reachable) + |pending| == Unfound(m, root, found) + |waiting|
  {
    hide ProgressAt, Progress, Unfound;
    reachable, pending := found, waiting;
    var i := 0;
    while i < |m.nodes[id]|
      invariant 0 <= i <= |m.nodes[id]| && id in reachable
      invariant ProgressAt(m, root, reachable, pending, id, i)
      invariant Unfound(m, root, reachable) + |pending| == Unfound(m, root, found) + |waiting|
    {
      var d := m.nodes[id][i];
      if Admitted(d) && d.pkg !in reachable {
        Found(m, root, reachable, pending, id, i);
        reachable := reachable + {d.pkg};
        pending := pending + [d.pkg];
      } else {
        Passed(m, root, reachable, pending, id, i);
      }
      i := i + 1;
    }
    AllPassed(m, root, reachable, pending, id);
  }

  /** Every package the root reaches over admitted dependencies; an error exactly when one of
      them has no node. */
  method ReachablePackages(m: Metadata, root: Id) returns (r: Result<set<Id>, GraphError>)
    ensures r.Ok? ==> forall x :: x in r.value <==> Reaches(m, root, x)
    ensures r.Ok? ==> r.value <= m.nodes.Keys
    ensures r.Err? ==> r.error == MissingNode && exists x :: Reaches(m, root, x) && x !in m.nodes
  {
    var reachable := {root};
    var pending := [root];
    Started(m, root);
    while pending != []
      invariant Progress(m, root, reachable, pending)
      decreases Unfound(m, root, reachable) + |pending|
    {
      var id := pending[|pending| - 1];
      if id !in m.nodes {
        TakenIsReachable(m, root, reachable, pending);
        return Err(MissingNode);
      }
      Taken(m, root, reachable, pending);
      hide Progress, Unfound, Reaches;
      reachable, pending := Expand(m, root, reachable, pending[..|pending| - 1], id);
    }
    Finished(m, root, reachable);
    r := Ok(reachable);
  }

  lemma TakenIsReachable(m: Metadata, root: Id, reachable: set<Id>, pending: seq<Id>)
    requires pending != [] && Progress(m, root, reachable, pending)
    ensures Reaches(m, root, pending[|pending| - 1])
  {
    assert pending[|pending| - 1] in pending;
  }

  lemma Started(m: Metadata, root: Id)
    ensures Progress(m, root, {root}, [root])
  {
    ReachesItself(m, root);
  }

  lemma Finished(m: Metadata, root: Id, reachable: set<Id>)
    requires Progress(m, root, reachable, [])
    ensures forall x :: x in reachable <==> Reaches(m, root, x)
    ensures reachable <= m.nodes.Keys
  {
    forall x | Reaches(m, root, x) ensures x in reachable {
      var path :| IsPath(m, path) && path[0] == root && path[|path| - 1] == x;
      ClosedContains(m, root, reachable, path);
    }
  }

  // ---- the Cargo graph in name/version coordinates ----

  datatype Graph = Graph(root: Package, packages: set<Package>, edges: set<Edge>)

  ghost predicate OnlyProduct(m: Metadata, root: Id) {
    root in m.packages && forall x :: x in m.packages && m.packages[x].name == PRODUCT <==> x == root
  }

  /** Every package the product needs is fully described. */
  ghost predicate Described(m: Metadata, root: Id) {
    forall x | Reaches(m, root, x) :: x in m.nodes && x in m.packages
  }

  ghost predicate IsReachable(m: Metadata, root: Id, ids: set<Id>) {
    forall x :: x in ids <==> Reaches(m, root, x)
  }

  ghost predicate DistinctCoordinates(m: Metadata, ids: set<Id>) {
    forall a, b | a in ids && b in ids && a in m.packages && b in m.packages && m.packages[a] == m.packages[b] :: a == b
  }

  /** `g` is the graph of what the product reaches, by coordinates that tell packages apart. */
  ghost predicate IsCargoGraph(m: Metadata, root: Id, reachable: set<Id>, g: Graph) {
    && OnlyProduct(m, root) && Described(m, root)
    && IsReachable(m, root, reachable)
    && reachable <= m.packages.Keys
    && DistinctCoordinates(m, reachable)
    && g.root == m.packages[root]
    && (forall p :: p in g.packages <==> p != g.root && exists x | x in reachable :: m.packages[x] == p)
    && (forall p, q :: (p, q) in g.edges <==>
         exists a, b | a in reachable && b in reachable && AdmittedEdge(m, a, b) ::
           m.packages[a] == p && m.packages[b] == q)
  }

  function Coordinates(m: Metadata, ids: set<Id>): set<Package>
    requires ids <= m.packages.Keys
  {
    set x | x in ids :: m.packages[x]
  }

  lemma {:induction false} ImageSize(m: Metadata, ids: set<Id>)
    requires ids <= m.packages.Keys
    ensures |Coordinates(m, ids)| <= |ids|
    ensures |Coordinates(m, ids)| == |ids| <==> DistinctCoordinates(m, ids)
  {
    if ids != {} {
      var a := Sets.Pick(ids);
      var rest := ids - {a};
      ImageSize(m, rest);
      var image, smaller := Coordinates(m, ids), Coordinates(m, rest);
      assert image == smaller + {m.packages[a]};
      if m.packages[a] in smaller {
        var b :| b in rest && m.packages[b] == m.packages[a];
        assert image == smaller;
      }
    } else {
      Sets.NoElements(Coordinates(m, ids));
    }
  }

  /** The products named in the metadata. */
  function Products(m: Metadata): set<Id> {
    set x | x in m.packages && m.packages[x].name == PRODUCT
  }

  /** The graph of what the one product reaches, or the cause why there is none. */
  method CargoDependencyGraph(m: Metadata) returns (r: Result<Graph, GraphError>)
    ensures r.Ok? ==> exists root, reachable :: IsCargoGraph(m, root, reachable, r.value)
    ensures r.Err? ==>
      || (r.error == RootPopulation && |Products(m)| != 1)
      || ((r.error == MissingNode || r.error == MissingPackage) && exists root ::
         OnlyProduct(m, root) && !Described(m, root))
      || (r.error == AmbiguousCoordinates && exists root, reachable ::
            OnlyProduct(m, root) && IsReachable(m, root, reachable) && !DistinctCoordinates(m, reachable))
  {
    var roots := Products(m);
    if |roots| != 1 { return Err(RootPopulation); }
    var rootId :| rootId in roots;
    OneProduct(m, rootId);
    hide Reaches, Products;
    var found := ReachablePackages(m, rootId);
    if found.Err? { return Err(MissingNode); }
    var ids := found.value;
    assert IsReachable(m, rootId, ids);
    if !(ids <= m.packages.Keys) { return Err(MissingPackage); }
    ReachesItself(m, rootId);
    ImageSize(m, ids);
    var coordinates := Coordinates(m, ids);
    if |coordinates| != |ids| { return Err(AmbiguousCoordinates); }
    var edges := set a, d | a in ids && d in m.nodes[a] && Admitted(d) && d.pkg in ids ::
      (m.packages[a], m.packages[d.pkg]);
    r := Ok(Graph(m.packages[rootId], coordinates - {m.packages[rootId]}, edges));
    assert IsCargoGraph(m, rootId, ids, r.value) by { EdgesAreImages(m, ids, edges); }
  }

  lemma OneProduct(m: Metadata, root: Id)
    requires root in Products(m) && |Products(m)| == 1
    ensures OnlyProduct(m, root)
  {
    assert Products(m) == {root} by {
      assert |Products(m) - {root}| == 0;
      assert Products(m) - {root} == {};
    }
    forall x ensures x in m.packages && m.packages[x].name == PRODUCT <==> x == root {
      assert x in Products(m) <==> x == root;
    }
  }

  lemma EdgesAreImages(m: Metadata, ids: set<Id>, edges: set<Edge>)
    requires ids <= m.packages.Keys && ids <= m.nodes.Keys
    requires edges == set a, d | a in ids && d in m.nodes[a] && Admitted(d) && d.pkg in ids ::
      (m.packages[a], m.packages[d.pkg])
    ensures forall p, q :: (p, q) in edges <==>
      exists a, b | a in ids && b in ids && AdmittedEdge(m, a, b) :: m.packages[a] == p && m.packages[b] == q
  {
    hide Admitted;
  }

  // ---- the graph of a document ----

  /** An empty text stands for one that is missing or no string. */
  datatype Component = NoObject | Component(reference: string, name: string, version: string)

  datatype Entry = NoEntry | Entry(ref: string, children: seq<string>)

  datatype Document = Document(root: Component, others: seq<Component>, dependencies: seq<Entry>)

  datatype Failure =
    | NonObject
    | Incomplete
    | RepeatedReference
    | DuplicateCoordinates
    | InvalidDependency
    | RepeatedNode
    | UnknownParent
    | UnknownChild
    | NodePopulation
    | RootDiffers
    | PackageOmitted
    | PackageExtra
    | EdgeOmitted
    | EdgeExtra

  function Components(doc: Document): seq<Component> {
    [doc.root] + doc.others
  }

  predicate Complete(c: Component) {
    c.Component? && c.reference != "" && c.name != "" && c.version != ""
  }

  function ReferenceOf(c: Component): string {
    if c.Component? then c.reference else ""
  }

  function CoordinateOf(c: Component): Package {
    if c.Component? then Package(c.name, c.version) else Package("", "")
  }

  /** Complete components, with no reference and no coordinate twice. */
  ghost predicate WellNamed(cs: seq<Component>) {
    && (forall c | c in cs :: Complete(c))
    && (forall i, j | 0 <= i < j < |cs| ::
       ReferenceOf(cs[i]) != ReferenceOf(cs[j]) && CoordinateOf(cs[i]) != CoordinateOf(cs[j]))
  }

  /** One entry per component, naming components only. */
  ghost predicate WellLinked(cs: seq<Component>, entries: seq<Entry>)
    requires forall c | c in cs :: Complete(c)
  {
    && (forall e | e in entries ::
          e.Entry? && Known(cs, e.ref) && forall child | child in e.children :: Known(cs, child))
    && (forall i, j | 0 <= i < j < |entries| ::
          entries[i].Entry? && entries[j].Entry? ==> entries[i].ref != entries[j].ref)
    && (forall c | c in cs :: exists e | e in entries :: e.Entry? && e.ref == c.reference)
  }

  predicate Known(cs: seq<Component>, reference: string) {
    exists c | c in cs :: Complete(c) && c.reference == reference
  }

  ghost predicate WellFormed(doc: Document) {
    WellNamed(Components(doc)) && WellLinked(Components(doc), doc.dependencies)
  }

  /** A reference, a name and a version, none of them empty. */
  ghost predicate NamedInFull(c: Component) {
    c.Component? && |c.reference| > 0 && |c.name| > 0 && |c.version| > 0
  }

  /** Components are well named exactly when each is named in full and no two share a reference or
      both name and version. */
  lemma WellNamedFields(cs: seq<Component>)
    ensures WellNamed(cs) <==>
      && (forall i | 0 <= i < |cs| :: NamedInFull(cs[i]))
      && (forall i, j | 0 <= i < j < |cs| ::
           cs[i].reference != cs[j].reference && (cs[i].name != cs[j].name || cs[i].version != cs[j].version))
  {
    forall c: Component ensures Complete(c) <==> NamedInFull(c) { CompleteFields(c); }
    hide Complete, NamedInFull;
    if forall i | 0 <= i < |cs| :: NamedInFull(cs[i]) {
      forall i | 0 <= i < |cs| ensures cs[i].Component? { CompleteFields(cs[i]); }
    }
  }

  lemma CompleteFields(c: Component)
    ensures Complete(c) <==> NamedInFull(c)
    ensures NamedInFull(c) ==> c.Component?
  {
  }

  ghost predicate Carried(cs: seq<Component>, ref: string) {
    exists i | 0 <= i < |cs| :: cs[i].Component? && cs[i].reference == ref
  }

  ghost predicate HasEntry(entries: seq<Entry>, ref: string) {
    exists k | 0 <= k < |entries| :: entries[k].Entry? && entries[k].ref == ref
  }

  /** Entries are well linked exactly when each names components only, no two the same, and there is
      one for each. */
  lemma WellLinkedFields(cs: seq<Component>, entries: seq<Entry>)
    requires forall i | 0 <= i < |cs| :: cs[i].Component? && NamedInFull(cs[i])
    ensures forall c | c in cs :: Complete(c)
    ensures WellLinked(cs, entries) <==>
      && (forall k | 0 <= k < |entries| ::
           && entries[k].Entry? && Carried(cs, entries[k].ref)
           && forall child | child in entries[k].children :: Carried(cs, child))
      && (forall i, j | 0 <= i < j < |entries| :: entries[i].ref != entries[j].ref)
      && (forall i | 0 <= i < |cs| :: HasEntry(entries, cs[i].reference))
  {
    hide Known, Complete, NamedInFull, WellLinked, Carried, HasEntry;
    forall i | 0 <= i < |cs| ensures Complete(cs[i]) { CompleteFields(cs[i]); }
    forall ref ensures Known(cs, ref) <==> Carried(cs, ref) { KnownFields(cs, ref); }
    LinkedByIndex(cs, entries);
  }

  lemma LinkedByIndex(cs: seq<Component>, entries: seq<Entry>)
    requires forall c | c in cs :: c.Component? && Complete(c)
    ensures WellLinked(cs, entries) <==>
      && (forall k | 0 <= k < |entries| ::
           && entries[k].Entry? && Known(cs, entries[k].ref)
           && forall child | child in entries[k].children :: Known(cs, child))
      && (forall i, j | 0 <= i < j < |entries| :: entries[i].ref != entries[j].ref)
      && (forall i | 0 <= i < |cs| :: HasEntry(entries, cs[i].reference))
  {
    hide Known, Complete, HasEntry;
    forall c | c in cs ensures c.Component? { CompleteFields(c); }
    forall c | c in cs
      ensures (exists e | e in entries :: e.Entry? && e.ref == c.reference) <==> HasEntry(entries, c.reference)
    {
      EntryFor(entries, c.reference);
    }
    assert (forall c | c in cs :: HasEntry(entries, c.reference)) <==>
      forall i | 0 <= i < |cs| :: HasEntry(entries, cs[i].reference);
    assert (forall e | e in entries :: e.Entry?) <==> forall k | 0 <= k < |entries| :: entries[k].Entry?;
  }

  lemma EntryFor(entries: seq<Entry>, ref: string)
    ensures (exists e | e in entries :: e.Entry? && e.ref == ref) <==> HasEntry(entries, ref)
  {
    if k :| 0 <= k < |entries| && entries[k].Entry? && entries[k].ref == ref { assert entries[k] in entries; }
    if e :| e in entries && e.Entry? && e.ref == ref {
      var k :| 0 <= k < |entries| && entries[k] == e;
    }
  }

  lemma KnownFields(cs: seq<Component>, ref: string)
    requires forall i | 0 <= i < |cs| :: cs[i].Component? && Complete(cs[i])
    ensures Known(cs, ref) <==> Carried(cs, ref)
  {
    if i :| 0 <= i < |cs| && cs[i].reference == ref { assert cs[i] in cs; }
  }

  /** One component lists another among its children. */
  ghost predicate Lists(doc: Document, parent: Component, child: Component)
    requires Complete(parent) && Complete(child)
  {
    exists e | e in doc.dependencies :: e.Entry? && e.ref == parent.reference && child.reference in e.children
  }

  ghost predicate IsDocumentGraph(doc: Document, g: Graph) {
    var cs := Components(doc);
    && (forall c | c in cs :: Complete(c))
    && g.root == CoordinateOf(doc.root)
    && (forall p :: p in g.packages <==> p != g.root && exists c | c in cs :: CoordinateOf(c) == p)
    && (forall p, q :: (p, q) in g.edges <==>
         exists c, d | c in cs && d in cs && Lists(doc, c, d) :: CoordinateOf(c) == p && CoordinateOf(d) == q)
  }

  // ---- comparing the two ----

  method ValidateExactGraph(expected: Graph, actual: Graph) returns (failures: seq<Failure>)
    ensures failures == [] <==> actual == expected
    ensures RootDiffers in failures <==> actual.root != expected.root
    ensures PackageOmitted in failures <==> !(expected.packages <= actual.packages)
    ensures PackageExtra in failures <==> !(actual.packages <= expected.packages)
    ensures EdgeOmitted in failures <==> !(expected.edges <= actual.edges)
    ensures EdgeExtra in failures <==> !(actual.edges <= expected.edges)
  {
    NothingLeft(expected.packages, actual.packages);
    NothingLeft(actual.packages, expected.packages);
    NothingLeft(expected.edges, actual.edges);
    NothingLeft(actual.edges, expected.edges);
    failures := [];
    if actual.root != expected.root { failures := failures + [RootDiffers]; }
    if expected.packages - actual.packages != {} { failures := failures + [PackageOmitted]; }
    if actual.packages - expected.packages != {} { failures := failures + [PackageExtra]; }
    if expected.edges - actual.edges != {} { failures := failures + [EdgeOmitted]; }
    if actual.edges - expected.edges != {} { failures := failures + [EdgeExtra]; }
  }

  lemma NothingLeft<T>(a: set<T>, b: set<T>)
    ensures a - b == {} <==> a <= b
  {
    if a - b == {} {
      forall x | x in a ensures x in b { assert x !in a - b; }
    }
  }

  /** An accepted document is the Cargo graph: its components stand one to one for the packages
      the product reaches, and one lists another exactly when the package depends on it. */
  lemma AcceptedDocumentIsTheCargoGraph(m: Metadata, root: Id, reachable: set<Id>, doc: Document, g: Graph)
    requires IsCargoGraph(m, root, reachable, g) && WellFormed(doc) && IsDocumentGraph(doc, g)
    ensures forall x | x in reachable :: exists c :: StandsFor(doc, m, c, x)
    ensures forall c | c == doc.root || c in doc.others :: exists x | x in reachable :: StandsFor(doc, m, c, x)
    ensures forall c, d, x, y | x in reachable && y in reachable && StandsFor(doc, m, c, x) &&
      StandsFor(doc, m, d, y) :: AdmittedEdge(m, x, y) <==> Below(doc, c, d)
    ensures root in reachable && StandsFor(doc, m, doc.root, root) && m.packages[root].name == "h00ligan-product"
  {
    hide Reaches, AdmittedEdge, Components, WellLinked, WellNamed, CoordinateOf, Lists, IsCargoGraph, IsDocumentGraph;
    hide StandsFor, Below;
    KnownPackages(m, root, reachable, g);
    forall x | x in reachable ensures exists c :: StandsFor(doc, m, c, x) {
      var c := ComponentOf(m, root, reachable, doc, g, x);
      StandsIff(doc, m, c, x);
    }
    forall c | c == doc.root || c in doc.others ensures exists x | x in reachable :: StandsFor(doc, m, c, x) {
      ComponentIff(doc, c);
      var x := PackageOf(m, root, reachable, doc, g, c);
      StandsIff(doc, m, c, x);
    }
    forall c, d, x, y | x in reachable && y in reachable && StandsFor(doc, m, c, x) && StandsFor(doc, m, d, y)
      ensures AdmittedEdge(m, x, y) <==> Below(doc, c, d)
    {
      StandsIff(doc, m, c, x);
      StandsIff(doc, m, d, y);
      WellFormedComponent(doc, c);
      WellFormedComponent(doc, d);
      ListsIff(doc, c, d);
      SameEdge(m, root, reachable, doc, g, c, d, x, y);
    }
    RootStands(m, root, reachable, doc, g);
    StandsIff(doc, m, doc.root, root);
  }

  /** A component of the document that carries the package's name and version. */
  ghost predicate StandsFor(doc: Document, m: Metadata, c: Component, x: Id) {
    && (c == doc.root || c in doc.others) && c.Component?
    && x in m.packages && c.name == m.packages[x].name && c.version == m.packages[x].version
  }

  /** An entry lists the one component below the other. */
  ghost predicate Below(doc: Document, c: Component, d: Component) {
    c.Component? && d.Component? &&
      exists e | e in doc.dependencies :: e.Entry? && e.ref == c.reference && d.reference in e.children
  }

  lemma ComponentIff(doc: Document, c: Component)
    ensures c == doc.root || c in doc.others <==> c in Components(doc)
  {
  }

  lemma StandsIff(doc: Document, m: Metadata, c: Component, x: Id)
    requires WellFormed(doc) && x in m.packages
    ensures StandsFor(doc, m, c, x) <==> c in Components(doc) && CoordinateOf(c) == m.packages[x]
  {
    hide WellLinked, Components, WellNamed;
    ComponentIff(doc, c);
    if c in Components(doc) { WellFormedComponent(doc, c); }
  }

  lemma WellFormedComponent(doc: Document, c: Component)
    requires WellFormed(doc) && c in Components(doc)
    ensures Complete(c)
  {
  }

  lemma ListsIff(doc: Document, c: Component, d: Component)
    requires Complete(c) && Complete(d)
    ensures Lists(doc, c, d) <==> Below(doc, c, d)
  {
  }

  lemma KnownPackages(m: Metadata, root: Id, reachable: set<Id>, g: Graph)
    requires IsCargoGraph(m, root, reachable, g)
    ensures reachable <= m.packages.Keys && root in m.packages && m.packages[root].name == "h00ligan-product"
  {
  }

  lemma RootStands(m: Metadata, root: Id, reachable: set<Id>, doc: Document, g: Graph)
    requires IsCargoGraph(m, root, reachable, g) && IsDocumentGraph(doc, g)
    ensures root in reachable && doc.root in Components(doc) && CoordinateOf(doc.root) == m.packages[root]
  {
    ReachesItself(m, root);
    RootIsComponent(doc);
    hide Reaches, Components;
  }

  lemma ComponentOf(m: Metadata, root: Id, reachable: set<Id>, doc: Document, g: Graph, x: Id) returns (c: Component)
    requires IsCargoGraph(m, root, reachable, g) && IsDocumentGraph(doc, g) && x in reachable
    ensures c in Components(doc) && CoordinateOf(c) == m.packages[x]
  {
    hide Reaches, Lists, AdmittedEdge, Components;
    if m.packages[x] == g.root {
      c := doc.root;
      RootIsComponent(doc);
    } else {
      assert m.packages[x] in g.packages;
      c :| c in Components(doc) && CoordinateOf(c) == m.packages[x];
    }
  }

  lemma PackageOf(m: Metadata, root: Id, reachable: set<Id>, doc: Document, g: Graph, c: Component) returns (x: Id)
    requires IsCargoGraph(m, root, reachable, g) && IsDocumentGraph(doc, g) && c in Components(doc)
    ensures x in reachable && m.packages[x] == CoordinateOf(c)
  {
    ReachesItself(m, root);
    hide Reaches, Lists, AdmittedEdge, Components;
    if CoordinateOf(c) == g.root {
      x := root;
    } else {
      assert CoordinateOf(c) in g.packages;
      x :| x in reachable && m.packages[x] == CoordinateOf(c);
    }
  }

  lemma RootIsComponent(doc: Document)
    ensures doc.root in Components(doc)
  {
    assert Components(doc)[0] == doc.root;
  }

  lemma SameEdge(
    m: Metadata, root: Id, reachable: set<Id>, doc: Document, g: Graph, c: Component, d: Component, x: Id, y: Id)
    requires IsCargoGraph(m, root, reachable, g) && WellNamed(Components(doc)) && IsDocumentGraph(doc, g)
    requires c in Components(doc) && d in Components(doc) && x in reachable && y in reachable
    requires CoordinateOf(c) == m.packages[x] && CoordinateOf(d) == m.packages[y]
    ensures Lists(doc, c, d) <==> AdmittedEdge(m, x, y)
  {
    hide Reaches, Lists, AdmittedEdge, Components;
    var p, q := CoordinateOf(c), CoordinateOf(d);
    if (p, q) in g.edges {
      var a, b :| a in reachable && b in reachable && AdmittedEdge(m, a, b) && m.packages[a] == p && m.packages[b] == q;
      assert a == x && b == y;
      var e, f :| e in Components(doc) && f in Components(doc) && Lists(doc, e, f) && CoordinateOf(e) == p
        && CoordinateOf(f) == q;
      SameComponent(doc, c, e);
      SameComponent(doc, d, f);
    }
  }

  lemma SameComponent(doc: Document, c: Component, d: Component)
    requires WellNamed(Components(doc)) && c in Components(doc) && d in Components(doc)
      && CoordinateOf(c) == CoordinateOf(d)
    ensures c == d
  {
    hide Components;
    var cs := Components(doc);
    var i :| 0 <= i < |cs| && cs[i] == c;
    var j :| 0 <= j < |cs| && cs[j] == d;
    assert i == j;
  }

  // ---- the loops over a document ----

  /** The components seen so far, when nothing was wrong with them. */
  ghost predicate Indexed(cs: seq<Component>, references: map<string, Package>, coordinates: seq<Package>) {
    && (forall c | c in cs :: Complete(c))
    && (forall i, j | 0 <= i < j < |cs| :: ReferenceOf(cs[i]) != ReferenceOf(cs[j]))
    && (forall ref :: ref in references <==> Known(cs, ref))
    && (forall c | c in cs :: c.reference in references && references[c.reference] == CoordinateOf(c))
    && |coordinates| == |cs| && forall i | 0 <= i < |cs| :: coordinates[i] == CoordinateOf(cs[i])
  }

  ghost predicate DistinctReferences(cs: seq<Component>) {
    && (forall c | c in cs :: Complete(c))
    && (forall i, j | 0 <= i < j < |cs| :: ReferenceOf(cs[i]) != ReferenceOf(cs[j]))
  }

  lemma IndexedNext(cs: seq<Component>, c: Component, references: map<string, Package>, coordinates: seq<Package>)
    requires Indexed(cs, references, coordinates) && Complete(c)
    ensures c.reference in references ==> !DistinctReferences(cs + [c])
    ensures c.reference !in references ==>
      Indexed(cs + [c], references[c.reference := CoordinateOf(c)], coordinates + [CoordinateOf(c)])
  {
    var more := cs + [c];
    assert more[|cs|] == c;
    if c.reference in references {
      var d :| d in cs && Complete(d) && d.reference == c.reference;
      var i :| 0 <= i < |cs| && cs[i] == d;
      assert more[i] == d;
    } else {
      forall ref ensures ref in references[c.reference := CoordinateOf(c)] <==> Known(more, ref) {
        if Known(cs, ref) {
          var d :| d in cs && Complete(d) && d.reference == ref;
          assert d in more;
        }
        if ref == c.reference { assert c in more; }
      }
    }
  }

  lemma BadPrefix(cs: seq<Component>, i: nat)
    requires i <= |cs| && !DistinctReferences(cs[..i])
    ensures !DistinctReferences(cs)
  {
    if DistinctReferences(cs) {
      forall c | c in cs[..i] ensures Complete(c) { assert c in cs; }
      assert DistinctReferences(cs[..i]);
    }
  }

  /** Every component filed under its reference; failures exactly when one is incomplete or a
      reference or coordinate comes twice. */
  method IndexComponents(
    cs: seq<Component>) returns (references: map<string, Package>, coordinates: seq<Package>, failures: seq<Failure>)
    ensures failures == [] <==> WellNamed(cs)
    ensures failures == [] ==> Indexed(cs, references, coordinates)
  {
    hide Listed, NoneRepeats, WellNamed;
    references, coordinates, failures := map[], [], [];
    var i := 0;
    while i < |cs|
      invariant 0 <= i <= |cs|
      invariant failures == [] ==> Indexed(cs[..i], references, coordinates)
      invariant failures != [] ==> !DistinctReferences(cs)
    {
      var c := cs[i];
      assert c in cs && cs[..i + 1] == cs[..i] + [c];
      IncompleteOne(cs, c);
      hide Indexed, DistinctReferences, Known;
      if !c.Component? {
        failures := failures + [NonObject];
      } else if !Complete(c) {
        failures := failures + [Incomplete];
      } else {
        if failures == [] { IndexedNext(cs[..i], c, references, coordinates); }
        if c.reference in references {
          if failures == [] { BadPrefix(cs, i + 1); }
          failures := failures + [RepeatedReference];
        } else {
          references := references[c.reference := CoordinateOf(c)];
          coordinates := coordinates + [CoordinateOf(c)];
        }
      }
      i := i + 1;
    }
    assert cs[..i] == cs;
    var distinct := |Listed(coordinates)| == |coordinates|;
    DistinctCount(coordinates);
    WellNamedIff(cs, references, coordinates);
    hide Indexed, DistinctReferences;
    if !distinct { failures := failures + [DuplicateCoordinates]; }
  }

  lemma IncompleteOne(cs: seq<Component>, c: Component)
    requires c in cs
    ensures !Complete(c) ==> !DistinctReferences(cs)
  {
  }

  lemma WellNamedIff(cs: seq<Component>, references: map<string, Package>, coordinates: seq<Package>)
    ensures Indexed(cs, references, coordinates) ==> (WellNamed(cs) <==> NoneRepeats(coordinates))
    ensures WellNamed(cs) ==> DistinctReferences(cs)
  {
    hide Known;
  }

  function Listed(s: seq<Package>): set<Package> {
    set p | p in s
  }

  ghost predicate NoneRepeats(s: seq<Package>) {
    forall i, j | 0 <= i < j < |s| :: s[i] != s[j]
  }

  /** A list is as long as the set of its elements exactly when none repeats. */
  lemma {:induction false} DistinctCount(s: seq<Package>)
    ensures |Listed(s)| == |s| <==> NoneRepeats(s)
    ensures |Listed(s)| <= |s|
  {
    if s != [] {
      var n := |s| - 1;
      DistinctCount(s[..n]);
      ListedSnoc(s[..n], s[n]);
      DistinctSnoc(s[..n], s[n]);
      hide NoneRepeats, Listed;
      assert s == s[..n] + [s[n]];
    }
  }

  lemma ListedSnoc(s: seq<Package>, p: Package)
    ensures |Listed(s + [p])| == |Listed(s)| + if p in s then 0 else 1
  {
    assert Listed(s + [p]) == Listed(s) + {p};
    if p in s { assert Listed(s) + {p} == Listed(s); }
  }

  lemma DistinctSnoc(s: seq<Package>, p: Package)
    ensures NoneRepeats(s + [p]) <==> p !in s && NoneRepeats(s)
  {
    var t := s + [p];
    assert forall i | 0 <= i < |s| :: t[i] == s[i];
    assert t[|s|] == p;
  }

  /** The edges between known references. */
  function EdgesOf(references: map<string, Package>, entries: seq<Entry>): set<Edge> {
    set e, child | e in entries && e.Entry? && e.ref in references && child in e.children && child in references ::
      (references[e.ref], references[child])
  }

  function NodesOf(entries: seq<Entry>): set<string> {
    set e | e in entries && e.Entry? :: e.ref
  }

  predicate EntryKnown(references: map<string, Package>, e: Entry) {
    e.Entry? && e.ref in references && forall child | child in e.children :: child in references
  }

  ghost predicate DistinctNodes(entries: seq<Entry>) {
    forall i, j | 0 <= i < j < |entries| :: entries[i].Entry? && entries[j].Entry? ==> entries[i].ref != entries[j].ref
  }

  lemma EdgesNext(references: map<string, Package>, entries: seq<Entry>, e: Entry)
    ensures NodesOf(entries + [e]) == NodesOf(entries) + if e.Entry? then {e.ref} else {}
    ensures EdgesOf(references, entries + [e]) == EdgesOf(references, entries) + EdgesOf(references, [e])
  {
  }

  lemma NodesNext(entries: seq<Entry>, e: Entry)
    requires DistinctNodes(entries)
    ensures DistinctNodes(entries + [e]) <==> e.NoEntry? || e.ref !in NodesOf(entries)
  {
    var more := entries + [e];
    if e.Entry? && e.ref in NodesOf(entries) {
      var d :| d in entries && d.Entry? && d.ref == e.ref;
      var k :| 0 <= k < |entries| && entries[k] == d;
      assert more[k] == d && more[|entries|] == e;
    }
  }

  /** The children of one entry whose parent is known. */
  method CollectChildren(references: map<string, Package>, e: Entry) returns (edges: set<Edge>, unknown: bool)
    requires e.Entry? && e.ref in references
    ensures edges == EdgesOf(references, [e])
    ensures unknown <==> !EntryKnown(references, e)
  {
    edges, unknown := {}, false;
    var i := 0;
    while i < |e.children|
      invariant 0 <= i <= |e.children|
      invariant edges == set k | 0 <= k < i && e.children[k] in references ::
        (references[e.ref], references[e.children[k]])
      invariant unknown <==> exists k | 0 <= k < i :: e.children[k] !in references
    {
      if e.children[i] in references {
        edges := edges + {(references[e.ref], references[e.children[i]])};
      } else {
        unknown := true;
      }
      i := i + 1;
    }
  }

  /** The edges of the dependency list; failures exactly when an entry is invalid, repeated or
      names something unknown, or when entries and components do not match up. */
  method CollectEdges(
    references: map<string, Package>, entries: seq<Entry>) returns (edges: set<Edge>, failures: seq<Failure>)
    ensures edges == EdgesOf(references, entries)
    ensures failures == [] <==>
      && (forall e | e in entries :: EntryKnown(references, e)) && DistinctNodes(entries)
         && NodesOf(entries) == references.Keys
  {
    var nodes: set<string> := {};
    edges, failures := {}, [];
    ghost var distinct := true;
    var i := 0;
    while i < |entries|
      invariant 0 <= i <= |entries|
      invariant edges == EdgesOf(references, entries[..i]) && nodes == NodesOf(entries[..i])
      invariant failures == []
        <==> (forall k | 0 <= k < i :: EntryKnown(references, entries[k])) && DistinctNodes(entries[..i])
    {
      var e := entries[i];
      assert entries[..i + 1] == entries[..i] + [e];
      EdgesNext(references, entries[..i], e);
      if DistinctNodes(entries[..i]) { NodesNext(entries[..i], e); } else { StillRepeated(entries[..i], e); }
      hide DistinctNodes, NodesOf;
      if !e.Entry? {
        failures := failures + [InvalidDependency];
      } else {
        if e.ref in nodes { failures := failures + [RepeatedNode]; }
        nodes := nodes + {e.ref};
        if e.ref !in references {
          failures := failures + [UnknownParent];
        } else {
          var more, unknown := CollectChildren(references, e);
          edges := edges + more;
          if unknown { failures := failures + [UnknownChild]; }
        }
      }
      i := i + 1;
    }
    assert entries[..i] == entries;
    if nodes != references.Keys { failures := failures + [NodePopulation]; }
  }

  lemma StillRepeated(entries: seq<Entry>, e: Entry)
    requires !DistinctNodes(entries)
    ensures !DistinctNodes(entries + [e])
  {
    var i, j :| 0 <= i < j < |entries| && entries[i].Entry? && entries[j].Entry? && entries[i].ref == entries[j].ref;
    assert (entries + [e])[i] == entries[i] && (entries + [e])[j] == entries[j];
  }

  /** The document's graph, with no failure exactly when the document is well-formed. */
  method SbomDependencyGraph(doc: Document) returns (g: Graph, failures: seq<Failure>)
    ensures failures == [] <==> WellFormed(doc)
    ensures failures == [] ==> IsDocumentGraph(doc, g)
  {
    var cs := Components(doc);
    var references, coordinates, misnamed := IndexComponents(cs);
    var edges, mislinked := CollectEdges(references, doc.dependencies);
    var root := CoordinateOf(doc.root);
    g := Graph(root, Listed(coordinates) - {root}, edges);
    failures := misnamed + mislinked;
    if misnamed == [] {
      LinkedByReferences(cs, references, coordinates, doc.dependencies);
      DocumentEdges(doc, references, coordinates, edges);
      hide Indexed, EdgesOf, WellLinked, WellNamed, Lists;
      CoordinateSet(cs, references, coordinates);
    }
  }

  lemma CoordinateSet(cs: seq<Component>, references: map<string, Package>, coordinates: seq<Package>)
    requires Indexed(cs, references, coordinates)
    ensures forall c | c in cs :: Complete(c)
    ensures forall p :: p in coordinates <==> exists c | c in cs :: CoordinateOf(c) == p
  {
    forall p | exists c | c in cs :: CoordinateOf(c) == p ensures p in coordinates {
      var c :| c in cs && CoordinateOf(c) == p;
      var i :| 0 <= i < |cs| && cs[i] == c;
      assert coordinates[i] == p;
    }
    forall p | p in coordinates ensures exists c | c in cs :: CoordinateOf(c) == p {
      var i :| 0 <= i < |coordinates| && coordinates[i] == p;
      assert cs[i] in cs;
    }
  }

  lemma LinkedByReferences(
    cs: seq<Component>, references: map<string, Package>, coordinates: seq<Package>, entries: seq<Entry>)
    requires Indexed(cs, references, coordinates)
    ensures WellLinked(cs, entries) <==>
      && (forall e | e in entries :: EntryKnown(references, e)) && DistinctNodes(entries)
         && NodesOf(entries) == references.Keys
  {
    assert forall e | e in entries ::
      EntryKnown(references, e) <==>
        e.Entry? && Known(cs, e.ref) && forall child | child in e.children :: Known(cs, child);
    hide EntryKnown;
    if (forall e | e in entries :: e.Entry? && Known(cs, e.ref)) {
      assert NodesOf(entries) <= references.Keys;
      if forall c | c in cs :: exists e | e in entries :: e.Entry? && e.ref == c.reference {
        forall ref | ref in references ensures ref in NodesOf(entries) {
          assert Known(cs, ref);
          var c :| c in cs && Complete(c) && c.reference == ref;
        }
      }
      if NodesOf(entries) == references.Keys {
        forall c | c in cs ensures exists e | e in entries :: e.Entry? && e.ref == c.reference {
          assert c.reference in NodesOf(entries);
        }
      }
    }
  }

  lemma DocumentEdges(doc: Document, references: map<string, Package>, coordinates: seq<Package>, edges: set<Edge>)
    requires Indexed(Components(doc), references, coordinates) && edges == EdgesOf(references, doc.dependencies)
    ensures forall p, q :: (p, q) in edges <==>
      exists c, d | c in Components(doc) && d in Components(doc) && Lists(doc, c, d) ::
        CoordinateOf(c) == p && CoordinateOf(d) == q
  {
    hide Components;
    var cs := Components(doc);
    forall p, q | (p, q) in edges
      ensures exists c, d | c in cs && d in cs && Lists(doc, c, d) :: CoordinateOf(c) == p && CoordinateOf(d) == q
    {
      var e, child :| e in doc.dependencies && e.Entry? && e.ref in references && child in e.children
        && child in references
        && references[e.ref] == p && references[child] == q;
      assert Known(cs, e.ref) && Known(cs, child);
      var c :| c in cs && Complete(c) && c.reference == e.ref;
      var d :| d in cs && Complete(d) && d.reference == child;
      assert Lists(doc, c, d);
    }
    forall c, d | c in cs && d in cs && Lists(doc, c, d) ensures (CoordinateOf(c), CoordinateOf(d)) in edges {
      var e :| e in doc.dependencies && e.Entry? && e.ref == c.reference && d.reference in e.children;
      assert references[e.ref] == CoordinateOf(c) && references[d.reference] == CoordinateOf(d);
    }
  }
}
