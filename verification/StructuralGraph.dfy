/** The published graph as change-impact traversal sees it, and what reverse structural
    distance means in it. */
module StructuralGraph {
  import opened Wrappers
  import opened Bytes
  import Sorting

  type Text = seq<byte>
  type NodeId = int

  datatype EdgeKind =
    | Calls | Implements | Contains | References | DependsOn
    | Extends | TypeOf | FieldOf | HasImpl | RelatedTo

  datatype ImpactKind = Reference | TypeUse | Implementation | Inheritance

  datatype Reachability =
    | Wired | PublicApi | Structural | TestOnly | Dead
    | Orphan | Unclassified | Suspected | Excluded

  datatype GraphNode = GraphNode(filePath: Text, symbolName: Text, reachability: Reachability)

  datatype Neighbor = Neighbor(source: NodeId, kind: EdgeKind)

  /** `incoming` lists the edges into a node in whatever order the store holds them;
      nothing says that a listed source is itself a node. */
  datatype Graph = Graph(nodes: map<NodeId, GraphNode>, incoming: map<NodeId, seq<Neighbor>>)

  function IncomingNeighbors(g: Graph, id: NodeId): seq<Neighbor> {
    if id in g.incoming then g.incoming[id] else []
  }

  // ---- structural edges ----

  /** What an edge kind proves about impact; navigation-only and call edges prove nothing. */
  function StructuralImpactKind(kind: EdgeKind): Option<ImpactKind> {
    match kind
    case References => Some(Reference)
    case TypeOf => Some(TypeUse)
    case FieldOf => Some(TypeUse)
    case Implements => Some(Implementation)
    case Extends => Some(Inheritance)
    case _ => None
  }

  datatype Dependent = Dependent(id: NodeId, kind: ImpactKind)

  function ProjectDependents(edges: seq<Neighbor>): (r: seq<Dependent>) {
    if edges == [] then []
    else
      var rest := ProjectDependents(edges[1..]);
      match StructuralImpactKind(edges[0].kind)
      case Some(kind) => [Dependent(edges[0].source, kind)] + rest
      case None => rest
  }

  /** The structural edges into a node, in the order the store lists them. */
  function StructuralDependents(g: Graph, id: NodeId): seq<Dependent> {
    ProjectDependents(IncomingNeighbors(g, id))
  }

  /** `dependent` reaches `dependency` over one structural edge of kind `kind`. */
  predicate StructuralEdge(g: Graph, dependent: NodeId, dependency: NodeId, kind: ImpactKind) {
    Dependent(dependent, kind) in StructuralDependents(g, dependency)
  }

  predicate DependsDirectly(g: Graph, dependent: NodeId, dependency: NodeId) {
    exists d | d in StructuralDependents(g, dependency) :: d.id == dependent
  }

  /** The projection keeps exactly the edges of an impact kind. */
  lemma {:induction false} ProjectionExact(edges: seq<Neighbor>, d: Dependent)
    ensures d in ProjectDependents(edges) <==>
            exists e | e in edges :: e.source == d.id && StructuralImpactKind(e.kind) == Some(d.kind)
  {
    if edges != [] {
      ProjectionExact(edges[1..], d);
      assert edges == [edges[0]] + edges[1..];
      if exists e | e in edges :: e.source == d.id && StructuralImpactKind(e.kind) == Some(d.kind) {
        var e :| e in edges && e.source == d.id && StructuralImpactKind(e.kind) == Some(d.kind);
        assert e == edges[0] || e in edges[1..];
      }
    }
  }

  /** How many edges of a collection project onto `d`: one term per edge kind. */
  function EdgeCount(edges: multiset<Neighbor>, d: Dependent): nat {
    match d.kind
    case Reference => edges[Neighbor(d.id, References)]
    case TypeUse => edges[Neighbor(d.id, TypeOf)] + edges[Neighbor(d.id, FieldOf)]
    case Implementation => edges[Neighbor(d.id, Implements)]
    case Inheritance => edges[Neighbor(d.id, Extends)]
  }

  lemma EdgeCountOne(e: Neighbor, d: Dependent)
    ensures EdgeCount(multiset{e}, d) == multiset(ProjectDependents([e]))[d]
  {
    assert [e][1..] == [];
    assert multiset{e}[e] == 1;
  }

  lemma EdgeCountAdd(a: multiset<Neighbor>, b: multiset<Neighbor>, d: Dependent)
    ensures EdgeCount(a + b, d) == EdgeCount(a, d) + EdgeCount(b, d)
  {
  }

  lemma ProjectConsCount(head: Neighbor, rest: seq<Neighbor>, d: Dependent)
    ensures multiset(ProjectDependents([head] + rest))[d]
         == multiset(ProjectDependents([head]))[d] + multiset(ProjectDependents(rest))[d]
  {
    ProjectCons(head, rest);
    var a, b := ProjectDependents([head]), ProjectDependents(rest);
    assert multiset(a + b) == multiset(a) + multiset(b);
  }

  /** Reordering the edge list only reorders the projection: each dependent's
      multiplicity is a count over the edges as a collection. */
  lemma {:induction false} ProjectionMultiset(edges: seq<Neighbor>, d: Dependent)
    ensures multiset(ProjectDependents(edges))[d] == EdgeCount(multiset(edges), d)
  {
    if edges != [] {
      var head, rest := edges[0], edges[1..];
      ProjectionMultiset(rest, d);
      EdgeCountOne(head, d);
      ProjectConsCount(head, rest, d);
      assert edges == [head] + rest;
      assert multiset(edges) == multiset{head} + multiset(rest);
      EdgeCountAdd(multiset{head}, multiset(rest), d);
    }
  }

  lemma ProjectCons(head: Neighbor, rest: seq<Neighbor>)
    ensures ProjectDependents([head] + rest) == ProjectDependents([head]) + ProjectDependents(rest)
  {
    assert ([head] + rest)[1..] == rest;
    assert [head][1..] == [];
    assert ProjectDependents([]) == [];
  }

  // ---- the traversal's edge order ----

  function KindRank(kind: ImpactKind): nat {
    match kind
    case Reference => 0
    case TypeUse => 1
    case Implementation => 2
    case Inheritance => 3
  }

  function FileOf(g: Graph, id: NodeId): Text {
    if id in g.nodes then g.nodes[id].filePath else []
  }

  function NameOf(g: Graph, id: NodeId): Text {
    if id in g.nodes then g.nodes[id].symbolName else []
  }

  /** File, then symbol name, then relation, then id. */
  predicate DependentLeq(g: Graph, a: Dependent, b: Dependent) {
    if FileOf(g, a.id) != FileOf(g, b.id) then BytesLeq(FileOf(g, a.id), FileOf(g, b.id))
    else if NameOf(g, a.id) != NameOf(g, b.id) then BytesLeq(NameOf(g, a.id), NameOf(g, b.id))
    else if a.kind != b.kind then KindRank(a.kind) <= KindRank(b.kind)
    else a.id <= b.id
  }

  function DependentOrder(g: Graph): (Dependent, Dependent) -> bool {
    (a: Dependent, b: Dependent) => DependentLeq(g, a, b)
  }

  lemma DependentOrderTotal(g: Graph)
    ensures Sorting.TotalOrder(DependentOrder(g))
  {
    var leq := DependentOrder(g);
    forall a: Dependent, b: Dependent ensures leq(a, b) || leq(b, a) {
      BytesLeqTotal(FileOf(g, a.id), FileOf(g, b.id));
      BytesLeqTotal(NameOf(g, a.id), NameOf(g, b.id));
    }
    forall a: Dependent, b: Dependent | leq(a, b) && leq(b, a) ensures a == b {
      if FileOf(g, a.id) != FileOf(g, b.id) {
        BytesLeqAntisymmetric(FileOf(g, a.id), FileOf(g, b.id));
      } else if NameOf(g, a.id) != NameOf(g, b.id) {
        BytesLeqAntisymmetric(NameOf(g, a.id), NameOf(g, b.id));
      }
    }
    forall a: Dependent, b: Dependent, c: Dependent | leq(a, b) && leq(b, c) ensures leq(a, c) {
      DependentLeqTransitive(g, a, b, c);
    }
  }

  lemma DependentLeqTransitive(g: Graph, a: Dependent, b: Dependent, c: Dependent)
    requires DependentLeq(g, a, b) && DependentLeq(g, b, c)
    ensures DependentLeq(g, a, c)
  {
    var fa, fb, fc := FileOf(g, a.id), FileOf(g, b.id), FileOf(g, c.id);
    var na, nb, nc := NameOf(g, a.id), NameOf(g, b.id), NameOf(g, c.id);
    if fa != fb && fb != fc {
      BytesLeqTransitive(fa, fb, fc);
      if fa == fc { BytesLeqAntisymmetric(fa, fb); }
    } else if fa == fb == fc && na != nb && nb != nc {
      BytesLeqTransitive(na, nb, nc);
      if na == nc { BytesLeqAntisymmetric(na, nb); }
    }
  }

  /** The structural edges into a node, in traversal order. */
  function OrderedDependents(g: Graph, id: NodeId): (r: seq<Dependent>) {
    Sorting.Sort(DependentOrder(g), StructuralDependents(g, id))
  }

  /** Edges are followed in the order of the dependents' files, then of their names, then uses
      before types before implementations before inheritance, then of their ids. */
  lemma FollowedInOrder(g: Graph, id: NodeId, i: nat, j: nat)
    requires i < j < |OrderedDependents(g, id)|
    ensures var (a, b) := (OrderedDependents(g, id)[i], OrderedDependents(g, id)[j]);
            var (fa, fb) := (FileOf(g, a.id), FileOf(g, b.id));
            var (na, nb) := (NameOf(g, a.id), NameOf(g, b.id));
            && (fa == fb || Precedes(fa, fb))
            && (fa == fb ==>
                 && (na == nb || Precedes(na, nb))
                 && (na == nb ==>
                      && (b.kind == Reference ==> a.kind == Reference)
                      && (b.kind == TypeUse ==> a.kind == Reference || a.kind == TypeUse)
                      && (b.kind == Implementation ==> a.kind != Inheritance)
                      && (a.kind == b.kind ==> a.id <= b.id)))
  {
    hide Sorting.Sort, Precedes, BytesLeq;
    DependentOrderTotal(g);
    Sorting.SortSorts(DependentOrder(g), StructuralDependents(g, id));
    var a, b := OrderedDependents(g, id)[i], OrderedDependents(g, id)[j];
    assert DependentOrder(g)(a, b);
    BytesLeqIff(FileOf(g, a.id), FileOf(g, b.id));
    BytesLeqIff(NameOf(g, a.id), NameOf(g, b.id));
  }

  lemma OrderedDependentsExact(g: Graph, id: NodeId)
    ensures forall d :: d in OrderedDependents(g, id) <==> d in StructuralDependents(g, id)
  {
    Sorting.SameElements(OrderedDependents(g, id), StructuralDependents(g, id));
  }

  /** Two stores that hold the same graph and differ only in the order of their edge lists. */
  ghost predicate SameGraph(g: Graph, h: Graph) {
    && g.nodes == h.nodes
    && forall id: NodeId :: multiset(IncomingNeighbors(g, id)) == multiset(IncomingNeighbors(h, id))
  }

  lemma DependentsPermute(eg: seq<Neighbor>, eh: seq<Neighbor>)
    requires multiset(eg) == multiset(eh)
    ensures multiset(ProjectDependents(eg)) == multiset(ProjectDependents(eh))
  {
    forall d: Dependent
      ensures multiset(ProjectDependents(eg))[d] == multiset(ProjectDependents(eh))[d]
    {
      ProjectionMultiset(eg, d);
      ProjectionMultiset(eh, d);
    }
  }

  lemma SameOrder(g: Graph, h: Graph)
    requires g.nodes == h.nodes
    ensures forall a, b :: DependentLeq(g, a, b) == DependentLeq(h, a, b)
  {
  }

  /** The traversal order does not depend on the store's order. */
  lemma OrderedDependentsStable(g: Graph, h: Graph, id: NodeId)
    requires SameGraph(g, h)
    ensures OrderedDependents(g, id) == OrderedDependents(h, id)
  {
    DependentsPermute(IncomingNeighbors(g, id), IncomingNeighbors(h, id));
    DependentOrderTotal(g);
    DependentOrderTotal(h);
    SameOrder(g, h);
    var sg, sh := OrderedDependents(g, id), OrderedDependents(h, id);
    Sorting.SortSorts(DependentOrder(g), StructuralDependents(g, id));
    Sorting.SortSorts(DependentOrder(h), StructuralDependents(h, id));
    forall i, j | 0 <= i < j < |sh| ensures DependentOrder(g)(sh[i], sh[j]) {
      assert DependentOrder(h)(sh[i], sh[j]);
    }
    Sorting.SortedUnique(DependentOrder(g), sg, sh);
  }

  // ---- chains and distance ----

  datatype Step = Step(dependent: NodeId, dependency: NodeId, kind: ImpactKind)

  /** A chain of structural edges from `from` down to `target`. */
  predicate IsChain(g: Graph, path: seq<Step>, from: NodeId, target: NodeId) {
    if path == [] then from == target
    else
      && path[0].dependent == from
      && StructuralEdge(g, from, path[0].dependency, path[0].kind)
      && IsChain(g, path[1..], path[0].dependency, target)
  }

  /** `from` reaches `target` over at most `bound` structural edges. */
  ghost predicate ReachesWithin(g: Graph, from: NodeId, target: NodeId, bound: nat) {
    exists path :: IsChain(g, path, from, target) && |path| <= bound
  }

  ghost predicate Reaches(g: Graph, from: NodeId, target: NodeId) {
    exists path :: IsChain(g, path, from, target)
  }

  /** The shortest chain from `from` to `target` has `distance` edges. */
  ghost predicate AtDistance(g: Graph, from: NodeId, target: NodeId, distance: nat) {
    && ReachesWithin(g, from, target, distance)
    && forall path :: IsChain(g, path, from, target) ==> distance <= |path|
  }

  lemma ReachesWithinStep(g: Graph, d: Dependent, via: NodeId, target: NodeId, bound: nat)
    requires d in StructuralDependents(g, via)
    requires ReachesWithin(g, via, target, bound)
    ensures ReachesWithin(g, d.id, target, bound + 1)
  {
    var path :| IsChain(g, path, via, target) && |path| <= bound;
    var longer := [Step(d.id, via, d.kind)] + path;
    assert longer[1..] == path;
    assert IsChain(g, longer, d.id, target);
  }

  /** One edge less: the last-but-one form of `ReachesWithin`. */
  lemma ReachesWithinUnfold(g: Graph, from: NodeId, target: NodeId, bound: nat) returns (via: Option<NodeId>)
    requires ReachesWithin(g, from, target, bound)
    ensures via.None? ==> from == target
    ensures via.Some? ==>
      && bound > 0
      && DependsDirectly(g, from, via.value)
      && ReachesWithin(g, via.value, target, bound - 1)
  {
    var path: seq<Step> :| IsChain(g, path, from, target) && |path| <= bound;
    if path == [] {
      via := None;
    } else {
      via := Some(path[0].dependency);
      assert Dependent(from, path[0].kind) in StructuralDependents(g, path[0].dependency);
      assert IsChain(g, path[1..], path[0].dependency, target) && |path[1..]| <= bound - 1;
    }
  }

  lemma AtDistanceFromWithin(g: Graph, from: NodeId, target: NodeId, distance: nat)
    requires ReachesWithin(g, from, target, distance)
    requires distance > 0 ==> !ReachesWithin(g, from, target, distance - 1)
    ensures AtDistance(g, from, target, distance)
  {
    forall path | IsChain(g, path, from, target) ensures distance <= |path| {
      assert distance > 0 ==> !(|path| <= distance - 1);
    }
  }

  /** Once a step of the bound adds nothing, no later step does. */
  lemma {:induction false} ClosureSaturates(g: Graph, target: NodeId, bound: nat, path: seq<Step>, from: NodeId)
    requires forall v :: ReachesWithin(g, v, target, bound + 1) ==> ReachesWithin(g, v, target, bound)
    requires IsChain(g, path, from, target)
    ensures ReachesWithin(g, from, target, bound)
  {
    if path == [] {
      assert IsChain(g, [], from, target);
    } else {
      ClosureSaturates(g, target, bound, path[1..], path[0].dependency);
      ReachesWithinStep(g, Dependent(from, path[0].kind), path[0].dependency, target, bound);
    }
  }
}
