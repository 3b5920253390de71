/** Coupling counts and hotspots of an audit: one pass over the edges, whatever their order. */
module AuditCoupling {
  import opened Wrappers
  import opened Bytes
  import Sorting

  type NodeId = int
  type Text = seq<byte>

  datatype EdgeKind = Calls | FieldOf | OtherKind

  datatype EdgeSource = Scip | Both | TreeSitter

  datatype EdgeScope = ProductionEdge | TestEdge | CfgGated

  datatype Edge = Edge(from: NodeId, to: NodeId, kind: EdgeKind, source: EdgeSource, scope: EdgeScope)

  datatype Node = Node(
    id: NodeId, symbolId: Text, name: Text, kind: Text, path: Text, startLine: Option<nat>, testOnly: Option<bool>)

  datatype Scope = Production | Conditional | Tests

  datatype AuditScope = Only(scope: Scope) | All

  predicate ObservedCoupling(e: Edge) {
    e.kind == Calls || e.kind == FieldOf
  }

  /** Whether a node is known to be test code; unknown nodes are not. */
  predicate TestNode(nodes: map<NodeId, Node>, id: NodeId) {
    id in nodes && nodes[id].testOnly == Some(true)
  }

  function RelationshipScope(nodes: map<NodeId, Node>, e: Edge): Scope {
    if e.scope == TestEdge || TestNode(nodes, e.from) then Tests
    else if e.scope == CfgGated then Conditional
    else Production
  }

  // ---- counters ----

  datatype Counts = Counts(providerCalls: int, structuralCallHints: int, fieldUses: int, total: int)

  const ZERO := Counts(0, 0, 0, 0)

  function Plus(a: Counts, b: Counts): Counts {
    Counts(a.providerCalls + b.providerCalls, a.structuralCallHints + b.structuralCallHints, a.fieldUses + b.fieldUses,
      a.total + b.total)
  }

  datatype Breakdown = Breakdown(production: Counts, conditional: Counts, tests: Counts, all: Counts)

  const EMPTY := Breakdown(ZERO, ZERO, ZERO, ZERO)

  function Selected(b: Breakdown, scope: AuditScope): Counts {
    match scope
    case Only(Production) => b.production
    case Only(Conditional) => b.conditional
    case Only(Tests) => b.tests
    case All => b.all
  }

  /** The parts of every counter make up its total, and the scopes make up everything. */
  predicate Balanced(b: Breakdown) {
    && b.all == Plus(Plus(b.production, b.conditional), b.tests)
    && AddsUp(b.production) && AddsUp(b.conditional) && AddsUp(b.tests) && AddsUp(b.all)
  }

  predicate AddsUp(c: Counts) {
    c.total == c.providerCalls + c.structuralCallHints + c.fieldUses
  }

  /** One counter, updated in place. */
  class CouplingCounts {
    var providerCalls: int
    var structuralCallHints: int
    var fieldUses: int
    var total: int

    constructor (c: Counts)
      ensures Value() == c
    {
      providerCalls, structuralCallHints, fieldUses, total := c.providerCalls, c.structuralCallHints, c.fieldUses,
        c.total;
    }

    function Value(): Counts
      reads this
    {
      Counts(providerCalls, structuralCallHints, fieldUses, total)
    }

    method Record(e: Edge)
      modifies this
      ensures Value() == if ObservedCoupling(e) then Plus(old(Value()), One(e)) else old(Value())
    {
      match e.kind
      case Calls =>
        if e.source == TreeSitter { structuralCallHints := structuralCallHints + 1; }
          else { providerCalls := providerCalls + 1; }
        total := total + 1;
      case FieldOf =>
        fieldUses := fieldUses + 1;
        total := total + 1;
      case OtherKind =>
    }

    method AddAssign(c: Counts)
      modifies this
      ensures Value() == Plus(old(Value()), c)
    {
      providerCalls := providerCalls + c.providerCalls;
      structuralCallHints := structuralCallHints + c.structuralCallHints;
      fieldUses := fieldUses + c.fieldUses;
      total := total + c.total;
    }
  }

  /** What a single coupling edge counts for. */
  function One(e: Edge): Counts {
    match e.kind
    case Calls => if e.source == TreeSitter then Counts(0, 1, 0, 1) else Counts(1, 0, 0, 1)
    case FieldOf => Counts(0, 0, 1, 1)
    case OtherKind => ZERO
  }

  /** One more edge in one scope; the total over scopes is added up afresh. */
  method RecordEdge(b: Breakdown, scope: Scope, e: Edge) returns (r: Breakdown)
    requires ObservedCoupling(e)
    ensures r == Recorded(b, scope, e)
  {
    var selected := new CouplingCounts(
        match scope case Production => b.production case Conditional => b.conditional case Tests => b.tests);
    selected.Record(e);
    r := match scope
      case Production => b.(production := selected.Value())
      case Conditional => b.(conditional := selected.Value())
      case Tests => b.(tests := selected.Value());
    var all := new CouplingCounts(ZERO);
    all.AddAssign(r.production);
    all.AddAssign(r.conditional);
    all.AddAssign(r.tests);
    r := r.(all := all.Value());
  }

  function Recorded(b: Breakdown, scope: Scope, e: Edge): Breakdown {
    var p := if scope == Production then Plus(b.production, One(e)) else b.production;
    var c := if scope == Conditional then Plus(b.conditional, One(e)) else b.conditional;
    var t := if scope == Tests then Plus(b.tests, One(e)) else b.tests;
    Breakdown(p, c, t, Plus(Plus(p, c), t))
  }

  /** Recording keeps the books balanced, at every step. */
  lemma RecordKeepsBalance(b: Breakdown, scope: Scope, e: Edge)
    requires Balanced(b) && ObservedCoupling(e)
    ensures Balanced(Recorded(b, scope, e))
  {
  }

  // ---- the reference: counting edges per node ----

  /** How many edges satisfy a property. */
  function Count(edges: seq<Edge>, good: Edge -> bool): nat {
    if edges == [] then 0 else Count(edges[..|edges| - 1], good) + if good(edges[|edges| - 1]) then 1 else 0
  }

  /** A coupling edge into a node, in one scope. */
  predicate Into(nodes: map<NodeId, Node>, id: NodeId, scope: Scope, e: Edge) {
    ObservedCoupling(e) && e.to == id && RelationshipScope(nodes, e) == scope
  }

  function CountsInto(nodes: map<NodeId, Node>, edges: seq<Edge>, id: NodeId, scope: Scope): Counts {
    Counts(
      Count(edges, (e: Edge) => Into(nodes, id, scope, e) && e.kind == Calls && e.source != TreeSitter),
      Count(edges, (e: Edge) => Into(nodes, id, scope, e) && e.kind == Calls && e.source == TreeSitter),
      Count(edges, (e: Edge) => Into(nodes, id, scope, e) && e.kind == FieldOf),
      Count(edges, (e: Edge) => Into(nodes, id, scope, e)))
  }

  /** What a node's counters ought to say. */
  function BreakdownOf(nodes: map<NodeId, Node>, edges: seq<Edge>, id: NodeId): Breakdown {
    var p := CountsInto(nodes, edges, id, Production);
    var c := CountsInto(nodes, edges, id, Conditional);
    var t := CountsInto(nodes, edges, id, Tests);
    Breakdown(p, c, t, Plus(Plus(p, c), t))
  }

  lemma CountsNext(nodes: map<NodeId, Node>, edges: seq<Edge>, e: Edge, id: NodeId, scope: Scope)
    ensures CountsInto(nodes, edges + [e], id, scope) ==
      if Into(nodes, id, scope, e) then Plus(CountsInto(nodes, edges, id, scope), One(e))
        else CountsInto(nodes, edges, id, scope)
  {
    assert (edges + [e])[..|edges|] == edges;
    hide RelationshipScope;
  }

  lemma BreakdownNext(nodes: map<NodeId, Node>, edges: seq<Edge>, e: Edge, id: NodeId)
    ensures BreakdownOf(nodes, edges + [e], id) ==
      if ObservedCoupling(e) && e.to == id then Recorded(BreakdownOf(nodes, edges, id), RelationshipScope(nodes, e), e)
      else BreakdownOf(nodes, edges, id)
  {
    CountsNext(nodes, edges, e, id, Production);
    CountsNext(nodes, edges, e, id, Conditional);
    CountsNext(nodes, edges, e, id, Tests);
    hide CountsInto, RelationshipScope, One;
  }

  lemma CountsEmpty(nodes: map<NodeId, Node>, id: NodeId, scope: Scope)
    ensures CountsInto(nodes, [], id, scope) == ZERO
  {
    hide Into;
  }

  lemma BreakdownEmpty(nodes: map<NodeId, Node>, id: NodeId)
    ensures BreakdownOf(nodes, [], id) == EMPTY
  {
    CountsEmpty(nodes, id, Production);
    CountsEmpty(nodes, id, Conditional);
    CountsEmpty(nodes, id, Tests);
    hide CountsInto;
  }

  predicate Targeted(edges: seq<Edge>, id: NodeId) {
    exists e | e in edges :: ObservedCoupling(e) && e.to == id
  }

  /** The one-pass map against the per-node counts: present exactly for the targets of coupling
      edges, with exactly their counts, every book balanced. */
  ghost predicate IsFanIn(nodes: map<NodeId, Node>, edges: seq<Edge>, fanIn: map<NodeId, Breakdown>) {
    && (forall id :: BreakdownOf(nodes, edges, id) == Entry(fanIn, id))
    && (forall id :: id in fanIn <==> Targeted(edges, id))
    && (forall id | id in fanIn :: Balanced(fanIn[id]))
  }

  /** A node's counters so far, empty for one not seen yet. */
  function Entry(fanIn: map<NodeId, Breakdown>, id: NodeId): Breakdown {
    if id in fanIn then fanIn[id] else EMPTY
  }

  method CollectFanIn(nodes: map<NodeId, Node>, edges: seq<Edge>) returns (fanIn: map<NodeId, Breakdown>)
    ensures IsFanIn(nodes, edges, fanIn)
  {
    hide IsFanIn, Recorded, RelationshipScope, Entry, EMPTY, One, Plus;
    fanIn := map[];
    var i := 0;
    FanInEmpty(nodes);
    assert edges[..0] == [];
    while i < |edges|
      invariant 0 <= i <= |edges|
      invariant IsFanIn(nodes, edges[..i], fanIn)
    {
      var e := edges[i];
      assert edges[..i + 1] == edges[..i] + [e];
      FanInNext(nodes, edges[..i], e, fanIn);
      if ObservedCoupling(e) {
        var updated := RecordEdge(Entry(fanIn, e.to), RelationshipScope(nodes, e), e);
        fanIn := fanIn[e.to := updated];
      }
      i := i + 1;
    }
    assert edges[..i] == edges;
  }

  lemma FanInEmpty(nodes: map<NodeId, Node>)
    ensures IsFanIn(nodes, [], map[])
  {
    hide BreakdownOf, EMPTY;
    forall id ensures BreakdownOf(nodes, [], id) == Entry(map[], id) { BreakdownEmpty(nodes, id); }
  }

  function FanInAfter(nodes: map<NodeId, Node>, e: Edge, fanIn: map<NodeId, Breakdown>): map<NodeId, Breakdown> {
    if ObservedCoupling(e) then fanIn[e.to := Recorded(Entry(fanIn, e.to), RelationshipScope(nodes, e), e)] else fanIn
  }

  lemma TargetedNext(edges: seq<Edge>, e: Edge, id: NodeId)
    ensures Targeted(edges + [e], id) <==> Targeted(edges, id) || (ObservedCoupling(e) && e.to == id)
  {
    assert e in edges + [e];
    assert forall x :: x in edges + [e] <==> x in edges || x == e;
  }

  lemma EntryBalanced(fanIn: map<NodeId, Breakdown>, id: NodeId)
    requires id in fanIn ==> Balanced(fanIn[id])
    ensures Balanced(Entry(fanIn, id))
  {
  }

  lemma FanInNext(nodes: map<NodeId, Node>, edges: seq<Edge>, e: Edge, fanIn: map<NodeId, Breakdown>)
    requires IsFanIn(nodes, edges, fanIn)
    ensures IsFanIn(nodes, edges + [e], FanInAfter(nodes, e, fanIn))
  {
    var next := FanInAfter(nodes, e, fanIn);
    hide BreakdownOf, Recorded, RelationshipScope, EMPTY, Balanced, Targeted;
    forall id ensures BreakdownOf(nodes, edges + [e], id) == Entry(next, id) {
      BreakdownNext(nodes, edges, e, id);
    }
    forall id ensures id in next <==> Targeted(edges + [e], id) {
      TargetedNext(edges, e, id);
    }
    EntryBalanced(fanIn, e.to);
    if ObservedCoupling(e) { RecordKeepsBalance(Entry(fanIn, e.to), RelationshipScope(nodes, e), e); }
  }

  // ---- the order of the edges does not matter ----

  lemma Without<T>(s: seq<T>, k: nat)
    requires k < |s|
    ensures multiset(s[..k] + s[k + 1..]) == multiset(s) - multiset{s[k]}
  {
    assert s == s[..k] + ([s[k]] + s[k + 1..]);
    assert multiset(s) == multiset(s[..k]) + (multiset{s[k]} + multiset(s[k + 1..]));
  }

  lemma CountWithout(s: seq<Edge>, k: nat, good: Edge -> bool)
    requires k < |s|
    ensures Count(s, good) == Count(s[..k] + s[k + 1..], good) + if good(s[k]) then 1 else 0
  {
    assert Count([s[k]], good) == if good(s[k]) then 1 else 0 by { assert [s[k]][..0] == []; }
    hide Count;
    CountSplit([s[k]], s[k + 1..], good);
    CountSplit(s[..k], s[k + 1..], good);
    CountSplit(s[..k], [s[k]] + s[k + 1..], good);
    Parted(s, k);
  }

  lemma Parted<T>(s: seq<T>, k: nat)
    requires k < |s|
    ensures s == s[..k] + ([s[k]] + s[k + 1..])
  {
  }

  lemma {:induction false} CountPermutes(a: seq<Edge>, b: seq<Edge>, good: Edge -> bool)
    requires multiset(a) == multiset(b)
    ensures Count(a, good) == Count(b, good)
  {
    Sorting.SameElements(a, b);
    if a != [] {
      var n := |a| - 1;
      var k := TakenFrom(a, b);
      CountWithout(b, k, good);
      CountPermutes(a[..n], b[..k] + b[k + 1..], good);
    }
  }

  /** The last element of one arrangement, found and taken out of another. */
  lemma TakenFrom(a: seq<Edge>, b: seq<Edge>) returns (k: nat)
    requires multiset(a) == multiset(b) && a != []
    ensures k < |b| && b[k] == a[|a| - 1]
    ensures multiset(a[..|a| - 1]) == multiset(b[..k] + b[k + 1..])
  {
    var n := |a| - 1;
    Sorting.SameElements(a, b);
    assert a[n] in b;
    k :| 0 <= k < |b| && b[k] == a[n];
    Without(a, n);
    Without(b, k);
    assert a[..n] + a[n + 1..] == a[..n];
  }

  lemma {:induction false} CountSplit(a: seq<Edge>, b: seq<Edge>, good: Edge -> bool)
    ensures Count(a + b, good) == Count(a, good) + Count(b, good)
  {
    if b == [] {
      assert a + b == a;
    } else {
      assert (a + b)[..|a + b| - 1] == a + b[..|b| - 1];
      CountSplit(a, b[..|b| - 1], good);
    }
  }

  lemma BreakdownPermutes(nodes: map<NodeId, Node>, a: seq<Edge>, b: seq<Edge>, id: NodeId)
    requires multiset(a) == multiset(b)
    ensures BreakdownOf(nodes, a, id) == BreakdownOf(nodes, b, id)
  {
    forall scope: Scope ensures CountsInto(nodes, a, id, scope) == CountsInto(nodes, b, id, scope) {
      CountPermutes(a, b, (e: Edge) => Into(nodes, id, scope, e) && e.kind == Calls && e.source != TreeSitter);
      CountPermutes(a, b, (e: Edge) => Into(nodes, id, scope, e) && e.kind == Calls && e.source == TreeSitter);
      CountPermutes(a, b, (e: Edge) => Into(nodes, id, scope, e) && e.kind == FieldOf);
      CountPermutes(a, b, (e: Edge) => Into(nodes, id, scope, e));
    }
    hide CountsInto;
  }

  // ---- hotspots ----

  datatype Hotspot = Hotspot(node: Node, selectedFanIn: int, fanIn: Breakdown)

  predicate LineLeq(a: Option<nat>, b: Option<nat>) {
    a.None? || (b.Some? && a.value <= b.value)
  }

  /** Most coupled first, then by where and what the symbol is. */
  predicate HotspotLeq(a: Hotspot, b: Hotspot) {
    if a.selectedFanIn != b.selectedFanIn then a.selectedFanIn > b.selectedFanIn
    else if a.node.path != b.node.path then BytesLeq(a.node.path, b.node.path)
    else if a.node.startLine != b.node.startLine then LineLeq(a.node.startLine, b.node.startLine)
    else if a.node.name != b.node.name then BytesLeq(a.node.name, b.node.name)
    else if a.node.kind != b.node.kind then BytesLeq(a.node.kind, b.node.kind)
    else BytesLeq(a.node.symbolId, b.node.symbolId)
  }

  const HOTSPOT_ORDER: (Hotspot, Hotspot) -> bool := (a: Hotspot, b: Hotspot) => HotspotLeq(a, b)

  lemma HotspotLaws(a: Hotspot, b: Hotspot, c: Hotspot)
    ensures HotspotLeq(a, b) || HotspotLeq(b, a)
    ensures HotspotLeq(a, b) && HotspotLeq(b, a) ==> a.node.symbolId == b.node.symbolId
    ensures HotspotLeq(a, b) && HotspotLeq(b, c) ==> HotspotLeq(a, c)
  {
    BytesLeqLaws(a.node.path, b.node.path, c.node.path);
    BytesLeqLaws(b.node.path, c.node.path, a.node.path);
    BytesLeqLaws(a.node.name, b.node.name, c.node.name);
    BytesLeqLaws(b.node.name, c.node.name, a.node.name);
    BytesLeqLaws(a.node.kind, b.node.kind, c.node.kind);
    BytesLeqLaws(b.node.kind, c.node.kind, a.node.kind);
    BytesLeqLaws(a.node.symbolId, b.node.symbolId, c.node.symbolId);
    hide BytesLeq;
  }

  lemma HotspotOrderPreorder()
    ensures Sorting.TotalPreorder(HOTSPOT_ORDER)
  {
    hide HotspotLeq;
    forall a: Hotspot, b: Hotspot, c: Hotspot
      ensures HOTSPOT_ORDER(a, b) || HOTSPOT_ORDER(b, a)
      ensures HOTSPOT_ORDER(a, b) && HOTSPOT_ORDER(b, c) ==> HOTSPOT_ORDER(a, c)
    {
      HotspotLaws(a, b, c);
    }
  }

  /** The graph keeps one node per id, and symbol ids name nodes. */
  ghost predicate DistinctNodes(list: seq<Node>) {
    forall i, j | 0 <= i < j < |list| :: list[i].id != list[j].id && list[i].symbolId != list[j].symbolId
  }

  lemma SameNode(list: seq<Node>, a: Node, b: Node)
    requires DistinctNodes(list) && a in list && b in list && (a.id == b.id || a.symbolId == b.symbolId)
    ensures a == b
  {
    var i :| 0 <= i < |list| && list[i] == a;
    var j :| 0 <= j < |list| && list[j] == b;
    assert i == j;
  }

  function NodeMap(list: seq<Node>): map<NodeId, Node>
    requires DistinctNodes(list)
  {
    assert forall a, b | a in list && b in list && a.id == b.id :: a == b by {
      forall a, b | a in list && b in list && a.id == b.id ensures a == b { SameNode(list, a, b); }
    }
    map n | n in list :: n.id := n
  }

  predicate Considered(scope: AuditScope, n: Node) {
    !(scope == Only(Production) && n.testOnly == Some(true))
  }

  function HotspotOf(nodes: map<NodeId, Node>, edges: seq<Edge>, scope: AuditScope, n: Node): Hotspot {
    var b := BreakdownOf(nodes, edges, n.id);
    Hotspot(n, Selected(b, scope).total, b)
  }

  /** The considered nodes whose selected fan-in reaches the minimum, each with its counts. */
  function Qualifying(
    nodes: map<NodeId, Node>, edges: seq<Edge>, scope: AuditScope, minFanIn: int, list: seq<Node>): seq<Hotspot> {
    if list == [] then []
    else
      var front := Qualifying(nodes, edges, scope, minFanIn, list[..|list| - 1]);
      var h := HotspotOf(nodes, edges, scope, list[|list| - 1]);
      if Considered(scope, list[|list| - 1]) && h.selectedFanIn >= minFanIn then front + [h] else front
  }

  method CollectHotspots(list: seq<Node>, edges: seq<Edge>, scope: AuditScope, minFanIn: int)
    returns (considered: nat, hotspots: seq<Hotspot>)
    requires DistinctNodes(list)
    ensures hotspots == Sorting.Sort(HOTSPOT_ORDER, Qualifying(NodeMap(list), edges, scope, minFanIn, list))
    ensures considered == |set i | 0 <= i < |list| && Considered(scope, list[i])|
  {
    hide BreakdownOf, EMPTY, Balanced, Targeted, HOTSPOT_ORDER, NodeMap, DistinctNodes, Sorting.Sort;
    var nodes := NodeMap(list);
    var fanIn := CollectFanIn(nodes, edges);
    assert forall n | n in list :: Entry(fanIn, n.id) == BreakdownOf(nodes, edges, n.id);
    hide IsFanIn;
    considered, hotspots := 0, [];
    var i := 0;
    while i < |list|
      invariant 0 <= i <= |list|
      invariant hotspots == Qualifying(nodes, edges, scope, minFanIn, list[..i])
      invariant forall k | i <= k < |list| :: Entry(fanIn, list[k].id) == BreakdownOf(nodes, edges, list[k].id)
      invariant considered == |set k | 0 <= k < i && Considered(scope, list[k])|
    {
      var n := list[i];
      assert list[..i + 1][..i] == list[..i];
      OneMoreConsidered(list, scope, i);
      LaterNodes(list, i);
      if Considered(scope, n) {
        considered := considered + 1;
        var breakdown := Entry(fanIn, n.id);
        fanIn := fanIn - {n.id};
        var selectedFanIn := Selected(breakdown, scope).total;
        if selectedFanIn >= minFanIn { hotspots := hotspots + [Hotspot(n, selectedFanIn, breakdown)]; }
      }
      i := i + 1;
    }
    assert list[..i] == list;
    hotspots := Sorting.Sort(HOTSPOT_ORDER, hotspots);
  }

  lemma LaterNodes(list: seq<Node>, i: nat)
    requires i < |list| && DistinctNodes(list)
    ensures forall k | i < k < |list| :: list[k].id != list[i].id
  {
  }

  lemma OneMoreConsidered(list: seq<Node>, scope: AuditScope, i: nat)
    requires i < |list|
    ensures |set k | 0 <= k < i + 1 && Considered(scope, list[k])|
         == |set k | 0 <= k < i && Considered(scope, list[k])| + if Considered(scope, list[i]) then 1 else 0
  {
    var before := set k | 0 <= k < i && Considered(scope, list[k]);
    var after := set k | 0 <= k < i + 1 && Considered(scope, list[k]);
    assert after == if Considered(scope, list[i]) then before + {i} else before;
  }

  // ---- the order of nodes and edges does not matter ----

  lemma {:induction false} QualifyingExact(
    nodes: map<NodeId, Node>, edges: seq<Edge>, scope: AuditScope, minFanIn: int, list: seq<Node>, h: Hotspot)
    ensures multiset(Qualifying(nodes, edges, scope, minFanIn, list))[h] ==
      if Considered(scope, h.node) && h.selectedFanIn >= minFanIn && h == HotspotOf(nodes, edges, scope, h.node)
      then multiset(list)[h.node] else 0
  {
    if list != [] {
      var n := |list| - 1;
      hide HotspotOf, Considered, Qualifying;
      QualifyingExact(nodes, edges, scope, minFanIn, list[..n], h);
      HotspotNode(nodes, edges, scope, list[n]);
      QualifyingSnoc(nodes, edges, scope, minFanIn, list[..n], list[n]);
      CountSnoc(list[..n], list[n], h.node);
      CountSnoc(Qualifying(nodes, edges, scope, minFanIn, list[..n]), HotspotOf(nodes, edges, scope, list[n]), h);
      Snoc(list);
    }
  }

  lemma CountSnoc<T>(s: seq<T>, x: T, y: T)
    ensures multiset(s + [x])[y] == multiset(s)[y] + if x == y then 1 else 0
  {
  }

  lemma Snoc<T>(s: seq<T>)
    requires s != []
    ensures s == s[..|s| - 1] + [s[|s| - 1]]
  {
  }

  lemma QualifyingSnoc(
    nodes: map<NodeId, Node>, edges: seq<Edge>, scope: AuditScope, minFanIn: int, front: seq<Node>, n: Node)
    ensures var h := HotspotOf(nodes, edges, scope, n);
            Qualifying(nodes, edges, scope, minFanIn, front + [n])
            == if Considered(scope, n) && h.selectedFanIn >= minFanIn
              then Qualifying(nodes, edges, scope, minFanIn, front) + [h]
               else Qualifying(nodes, edges, scope, minFanIn, front)
  {
    hide HotspotOf, Considered;
    assert (front + [n])[..|front|] == front;
  }

  lemma HotspotNode(nodes: map<NodeId, Node>, edges: seq<Edge>, scope: AuditScope, n: Node)
    ensures HotspotOf(nodes, edges, scope, n).node == n
  {
  }

  lemma SameNodeMap(a: seq<Node>, b: seq<Node>)
    requires DistinctNodes(a) && DistinctNodes(b) && multiset(a) == multiset(b)
    ensures NodeMap(a) == NodeMap(b)
  {
    Sorting.SameElements(a, b);
    var ma, mb := NodeMap(a), NodeMap(b);
    forall id | id in ma && id in mb ensures ma[id] == mb[id] {
      SameNode(a, ma[id], mb[id]);
    }
  }

  lemma QualifyingPermutes(a: seq<Node>, ea: seq<Edge>, b: seq<Node>, eb: seq<Edge>, scope: AuditScope, minFanIn: int)
    requires DistinctNodes(a) && DistinctNodes(b) && multiset(a) == multiset(b) && multiset(ea) == multiset(eb)
    ensures multiset(Qualifying(NodeMap(a), ea, scope, minFanIn, a))
      == multiset(Qualifying(NodeMap(b), eb, scope, minFanIn, b))
  {
    SameNodeMap(a, b);
    var nodes := NodeMap(a);
    var qa, qb := Qualifying(nodes, ea, scope, minFanIn, a), Qualifying(nodes, eb, scope, minFanIn, b);
    forall h: Hotspot ensures multiset(qa)[h] == multiset(qb)[h] {
      BreakdownPermutes(nodes, ea, eb, h.node.id);
      QualifyingExact(nodes, ea, scope, minFanIn, a, h);
      QualifyingExact(nodes, eb, scope, minFanIn, b, h);
      hide BreakdownOf, Considered, Qualifying, Selected;
    }
  }

  lemma HotspotsDoNotTie(nodes: map<NodeId, Node>, edges: seq<Edge>, scope: AuditScope, minFanIn: int, list: seq<Node>)
    requires DistinctNodes(list)
    ensures Sorting.NoTies(HOTSPOT_ORDER, Qualifying(nodes, edges, scope, minFanIn, list))
  {
    var q := Qualifying(nodes, edges, scope, minFanIn, list);
    hide HotspotLeq, HotspotOf, Considered, Qualifying;
    forall a, b | a in q && b in q && HOTSPOT_ORDER(a, b) && HOTSPOT_ORDER(b, a) ensures a == b {
      HotspotLaws(a, b, a);
      QualifyingExact(nodes, edges, scope, minFanIn, list, a);
      QualifyingExact(nodes, edges, scope, minFanIn, list, b);
      assert a in multiset(q) && b in multiset(q);
      assert a.node in multiset(list) && b.node in multiset(list);
      SameNode(list, a.node, b.node);
    }
  }

  /** The hotspots are the same whatever order the graph lists its nodes and edges in. */
  lemma HotspotsOrderFree(a: seq<Node>, ea: seq<Edge>, b: seq<Node>, eb: seq<Edge>, scope: AuditScope, minFanIn: int)
    requires DistinctNodes(a) && DistinctNodes(b) && multiset(a) == multiset(b) && multiset(ea) == multiset(eb)
    ensures Sorting.Sort(HOTSPOT_ORDER, Qualifying(NodeMap(a), ea, scope, minFanIn, a))
         == Sorting.Sort(HOTSPOT_ORDER, Qualifying(NodeMap(b), eb, scope, minFanIn, b))
  {
    HotspotOrderPreorder();
    QualifyingPermutes(a, ea, b, eb, scope, minFanIn);
    HotspotsDoNotTie(NodeMap(a), ea, scope, minFanIn, a);
    hide Qualifying, NodeMap, HOTSPOT_ORDER, Sorting.TotalPreorder, Sorting.NoTies;
    Sorting.SortPermutation(HOTSPOT_ORDER, Qualifying(NodeMap(a), ea, scope, minFanIn, a),
      Qualifying(NodeMap(b), eb, scope, minFanIn, b));
  }

  // ---- what a hotspot says ----

  /** A call or a use of a field of `n`. */
  predicate Enters(e: Edge, n: Node) {
    e.to == n.id && (e.kind == Calls || e.kind == FieldOf)
  }

  /** Test code is whatever the edge says is, or whatever comes from a test; of the rest the
      conditionally compiled is apart. */
  ghost predicate InScope(list: seq<Node>, e: Edge, scope: Scope) {
    var fromTest := e.scope == TestEdge || exists m | m in list :: m.id == e.from && m.testOnly == Some(true);
    match scope
    case Tests => fromTest
    case Conditional => !fromTest && e.scope == CfgGated
    case Production => !fromTest && e.scope != CfgGated
  }

  ghost predicate EntersIn(list: seq<Node>, e: Edge, n: Node, scope: Scope) {
    Enters(e, n) && InScope(list, e, scope)
  }

  /** The counters of one scope: calls that a provider saw, calls that only the syntax shows, uses
      of fields, and all of them. */
  ghost predicate Counted(list: seq<Node>, edges: seq<Edge>, n: Node, scope: Scope, c: Counts) {
    && c.providerCalls == |set i | 0 <= i < |edges| && EntersIn(list, edges[i], n, scope)
         && edges[i].kind == Calls && edges[i].source != TreeSitter|
    && c.structuralCallHints == |set i | 0 <= i < |edges| && EntersIn(list, edges[i], n, scope)
         && edges[i].kind == Calls && edges[i].source == TreeSitter|
    && c.fieldUses == |set i | 0 <= i < |edges| && EntersIn(list, edges[i], n, scope) && edges[i].kind == FieldOf|
    && c.total == |set i | 0 <= i < |edges| && EntersIn(list, edges[i], n, scope)|
  }

  /** A node with the counters of every scope and of all three together, ranked by the edges of
      the scope asked for. */
  ghost predicate SaysOf(list: seq<Node>, edges: seq<Edge>, scope: AuditScope, n: Node, h: Hotspot) {
    var (p, c, t, all) := (h.fanIn.production, h.fanIn.conditional, h.fanIn.tests, h.fanIn.all);
    && h.node == n
    && Counted(list, edges, n, Production, p) && Counted(list, edges, n, Conditional, c)
    && Counted(list, edges, n, Tests, t)
    && all.providerCalls == p.providerCalls + c.providerCalls + t.providerCalls
    && all.structuralCallHints == p.structuralCallHints + c.structuralCallHints + t.structuralCallHints
    && all.fieldUses == p.fieldUses + c.fieldUses + t.fieldUses
    && all.total == p.total + c.total + t.total
    && h.selectedFanIn == (match scope
         case Only(Production) => p.total
         case Only(Conditional) => c.total
         case Only(Tests) => t.total
         case All => p.total + c.total + t.total)
  }

  function Where(edges: seq<Edge>, good: Edge -> bool): set<int> {
    set i | 0 <= i < |edges| && good(edges[i])
  }

  lemma {:induction false} CountIs(edges: seq<Edge>, good: Edge -> bool)
    ensures Count(edges, good) == |Where(edges, good)|
  {
    if edges != [] {
      CountIs(edges[..|edges| - 1], good);
      WhereNext(edges, good);
      hide Where;
    }
  }

  lemma WhereNext(edges: seq<Edge>, good: Edge -> bool)
    requires edges != []
    ensures var n := |edges| - 1;
            && Where(edges, good) == Where(edges[..n], good) + (if good(edges[n]) then {n} else {})
            && n !in Where(edges[..n], good)
  {
  }

  lemma ScopeIff(list: seq<Node>, e: Edge, n: Node, scope: Scope)
    requires DistinctNodes(list)
    ensures Into(NodeMap(list), n.id, scope, e) <==> EntersIn(list, e, n, scope)
  {
    if m :| m in list && m.id == e.from {
      assert NodeMap(list)[e.from] == m by {
        forall other | other in list && other.id == m.id ensures other == m { SameNode(list, other, m); }
      }
      forall other | other in list && other.id == e.from ensures other == m { SameNode(list, other, m); }
    }
  }

  lemma CountsSay(list: seq<Node>, edges: seq<Edge>, n: Node, scope: Scope)
    requires DistinctNodes(list)
    ensures Counted(list, edges, n, scope, CountsInto(NodeMap(list), edges, n.id, scope))
  {
    var nodes := NodeMap(list);
    hide DistinctNodes, NodeMap;
    forall e: Edge ensures Into(nodes, n.id, scope, e) <==> EntersIn(list, e, n, scope) { ScopeIff(list, e, n, scope); }
    hide Into, EntersIn;
    SameSize(edges, (e: Edge) => Into(nodes, n.id, scope, e) && e.kind == Calls && e.source != TreeSitter,
      set i | 0 <= i < |edges| && EntersIn(list, edges[i], n, scope)
        && edges[i].kind == Calls && edges[i].source != TreeSitter);
    SameSize(edges, (e: Edge) => Into(nodes, n.id, scope, e) && e.kind == Calls && e.source == TreeSitter,
      set i | 0 <= i < |edges| && EntersIn(list, edges[i], n, scope)
        && edges[i].kind == Calls && edges[i].source == TreeSitter);
    SameSize(edges, (e: Edge) => Into(nodes, n.id, scope, e) && e.kind == FieldOf,
      set i | 0 <= i < |edges| && EntersIn(list, edges[i], n, scope) && edges[i].kind == FieldOf);
    SameSize(edges, (e: Edge) => Into(nodes, n.id, scope, e),
      set i | 0 <= i < |edges| && EntersIn(list, edges[i], n, scope));
    hide Count;
  }

  lemma SameSize(edges: seq<Edge>, good: Edge -> bool, where: set<int>)
    requires where == Where(edges, good)
    ensures Count(edges, good) == |where|
  {
    CountIs(edges, good);
  }

  /** The hotspots are the nodes, tests left out of an audit of production code, with at least
      the minimum of edges in the scope asked for: each once, with its true counters. */
  lemma HotspotsSay(
    list: seq<Node>, edges: seq<Edge>, scope: AuditScope, minFanIn: int, hotspots: seq<Hotspot>, n: Node)
    requires DistinctNodes(list) && n in list
    requires hotspots == Sorting.Sort(HOTSPOT_ORDER, Qualifying(NodeMap(list), edges, scope, minFanIn, list))
    ensures forall h | h in hotspots :: h.node in list
    ensures forall h | h in hotspots && h.node == n :: multiset(hotspots)[h] == 1 && SaysOf(list, edges, scope, n, h)
    ensures (exists h | h in hotspots :: h.node == n) <==>
      && (scope == Only(Production) ==> n.testOnly != Some(true))
      && exists h | SaysOf(list, edges, scope, n, h) :: h.selectedFanIn >= minFanIn
  {
    hide Sorting.Sort, Qualifying, HOTSPOT_ORDER, DistinctNodes, NodeMap;
    var nodes := NodeMap(list);
    var q := Qualifying(nodes, edges, scope, minFanIn, list);
    Sorting.SameElements(hotspots, q);
    var own := HotspotOf(nodes, edges, scope, n);
    SaysOwn(list, edges, scope, n);
    forall h: Hotspot ensures multiset(q)[h] ==
      if Considered(scope, h.node) && h.selectedFanIn >= minFanIn && h == HotspotOf(nodes, edges, scope, h.node)
      then multiset(list)[h.node] else 0
    {
      QualifyingExact(nodes, edges, scope, minFanIn, list, h);
    }
    forall h | h in hotspots ensures h.node in list { assert multiset(q)[h] > 0; }
    OnceListed(list, n);
    hide HotspotOf, SaysOf;
    assert own in hotspots <==> multiset(q)[own] > 0;
    forall h | SaysOf(list, edges, scope, n, h) ensures h == own { SaysOne(list, edges, scope, n, h, own); }
    forall h | h in hotspots && h.node == n ensures h == own { assert multiset(q)[h] > 0; }
  }

  lemma SaysOwn(list: seq<Node>, edges: seq<Edge>, scope: AuditScope, n: Node)
    requires DistinctNodes(list)
    ensures SaysOf(list, edges, scope, n, HotspotOf(NodeMap(list), edges, scope, n))
    ensures HotspotOf(NodeMap(list), edges, scope, n).node == n
  {
    hide DistinctNodes, NodeMap, CountsInto, Counted;
    CountsSay(list, edges, n, Production);
    CountsSay(list, edges, n, Conditional);
    CountsSay(list, edges, n, Tests);
  }

  lemma SaysOne(list: seq<Node>, edges: seq<Edge>, scope: AuditScope, n: Node, a: Hotspot, b: Hotspot)
    requires SaysOf(list, edges, scope, n, a) && SaysOf(list, edges, scope, n, b)
    ensures a == b
  {
    hide EntersIn;
  }

  lemma OnceListed(list: seq<Node>, n: Node)
    requires DistinctNodes(list) && n in list
    ensures multiset(list)[n] == 1
  {
    var i :| 0 <= i < |list| && list[i] == n;
    assert list == list[..i] + ([list[i]] + list[i + 1..]);
    assert n !in list[..i] && n !in list[i + 1..];
  }

  /** A hotspot never stands after one with fewer edges nor, with as many, after one that is later
      by path, line, name, kind and id, in that order of weight; no line comes before line 0. */
  lemma HotspotsInOrder(qualifying: seq<Hotspot>, i: nat, j: nat)
    requires i < j < |qualifying|
    ensures var sorted := Sorting.Sort(HOTSPOT_ORDER, qualifying);
            && |sorted| == |qualifying|
            && var (a, b) := (sorted[i], sorted[j]);
               var (m, n) := (a.node, b.node);
               && a.selectedFanIn >= b.selectedFanIn
               && (a.selectedFanIn == b.selectedFanIn ==>
                    && (m.path == n.path || Precedes(m.path, n.path))
                    && (m.path == n.path ==>
                         && (m.startLine.Some? ==> n.startLine.Some? && m.startLine.value <= n.startLine.value)
                         && (m.startLine == n.startLine ==> LaterByName(m, n))))
  {
    hide HotspotLeq, Sorting.Sort;
    HotspotOrderPreorder();
    Sorting.SortSorts(HOTSPOT_ORDER, qualifying);
    var sorted := Sorting.Sort(HOTSPOT_ORDER, qualifying);
    Sorting.SameElements(sorted, qualifying);
    assert HOTSPOT_ORDER(sorted[i], sorted[j]);
    HotspotLeqMeans(sorted[i], sorted[j]);
  }

  ghost predicate LaterByName(m: Node, n: Node) {
    && (m.name == n.name || Precedes(m.name, n.name))
    && (m.name == n.name ==>
         && (m.kind == n.kind || Precedes(m.kind, n.kind))
         && (m.kind == n.kind ==> m.symbolId == n.symbolId || Precedes(m.symbolId, n.symbolId)))
  }

  lemma HotspotLeqMeans(a: Hotspot, b: Hotspot)
    requires HotspotLeq(a, b)
    ensures var (m, n) := (a.node, b.node);
            && a.selectedFanIn >= b.selectedFanIn
            && (a.selectedFanIn == b.selectedFanIn ==>
                 && (m.path == n.path || Precedes(m.path, n.path))
                 && (m.path == n.path ==>
                      && (m.startLine.Some? ==> n.startLine.Some? && m.startLine.value <= n.startLine.value)
                      && (m.startLine == n.startLine ==> LaterByName(m, n))))
  {
    BytesLeqIff(a.node.path, b.node.path);
    BytesLeqIff(a.node.name, b.node.name);
    BytesLeqIff(a.node.kind, b.node.kind);
    BytesLeqIff(a.node.symbolId, b.node.symbolId);
    hide BytesLeq, Precedes;
  }
}
