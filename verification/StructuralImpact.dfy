/** The depth-bounded reverse breadth-first traversal behind change impact. */
module StructuralImpact {
  import opened Wrappers
  import opened StructuralGraph
  import Sets

  datatype Pending = Pending(id: NodeId, depth: nat, pathToTarget: seq<Step>)

  /** The traversal's working state: everything its loop carries. */
  datatype Frontier = Frontier(
    queue: seq<Pending>,
    visited: set<NodeId>,
    paths: map<NodeId, seq<Step>>,
    cutoffs: set<NodeId>)

  datatype StructuralTraversal = StructuralTraversal(
    paths: map<NodeId, seq<Step>>,
    depthCutoffs: set<NodeId>)

  datatype TraversalError = MissingNode(id: NodeId)

  type Outcome = Result<StructuralTraversal, TraversalError>

  // ---- the loop as a function of its state ----

  function Start(target: NodeId): Frontier {
    Frontier([Pending(target, 0, [])], {target}, map[], {})
  }

  ghost function Unvisited(g: Graph, f: Frontier): nat {
    |g.nodes.Keys - f.visited|
  }

  /** One structural edge into the node at the head of the queue. */
  function Admit(
    g: Graph, maxDepth: nat, head: Pending, d: Dependent, f: Frontier): (r: Result<Frontier, TraversalError>)
    ensures r.Ok? ==> Unvisited(g, r.value) + |r.value.queue| == Unvisited(g, f) + |f.queue|
  {
    if head.depth + 1 > maxDepth then
      Ok(if d.id in f.visited then f else f.(cutoffs := f.cutoffs + {d.id}))
    else if d.id !in g.nodes then Err(MissingNode(d.id))
    else if d.id in f.visited then Ok(f)
    else
      var path := [Step(d.id, head.id, d.kind)] + head.pathToTarget;
      assert g.nodes.Keys - (f.visited + {d.id}) == (g.nodes.Keys - f.visited) - {d.id};
      Ok(Frontier(
        f.queue + [Pending(d.id, head.depth + 1, path)],
        f.visited + {d.id},
        f.paths[d.id := path],
        f.cutoffs))
  }

  function AdmitAll(
    g: Graph, maxDepth: nat, head: Pending, ds: seq<Dependent>, f: Frontier): (r: Result<Frontier, TraversalError>)
    ensures r.Ok? ==> Unvisited(g, r.value) + |r.value.queue| == Unvisited(g, f) + |f.queue|
  {
    if ds == [] then Ok(f)
    else
      match Admit(g, maxDepth, head, ds[0], f)
      case Err(e) => Err(e)
      case Ok(next) => AdmitAll(g, maxDepth, head, ds[1..], next)
  }

  function Run(g: Graph, maxDepth: nat, f: Frontier): Outcome
    decreases Unvisited(g, f) + |f.queue|
  {
    if f.queue == [] then Ok(StructuralTraversal(f.paths, f.cutoffs))
    else
      var head := f.queue[0];
      match AdmitAll(g, maxDepth, head, OrderedDependents(g, head.id), f.(queue := f.queue[1..]))
      case Err(e) => Err(e)
      case Ok(next) => Run(g, maxDepth, next)
  }

  lemma AdmitAllStep(g: Graph, maxDepth: nat, head: Pending, ds: seq<Dependent>, i: nat, f: Frontier)
    requires i < |ds|
    ensures var one := Admit(g, maxDepth, head, ds[i], f);
            AdmitAll(g, maxDepth, head, ds[i..], f)
            == if one.Ok? then AdmitAll(g, maxDepth, head, ds[i + 1..], one.value) else one
  {
    assert ds[i..][1..] == ds[i + 1..];
  }

  /** What the traversal answers for a graph, a target and a depth bound. */
  function Traverse(g: Graph, target: NodeId, maxDepth: nat): Outcome {
    Run(g, maxDepth, Start(target))
  }

  // ---- the traversal itself ----

  /** Expand one node: hand its path on to each dependent, in order. */
  method ExpandHead(g: Graph, maxDepth: nat, head: Pending, incoming: seq<Dependent>, f: Frontier)
    returns (r: Result<Frontier, TraversalError>)
    ensures r == AdmitAll(g, maxDepth, head, incoming, f)
  {
    hide Unvisited;
    var state := f;
    assert incoming[0..] == incoming;
    for i := 0 to |incoming|
      invariant AdmitAll(g, maxDepth, head, incoming[i..], state) == AdmitAll(g, maxDepth, head, incoming, f)
    {
      hide AdmitAll, Unvisited;
      var dependent := incoming[i];
      AdmitAllStep(g, maxDepth, head, incoming, i, state);
      var nextDepth := head.depth + 1;
      if nextDepth > maxDepth {
        if dependent.id !in state.visited {
          state := state.(cutoffs := state.cutoffs + {dependent.id});
        }
      } else {
        if dependent.id !in g.nodes {
          return Err(MissingNode(dependent.id));
        }
        if dependent.id !in state.visited {
          var nextPath := [Step(dependent.id, head.id, dependent.kind)] + head.pathToTarget;
          state := Frontier(
            state.queue + [Pending(dependent.id, nextDepth, nextPath)],
            state.visited + {dependent.id},
            state.paths[dependent.id := nextPath],
            state.cutoffs);
        }
      }
    }
    r := Ok(state);
  }

  /** Collect every node that structurally depends on `target` within `maxDepth` edges. */
  method CollectStructuralImpact(g: Graph, target: NodeId, maxDepth: nat) returns (r: Outcome)
    requires target in g.nodes
    ensures r == Traverse(g, target, maxDepth)
    ensures r.Ok? <==> forall v :: ReachesWithin(g, v, target, maxDepth) ==> v in g.nodes
    ensures r.Ok? ==> ExactImpact(g, target, maxDepth, r.value)
    ensures r.Err? ==> r.error.id !in g.nodes && ReachesWithin(g, r.error.id, target, maxDepth)
  {
    TraverseCorrect(g, target, maxDepth);
    hide ReachesWithin, ExactImpact, OrderedDependents;
    var f := Start(target);
    while f.queue != []
      invariant Run(g, maxDepth, f) == Traverse(g, target, maxDepth)
      decreases Unvisited(g, f) + |f.queue|
    {
      var head := f.queue[0];
      var incoming := OrderedDependents(g, head.id);
      var expanded := ExpandHead(g, maxDepth, head, incoming, f.(queue := f.queue[1..]));
      if expanded.Err? {
        return Err(expanded.error);
      }
      f := expanded.value;
    }
    r := Ok(StructuralTraversal(f.paths, f.cutoffs));
  }

  // ---- what the answer means ----

  /** Paths for exactly the nodes at distance 1 to the bound, each a shortest chain;
      cutoffs for exactly the nodes one edge further out. */
  ghost predicate ExactImpact(g: Graph, target: NodeId, maxDepth: nat, t: StructuralTraversal) {
    && (forall v :: v in t.paths <==> v != target && ReachesWithin(g, v, target, maxDepth))
    && (forall v | v in t.paths :: IsChain(g, t.paths[v], v, target) && AtDistance(g, v, target, |t.paths[v]|))
    && (forall v :: v in t.depthCutoffs <==> AtDistance(g, v, target, maxDepth + 1))
  }

  // ---- the loop invariant ----

  function PathOf(paths: map<NodeId, seq<Step>>, target: NodeId, v: NodeId): seq<Step> {
    if v != target && v in paths then paths[v] else []
  }

  /** Every stored path is a chain no longer than the bound. */
  ghost predicate Chains(g: Graph, target: NodeId, maxDepth: nat, f: Frontier) {
    && target in f.visited && target in g.nodes && target !in f.paths
    && f.visited == f.paths.Keys + {target}
    && f.visited <= g.nodes.Keys
    && forall v | v in f.paths :: IsChain(g, f.paths[v], v, target) && |f.paths[v]| <= maxDepth
  }

  ghost function Ids(queue: seq<Pending>): set<NodeId> {
    set i | 0 <= i < |queue| :: queue[i].id
  }

  /** Nearest first, with at most two depths present. */
  ghost predicate ByDepth(queue: seq<Pending>, low: nat) {
    && (forall i | 0 <= i < |queue| :: low <= queue[i].depth <= low + 1)
    && (forall i, j | 0 <= i < j < |queue| :: queue[i].depth <= queue[j].depth)
  }

  ghost predicate NoRepeats(queue: seq<Pending>) {
    forall i, j | 0 <= i < j < |queue| :: queue[i].id != queue[j].id
  }

  /** A queue entry carries the path stored for its node. */
  ghost predicate Carries(target: NodeId, paths: map<NodeId, seq<Step>>, e: Pending) {
    && e.pathToTarget == PathOf(paths, target, e.id)
    && e.depth == |e.pathToTarget|
  }

  /** The queue holds the visited nodes that are not yet in `done`. */
  ghost predicate QueueShape(target: NodeId, f: Frontier, done: set<NodeId>, low: nat) {
    && f.visited == done + Ids(f.queue) && done !! Ids(f.queue)
    && NoRepeats(f.queue) && ByDepth(f.queue, low)
    && (forall i | 0 <= i < |f.queue| :: Carries(target, f.paths, f.queue[i]))
    && (forall v | v in done :: |PathOf(f.paths, target, v)| <= low)
  }

  /** A finished node has handed on each of its dependents. */
  ghost predicate HandedOn(target: NodeId, maxDepth: nat, f: Frontier, v: NodeId, d: Dependent) {
    if |PathOf(f.paths, target, v)| < maxDepth
    then d.id in f.visited && |PathOf(f.paths, target, d.id)| <= |PathOf(f.paths, target, v)| + 1
    else d.id in f.visited || d.id in f.cutoffs
  }

  ghost predicate Closed(g: Graph, target: NodeId, maxDepth: nat, f: Frontier, done: set<NodeId>) {
    forall v, d | v in done && d in StructuralDependents(g, v) :: HandedOn(target, maxDepth, f, v, d)
  }

  ghost predicate CutoffsExact(g: Graph, target: NodeId, maxDepth: nat, f: Frontier) {
    forall v | v in f.cutoffs ::
      ReachesWithin(g, v, target, maxDepth + 1) && !ReachesWithin(g, v, target, maxDepth)
  }

  ghost predicate Invariant(g: Graph, target: NodeId, maxDepth: nat, f: Frontier, done: set<NodeId>, low: nat) {
    && Chains(g, target, maxDepth, f)
    && QueueShape(target, f, done, low)
    && CutoffsExact(g, target, maxDepth, f)
  }

  // ---- preservation ----

  lemma PathOfChain(g: Graph, target: NodeId, maxDepth: nat, f: Frontier, v: NodeId)
    requires Chains(g, target, maxDepth, f) && v in f.visited
    ensures IsChain(g, PathOf(f.paths, target, v), v, target)
    ensures ReachesWithin(g, v, target, |PathOf(f.paths, target, v)|)
    ensures |PathOf(f.paths, target, v)| <= maxDepth
  {
  }

  /** Everything within `k` edges has been visited at no greater depth, once every
      visited node shallower than the bound is finished. */
  lemma {:induction false} CompleteWithin(
    g: Graph, target: NodeId, maxDepth: nat, f: Frontier, done: set<NodeId>, k: nat, v: NodeId)
    requires Chains(g, target, maxDepth, f)
    requires Closed(g, target, maxDepth, f, done)
    requires forall u | u in f.visited && |PathOf(f.paths, target, u)| < maxDepth :: u in done
    requires k <= maxDepth
    requires ReachesWithin(g, v, target, k)
    ensures v in f.visited && |PathOf(f.paths, target, v)| <= k
  {
    var via := ReachesWithinUnfold(g, v, target, k);
    if via.Some? {
      CompleteWithin(g, target, maxDepth, f, done, k - 1, via.value);
      var d :| d in StructuralDependents(g, via.value) && d.id == v;
      assert HandedOn(target, maxDepth, f, via.value, d);
    }
  }

  /** Nothing found so far is forgotten or re-routed. */
  ghost predicate Extends(target: NodeId, f: Frontier, f': Frontier) {
    && f.visited <= f'.visited && f.cutoffs <= f'.cutoffs
    && forall v | v in f.visited :: PathOf(f'.paths, target, v) == PathOf(f.paths, target, v)
  }

  /** `head` is being expanded: already off the queue, not yet finished. */
  ghost predicate Expanding(target: NodeId, f: Frontier, head: Pending) {
    head.id in f.visited && Carries(target, f.paths, head)
  }

  /** The only kind of step that adds a node. */
  ghost predicate Discovers(g: Graph, target: NodeId, maxDepth: nat, head: Pending, d: Dependent, f: Frontier) {
    && Expanding(target, f, head)
    && head.depth + 1 <= maxDepth && d.id in g.nodes && d.id !in f.visited
  }

  function Discovered(head: Pending, d: Dependent, f: Frontier): Frontier {
    var path := [Step(d.id, head.id, d.kind)] + head.pathToTarget;
    Frontier(f.queue + [Pending(d.id, head.depth + 1, path)], f.visited + {d.id}, f.paths[d.id := path], f.cutoffs)
  }

  lemma DiscoveredChains(g: Graph, target: NodeId, maxDepth: nat, head: Pending, d: Dependent, f: Frontier)
    requires Chains(g, target, maxDepth, f)
    requires Discovers(g, target, maxDepth, head, d, f)
    requires d in StructuralDependents(g, head.id)
    ensures Chains(g, target, maxDepth, Discovered(head, d, f))
    ensures Extends(target, f, Discovered(head, d, f))
    ensures HandedOn(target, maxDepth, Discovered(head, d, f), head.id, d)
  {
    hide StructuralDependents;
    var f' := Discovered(head, d, f);
    PathOfChain(g, target, maxDepth, f, head.id);
    assert f'.paths[d.id][1..] == head.pathToTarget;
    assert IsChain(g, f'.paths[d.id], d.id, target);
    hide IsChain;
    assert f'.visited == f'.paths.Keys + {target};
    forall v | v in f'.paths ensures IsChain(g, f'.paths[v], v, target) && |f'.paths[v]| <= maxDepth {
      if v != d.id { assert f'.paths[v] == f.paths[v]; }
    }
  }

  lemma IdsSnoc(queue: seq<Pending>, e: Pending)
    ensures Ids(queue + [e]) == Ids(queue) + {e.id}
  {
    var longer := queue + [e];
    assert longer[|queue|] == e;
    forall v | v in Ids(queue) ensures v in Ids(longer) {
      var i :| 0 <= i < |queue| && queue[i].id == v;
      assert longer[i].id == v;
    }
  }

  lemma IdsCons(queue: seq<Pending>)
    requires queue != []
    ensures Ids(queue) == {queue[0].id} + Ids(queue[1..])
  {
    forall v | v in Ids(queue) ensures v in {queue[0].id} + Ids(queue[1..]) {
      var i :| 0 <= i < |queue| && queue[i].id == v;
      if i > 0 { assert queue[1..][i - 1].id == v; }
    }
  }

  lemma AppendOrdered(queue: seq<Pending>, e: Pending, low: nat)
    requires ByDepth(queue, low) && NoRepeats(queue)
    requires e.depth == low + 1 && e.id !in Ids(queue)
    ensures ByDepth(queue + [e], low) && NoRepeats(queue + [e])
  {
    forall i | 0 <= i < |queue| ensures queue[i].id in Ids(queue) { }
  }

  lemma DiscoveredQueue(
    g: Graph, target: NodeId, maxDepth: nat, head: Pending, d: Dependent, f: Frontier, done: set<NodeId>)
    requires Discovers(g, target, maxDepth, head, d, f)
    requires target in f.visited
    requires Extends(target, f, Discovered(head, d, f))
    requires QueueShape(target, f, done, head.depth)
    ensures QueueShape(target, Discovered(head, d, f), done, head.depth)
  {
    hide Unvisited;
    var f' := Discovered(head, d, f);
    var e := f'.queue[|f.queue|];
    IdsSnoc(f.queue, e);
    AppendOrdered(f.queue, e, head.depth);
    hide Ids, ByDepth, NoRepeats;
    forall i | 0 <= i < |f'.queue| ensures Carries(target, f'.paths, f'.queue[i]) {
      if i < |f.queue| { assert Carries(target, f.paths, f.queue[i]); }
    }
  }

  lemma AdmitExtends(
    g: Graph, target: NodeId, maxDepth: nat, head: Pending, d: Dependent, f: Frontier, done: set<NodeId>, f': Frontier)
    requires Chains(g, target, maxDepth, f) && Expanding(target, f, head)
    requires QueueShape(target, f, done, head.depth)
    requires d in StructuralDependents(g, head.id)
    requires Admit(g, maxDepth, head, d, f) == Ok(f')
    ensures Chains(g, target, maxDepth, f') && QueueShape(target, f', done, head.depth)
    ensures Extends(target, f, f') && Expanding(target, f', head)
    ensures HandedOn(target, maxDepth, f', head.id, d)
  {
    if head.depth + 1 <= maxDepth && d.id !in f.visited {
      hide QueueShape, Chains, StructuralDependents;
      assert target in f.visited by { TargetVisited(g, target, maxDepth, f); }
      DiscoveredChains(g, target, maxDepth, head, d, f);
      DiscoveredQueue(g, target, maxDepth, head, d, f, done);
      assert f' == Discovered(head, d, f);
    } else {
      hide Chains, StructuralDependents;
      NotDeeper(target, f, done, head, d.id);
      OnlyCutoffs(g, target, maxDepth, f, done, head.depth, f'.cutoffs);
      assert f' == f.(cutoffs := f'.cutoffs);
    }
  }

  lemma TargetVisited(g: Graph, target: NodeId, maxDepth: nat, f: Frontier)
    requires Chains(g, target, maxDepth, f)
    ensures target in f.visited
  {
  }

  lemma NotDeeper(target: NodeId, f: Frontier, done: set<NodeId>, head: Pending, v: NodeId)
    requires QueueShape(target, f, done, head.depth)
    ensures v in f.visited ==> |PathOf(f.paths, target, v)| <= head.depth + 1
  {
    if v in Ids(f.queue) { QueuedDepth(target, f, head.depth, v); }
  }

  lemma OnlyCutoffs(
    g: Graph, target: NodeId, maxDepth: nat, f: Frontier, done: set<NodeId>, low: nat, cutoffs: set<NodeId>)
    requires Chains(g, target, maxDepth, f) && QueueShape(target, f, done, low)
    ensures Chains(g, target, maxDepth, f.(cutoffs := cutoffs)) && QueueShape(target, f.(cutoffs := cutoffs), done, low)
  {
  }

  lemma QueuedDepth(target: NodeId, f: Frontier, low: nat, v: NodeId)
    requires ByDepth(f.queue, low) && v in Ids(f.queue)
    requires forall i | 0 <= i < |f.queue| :: Carries(target, f.paths, f.queue[i])
    ensures low <= |PathOf(f.paths, target, v)| <= low + 1
  {
    var i :| 0 <= i < |f.queue| && f.queue[i].id == v;
    assert Carries(target, f.paths, f.queue[i]);
  }

  lemma AdmitCutoffs(
    g: Graph, target: NodeId, maxDepth: nat, head: Pending, d: Dependent, f: Frontier, done: set<NodeId>, f': Frontier)
    requires Chains(g, target, maxDepth, f) && Expanding(target, f, head)
    requires QueueShape(target, f, done + {head.id}, head.depth)
    requires Closed(g, target, maxDepth, f, done)
    requires CutoffsExact(g, target, maxDepth, f)
    requires d in StructuralDependents(g, head.id)
    requires Admit(g, maxDepth, head, d, f) == Ok(f')
    ensures CutoffsExact(g, target, maxDepth, f')
  {
    hide StructuralDependents, IsChain, HandedOn, Unvisited;
    PathOfChain(g, target, maxDepth, f, head.id);
    if head.depth + 1 > maxDepth && d.id !in f.visited {
      ReachesWithinStep(g, d, head.id, target, maxDepth);
      if ReachesWithin(g, d.id, target, maxDepth) {
        forall u | u in f.visited && |PathOf(f.paths, target, u)| < maxDepth ensures u in done {
          if u in Ids(f.queue) { QueuedDepth(target, f, head.depth, u); }
        }
        CompleteWithin(g, target, maxDepth, f, done, maxDepth, d.id);
      }
    }
  }

  /** Admitting one edge keeps the invariant and hands its dependent on. */
  lemma AdmitKeeps(
    g: Graph, target: NodeId, maxDepth: nat, head: Pending, d: Dependent, f: Frontier, done: set<NodeId>, f': Frontier)
    requires Invariant(g, target, maxDepth, f, done + {head.id}, head.depth)
    requires Closed(g, target, maxDepth, f, done)
    requires Expanding(target, f, head)
    requires d in StructuralDependents(g, head.id)
    requires Admit(g, maxDepth, head, d, f) == Ok(f')
    ensures Invariant(g, target, maxDepth, f', done + {head.id}, head.depth)
    ensures Closed(g, target, maxDepth, f', done)
    ensures HandedOn(target, maxDepth, f', head.id, d)
    ensures Extends(target, f, f') && Expanding(target, f', head)
  {
    hide StructuralDependents, IsChain, ReachesWithin, CutoffsExact;
    AdmitExtends(g, target, maxDepth, head, d, f, done + {head.id}, f');
    AdmitCutoffs(g, target, maxDepth, head, d, f, done, f');
    ClosedStays(g, target, maxDepth, f, f', done);
  }

  lemma HandedOnStays(target: NodeId, maxDepth: nat, f: Frontier, f': Frontier, v: NodeId, d: Dependent)
    requires v in f.visited && HandedOn(target, maxDepth, f, v, d)
    requires Extends(target, f, f')
    ensures HandedOn(target, maxDepth, f', v, d)
  {
  }

  lemma ClosedStays(g: Graph, target: NodeId, maxDepth: nat, f: Frontier, f': Frontier, done: set<NodeId>)
    requires Closed(g, target, maxDepth, f, done) && done <= f.visited
    requires Extends(target, f, f')
    ensures Closed(g, target, maxDepth, f', done)
  {
    forall v, d | v in done && d in StructuralDependents(g, v)
      ensures HandedOn(target, maxDepth, f', v, d)
    {
      HandedOnStays(target, maxDepth, f, f', v, d);
    }
  }

  lemma {:induction false} AdmitAllKeeps(
    g: Graph, target: NodeId, maxDepth: nat, head: Pending, ds: seq<Dependent>, f: Frontier, done: set<NodeId>)
    requires Invariant(g, target, maxDepth, f, done + {head.id}, head.depth)
    requires Closed(g, target, maxDepth, f, done)
    requires Expanding(target, f, head)
    requires forall d | d in ds :: d in StructuralDependents(g, head.id)
    ensures
      match AdmitAll(g, maxDepth, head, ds, f)
      case Err(e) => e.id !in g.nodes && ReachesWithin(g, e.id, target, maxDepth)
      case Ok(f') =>
        && Invariant(g, target, maxDepth, f', done + {head.id}, head.depth)
        && Closed(g, target, maxDepth, f', done)
        && (forall d | d in ds :: HandedOn(target, maxDepth, f', head.id, d))
        && Extends(target, f, f')
    decreases |ds|
  {
    hide Admit, Unvisited, StructuralDependents, ReachesWithin, Invariant, HandedOn, Closed, Expanding, Extends;
    if ds != [] {
      var r := Admit(g, maxDepth, head, ds[0], f);
      if r.Err? {
        AdmitMissing(g, target, maxDepth, head, ds[0], f, done);
      } else {
        var f' := r.value;
        AdmitKeeps(g, target, maxDepth, head, ds[0], f, done, f');
        AdmitAllKeeps(g, target, maxDepth, head, ds[1..], f', done);
        var last := AdmitAll(g, maxDepth, head, ds[1..], f');
        if last.Ok? {
          HandedOnHead(target, maxDepth, f', last.value, head, ds[0]);
          ExtendsTransitive(target, f, f', last.value);
          assert ds == [ds[0]] + ds[1..];
        }
      }
    } else {
      ExtendsItself(target, f);
    }
  }

  lemma ExtendsItself(target: NodeId, f: Frontier)
    ensures Extends(target, f, f)
  {
  }

  lemma HandedOnHead(target: NodeId, maxDepth: nat, f: Frontier, f': Frontier, head: Pending, d: Dependent)
    requires Expanding(target, f, head) && HandedOn(target, maxDepth, f, head.id, d)
    requires Extends(target, f, f')
    ensures HandedOn(target, maxDepth, f', head.id, d)
  {
    HandedOnStays(target, maxDepth, f, f', head.id, d);
  }

  lemma ExtendsTransitive(target: NodeId, f: Frontier, f': Frontier, f'': Frontier)
    requires Extends(target, f, f') && Extends(target, f', f'')
    ensures Extends(target, f, f'')
  {
  }

  lemma AdmitMissing(
    g: Graph, target: NodeId, maxDepth: nat, head: Pending, d: Dependent, f: Frontier, done: set<NodeId>)
    requires Invariant(g, target, maxDepth, f, done + {head.id}, head.depth) && Expanding(target, f, head)
    requires d in StructuralDependents(g, head.id)
    requires Admit(g, maxDepth, head, d, f).Err?
    ensures Admit(g, maxDepth, head, d, f).error.id !in g.nodes
    ensures ReachesWithin(g, Admit(g, maxDepth, head, d, f).error.id, target, maxDepth)
  {
    PathOfChain(g, target, maxDepth, f, head.id);
    ReachesWithinStep(g, d, head.id, target, head.depth);
  }

  lemma RunFinished(g: Graph, target: NodeId, maxDepth: nat, f: Frontier, done: set<NodeId>, low: nat)
    requires Invariant(g, target, maxDepth, f, done, low)
    requires Closed(g, target, maxDepth, f, done)
    requires f.queue == []
    ensures ExactImpact(g, target, maxDepth, StructuralTraversal(f.paths, f.cutoffs))
    ensures forall v :: ReachesWithin(g, v, target, maxDepth) ==> v in g.nodes
  {
    assert forall v :: v in f.visited <==> v in done;
    forall v | ReachesWithin(g, v, target, maxDepth) ensures v in f.visited {
      CompleteWithin(g, target, maxDepth, f, done, maxDepth, v);
    }
    forall v | v in f.paths
      ensures ReachesWithin(g, v, target, maxDepth) && AtDistance(g, v, target, |f.paths[v]|)
    {
      var n := |f.paths[v]|;
      PathOfChain(g, target, maxDepth, f, v);
      if n > 0 && ReachesWithin(g, v, target, n - 1) {
        CompleteWithin(g, target, maxDepth, f, done, n - 1, v);
      }
      AtDistanceFromWithin(g, v, target, n);
    }
    forall v ensures v in f.cutoffs <==> AtDistance(g, v, target, maxDepth + 1) {
      if v in f.cutoffs {
        AtDistanceFromWithin(g, v, target, maxDepth + 1);
      }
      if AtDistance(g, v, target, maxDepth + 1) {
        CutoffCollected(g, target, maxDepth, f, done, v);
      }
    }
  }

  lemma CutoffCollected(g: Graph, target: NodeId, maxDepth: nat, f: Frontier, done: set<NodeId>, v: NodeId)
    requires Chains(g, target, maxDepth, f)
    requires Closed(g, target, maxDepth, f, done)
    requires done == f.visited
    requires AtDistance(g, v, target, maxDepth + 1)
    ensures v in f.cutoffs
  {
    if v in f.visited {
      PathOfChain(g, target, maxDepth, f, v);
    }
    assert IsChain(g, [], target, target);
    var via := ReachesWithinUnfold(g, v, target, maxDepth + 1);
    CompleteWithin(g, target, maxDepth, f, done, maxDepth, via.value);
    var d :| d in StructuralDependents(g, via.value) && d.id == v;
    assert HandedOn(target, maxDepth, f, via.value, d);
  }

  lemma {:induction false} RunCorrect(g: Graph, target: NodeId, maxDepth: nat, f: Frontier, done: set<NodeId>, low: nat)
    requires Invariant(g, target, maxDepth, f, done, low)
    requires Closed(g, target, maxDepth, f, done)
    ensures
      match Run(g, maxDepth, f)
      case Err(e) => e.id !in g.nodes && ReachesWithin(g, e.id, target, maxDepth)
      case Ok(t) =>
        && ExactImpact(g, target, maxDepth, t)
        && forall v :: ReachesWithin(g, v, target, maxDepth) ==> v in g.nodes
    decreases Unvisited(g, f) + |f.queue|
  {
    if f.queue == [] {
      RunFinished(g, target, maxDepth, f, done, low);
    } else {
      var head := f.queue[0];
      var popped := f.(queue := f.queue[1..]);
      PopKeeps(g, target, maxDepth, f, done, low);
      var ds := OrderedDependents(g, head.id);
      OrderedDependentsExact(g, head.id);
      AdmitAllKeeps(g, target, maxDepth, head, ds, popped, done);
      var next := AdmitAll(g, maxDepth, head, ds, popped);
      if next.Ok? {
        ClosedGrows(g, target, maxDepth, next.value, done, head.id);
        RunCorrect(g, target, maxDepth, next.value, done + {head.id}, head.depth);
      }
    }
  }

  lemma ClosedGrows(g: Graph, target: NodeId, maxDepth: nat, f: Frontier, done: set<NodeId>, v: NodeId)
    requires Closed(g, target, maxDepth, f, done)
    requires forall d | d in StructuralDependents(g, v) :: HandedOn(target, maxDepth, f, v, d)
    ensures Closed(g, target, maxDepth, f, done + {v})
  {
  }

  lemma PopQueue(target: NodeId, f: Frontier, done: set<NodeId>, low: nat)
    requires QueueShape(target, f, done, low) && f.queue != []
    ensures QueueShape(target, f.(queue := f.queue[1..]), done + {f.queue[0].id}, f.queue[0].depth)
    ensures Expanding(target, f.(queue := f.queue[1..]), f.queue[0])
  {
    var head, rest := f.queue[0], f.queue[1..];
    IdsCons(f.queue);
    assert Carries(target, f.paths, head);
    forall i | 0 <= i < |rest| ensures rest[i] == f.queue[i + 1] && rest[i].id != head.id {
    }
    assert head.id !in Ids(rest);
    forall i | 0 <= i < |rest| ensures Carries(target, f.paths, rest[i]) {
      assert Carries(target, f.paths, f.queue[i + 1]);
    }
  }

  lemma PopKeeps(g: Graph, target: NodeId, maxDepth: nat, f: Frontier, done: set<NodeId>, low: nat)
    requires Invariant(g, target, maxDepth, f, done, low)
    requires Closed(g, target, maxDepth, f, done)
    requires f.queue != []
    ensures Invariant(g, target, maxDepth, f.(queue := f.queue[1..]), done + {f.queue[0].id}, f.queue[0].depth)
    ensures Closed(g, target, maxDepth, f.(queue := f.queue[1..]), done)
    ensures Expanding(target, f.(queue := f.queue[1..]), f.queue[0])
  {
    hide StructuralDependents, IsChain, ReachesWithin;
    PopQueue(target, f, done, low);
    ClosedStays(g, target, maxDepth, f, f.(queue := f.queue[1..]), done);
  }

  /** The traversal succeeds exactly when every node within the bound is in the graph,
      and then it is exact; otherwise it names a node within the bound that is missing. */
  lemma TraverseCorrect(g: Graph, target: NodeId, maxDepth: nat)
    requires target in g.nodes
    ensures
      match Traverse(g, target, maxDepth)
      case Err(e) => e.id !in g.nodes && ReachesWithin(g, e.id, target, maxDepth)
      case Ok(t) =>
        && ExactImpact(g, target, maxDepth, t)
        && forall v :: ReachesWithin(g, v, target, maxDepth) ==> v in g.nodes
  {
    assert Start(target).queue[0].id == target;
    assert target in Ids(Start(target).queue);
    RunCorrect(g, target, maxDepth, Start(target), {}, 0);
  }

  // ---- consequences ----

  /** The answer does not depend on the order in which the store lists edges. */
  lemma {:induction false} RunOrderIndependent(g: Graph, h: Graph, maxDepth: nat, f: Frontier)
    requires SameGraph(g, h)
    ensures Run(g, maxDepth, f) == Run(h, maxDepth, f)
    decreases Unvisited(g, f) + |f.queue|
  {
    if f.queue != [] {
      var head := f.queue[0];
      var popped := f.(queue := f.queue[1..]);
      OrderedDependentsStable(g, h, head.id);
      AdmitAllSameNodes(g, h, maxDepth, head, OrderedDependents(g, head.id), popped);
      var next := AdmitAll(g, maxDepth, head, OrderedDependents(g, head.id), popped);
      if next.Ok? {
        RunOrderIndependent(g, h, maxDepth, next.value);
      }
    }
  }

  lemma {:induction false} AdmitAllSameNodes(
    g: Graph, h: Graph, maxDepth: nat, head: Pending, ds: seq<Dependent>, f: Frontier)
    requires g.nodes == h.nodes
    ensures AdmitAll(g, maxDepth, head, ds, f) == AdmitAll(h, maxDepth, head, ds, f)
  {
    if ds != [] {
      var next := Admit(g, maxDepth, head, ds[0], f);
      if next.Ok? { AdmitAllSameNodes(g, h, maxDepth, head, ds[1..], next.value); }
    }
  }

  lemma TraverseOrderIndependent(g: Graph, h: Graph, target: NodeId, maxDepth: nat)
    requires SameGraph(g, h)
    ensures Traverse(g, target, maxDepth) == Traverse(h, target, maxDepth)
  {
    RunOrderIndependent(g, h, maxDepth, Start(target));
  }

  /** No cutoff means that the paths cover the whole reverse closure, and only then. */
  lemma ZeroCutoffIffClosure(g: Graph, target: NodeId, maxDepth: nat, t: StructuralTraversal)
    requires ExactImpact(g, target, maxDepth, t)
    ensures t.depthCutoffs == {} <==> forall v :: v in t.paths <==> v != target && Reaches(g, v, target)
  {
    if t.depthCutoffs != {} {
      var v := Sets.Pick(t.depthCutoffs);
      assert AtDistance(g, v, target, maxDepth + 1);
      assert IsChain(g, [], target, target);
      assert v !in t.paths;
    } else {
      forall v | ReachesWithin(g, v, target, maxDepth + 1) ensures ReachesWithin(g, v, target, maxDepth) {
        assert v !in t.depthCutoffs;
        if !ReachesWithin(g, v, target, maxDepth) {
          AtDistanceFromWithin(g, v, target, maxDepth + 1);
        }
      }
      forall v | Reaches(g, v, target) ensures ReachesWithin(g, v, target, maxDepth) {
        var path: seq<Step> :| IsChain(g, path, v, target);
        ClosureSaturates(g, target, maxDepth, path, v);
      }
    }
  }
}
