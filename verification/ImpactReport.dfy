/** The reported impact: items in order, their depths, and the completeness claim. */
module ImpactReport {
  import opened Wrappers
  import opened Bytes
  import opened StructuralGraph
  import opened ImpactAccounting
  import opened StructuralImpact
  import Sorting
  import Sets

  // ---- items ----

  /** The shorter of the two witnesses an impact may carry. */
  function MinimumDepth(impact: Impact): nat {
    match (impact.executionPath, impact.structuralPath)
    case (None, None) => 0
    case (Some(e), None) => |e|
    case (None, Some(s)) => |s|
    case (Some(e), Some(s)) => if |s| < |e| then |s| else |e|
  }

  datatype Item = Item(minimumDepth: nat, impact: Impact)

  function ItemOf(impact: Impact): Item {
    Item(MinimumDepth(impact), impact)
  }

  /** Depth, then document, then name, then symbol id. */
  predicate ItemLeq(a: Item, b: Item) {
    var sa, sb := a.impact.symbol, b.impact.symbol;
    if a.minimumDepth != b.minimumDepth then a.minimumDepth <= b.minimumDepth
    else if sa.documentPath != sb.documentPath then BytesLeq(sa.documentPath, sb.documentPath)
    else if sa.name != sb.name then BytesLeq(sa.name, sb.name)
    else BytesLeq(sa.symbolId, sb.symbolId)
  }

  const ITEM_ORDER: (Item, Item) -> bool := (a: Item, b: Item) => ItemLeq(a, b)

  lemma ItemLeqTransitive(a: Item, b: Item, c: Item)
    requires ItemLeq(a, b) && ItemLeq(b, c)
    ensures ItemLeq(a, c)
  {
    var sa, sb, sc := a.impact.symbol, b.impact.symbol, c.impact.symbol;
    BytesLeqLaws(sa.documentPath, sb.documentPath, sc.documentPath);
    BytesLeqLaws(sa.name, sb.name, sc.name);
    BytesLeqLaws(sa.symbolId, sb.symbolId, sc.symbolId);
    hide BytesLeq;
  }

  lemma ItemOrderPreorder()
    ensures Sorting.TotalPreorder(ITEM_ORDER)
  {
    forall a: Item, b: Item ensures ITEM_ORDER(a, b) || ITEM_ORDER(b, a) {
      var sa, sb := a.impact.symbol, b.impact.symbol;
      BytesLeqTotal(sa.documentPath, sb.documentPath);
      BytesLeqTotal(sa.name, sb.name);
      BytesLeqTotal(sa.symbolId, sb.symbolId);
    }
    forall a: Item, b: Item, c: Item | ITEM_ORDER(a, b) && ITEM_ORDER(b, c) ensures ITEM_ORDER(a, c) {
      ItemLeqTransitive(a, b, c);
    }
  }

  /** `ids` lists every impacted symbol once. */
  ghost predicate ListsOnce(impacts: map<NodeId, Impact>, ids: seq<NodeId>) {
    && (forall id :: id in ids <==> id in impacts)
    && (forall i | 0 <= i < |ids| :: ids[i] in impacts)
    && (forall i, j | 0 <= i < j < |ids| :: ids[i] != ids[j])
  }

  function ItemsAt(impacts: map<NodeId, Impact>, ids: seq<NodeId>): (r: seq<Item>)
    requires forall i | 0 <= i < |ids| :: ids[i] in impacts
    ensures |r| == |ids|
  {
    seq(|ids|, i requires 0 <= i < |ids| && ids[i] in impacts => ItemOf(impacts[ids[i]]))
  }

  lemma {:induction false} ListedCount(impacts: map<NodeId, Impact>, ids: seq<NodeId>)
    requires ListsOnce(impacts, ids)
    ensures |ids| == |impacts|
  {
    Sets.MapSize(impacts);
    if ids == [] {
      assert forall id :: id in impacts ==> id in ids;
      Sets.NoElements(impacts.Keys);
    } else {
      var last := ids[|ids| - 1];
      var rest := impacts - {last};
      var front := ids[..|ids| - 1];
      assert ids == front + [last];
      assert rest.Keys == impacts.Keys - {last};
      Sets.MapSize(rest);
      ListedCount(rest, front);
    }
  }

  /** One item for each impacted symbol, in presentation order. */
  ghost predicate Presents(impacts: map<NodeId, Impact>, items: seq<Item>) {
    && Sorting.Sorted(ITEM_ORDER, items)
    && exists ids :: ListsOnce(impacts, ids) && multiset(items) == multiset(ItemsAt(impacts, ids))
  }

  /** Order the impacts for presentation. */
  method OrderItems(impacts: map<NodeId, Impact>) returns (ids: seq<NodeId>, items: seq<Item>)
    ensures ListsOnce(impacts, ids)
    ensures multiset(items) == multiset(ItemsAt(impacts, ids))
    ensures Sorting.Sorted(ITEM_ORDER, items)
    ensures |items| == |impacts|
  {
    ids := [];
    var pending := impacts.Keys;
    while pending != {}
      invariant pending <= impacts.Keys
      invariant forall id :: id in ids <==> id in impacts && id !in pending
      invariant forall i | 0 <= i < |ids| :: ids[i] in impacts
      invariant forall i, j | 0 <= i < j < |ids| :: ids[i] != ids[j]
      decreases pending
    {
      var id := Smallest(pending);
      pending := pending - {id};
      ids := ids + [id];
    }
    var listed := ItemsAt(impacts, ids);
    items := Sorting.Sort(ITEM_ORDER, listed);
    ItemOrderPreorder();
    Sorting.SortSorts(ITEM_ORDER, listed);
    ListedCount(impacts, ids);
  }

  /** In the list as shown an item never stands after one that is deeper, nor, at the same
      depth, after one whose document, name or id is greater, in that order of weight. */
  lemma ShownInOrder(impacts: map<NodeId, Impact>, items: seq<Item>, i: nat, j: nat)
    requires Presents(impacts, items) && i < j < |items|
    ensures var (a, b) := (items[i], items[j]);
            var (sa, sb) := (a.impact.symbol, b.impact.symbol);
            && a.minimumDepth <= b.minimumDepth
            && (a.minimumDepth == b.minimumDepth ==>
                 && (sa.documentPath == sb.documentPath || Precedes(sa.documentPath, sb.documentPath))
                 && (sa.documentPath == sb.documentPath ==>
                      && (sa.name == sb.name || Precedes(sa.name, sb.name))
                      && (sa.name == sb.name ==>
                           sa.symbolId == sb.symbolId || Precedes(sa.symbolId, sb.symbolId))))
  {
    var sa, sb := items[i].impact.symbol, items[j].impact.symbol;
    assert ITEM_ORDER(items[i], items[j]);
    BytesLeqIff(sa.documentPath, sb.documentPath);
    BytesLeqIff(sa.name, sb.name);
    BytesLeqIff(sa.symbolId, sb.symbolId);
    hide BytesLeq, Precedes;
  }

  // ---- depth ----

  lemma {:induction false} LastChainDepth(paths: seq<CallPath>, id: NodeId, maxDepth: nat)
    requires WellFormedEvidence(paths, maxDepth)
    ensures LastChain(paths, id).Some? <==> id in Callers(paths)
    ensures LastChain(paths, id).Some? ==> 1 <= |LastChain(paths, id).value| <= maxDepth
  {
    if paths != [] {
      var front, last := paths[..|paths| - 1], paths[|paths| - 1];
      FrontEvidence(paths, maxDepth);
      LastChainDepth(front, id, maxDepth);
      CallersSnoc(front, last);
      LastChainSnoc(front, last, id);
      hide LastChain, Callers, WellFormedEvidence;
      assert paths == front + [last];
    }
  }

  lemma FrontEvidence(paths: seq<CallPath>, maxDepth: nat)
    requires WellFormedEvidence(paths, maxDepth) && paths != []
    ensures WellFormedEvidence(paths[..|paths| - 1], maxDepth)
    ensures 1 <= |paths[|paths| - 1].chain| <= maxDepth
  {
  }

  /** An item's depth is the length of its only witness or the shorter of its two: never more
      than its true structural distance, and within the bound. */
  lemma DepthOfItem(
    gen: Generation, filter: CallerFilter, target: NodeId, maxDepth: nat,
    paths: seq<CallPath>, t: StructuralTraversal, id: NodeId)
    requires ExactImpact(gen.graph, target, maxDepth, t)
    requires WellFormedEvidence(paths, maxDepth)
    requires Resolvable(gen, filter, paths, t.paths)
    requires id in AccountingOf(gen, filter, paths, t.paths).impacts
    ensures var depth := MinimumDepth(AccountingOf(gen, filter, paths, t.paths).impacts[id]);
            && 1 <= depth <= maxDepth
            && (id in t.paths ==> depth <= |t.paths[id]| && AtDistance(gen.graph, id, target, |t.paths[id]|))
            && (id in t.paths && id !in Callers(paths) ==> AtDistance(gen.graph, id, target, depth))
            && (forall i | 0 <= i < |paths| && paths[i].caller == id ::
                 && depth <= |paths[i].chain|
                 && (id !in t.paths || |paths[i].chain| <= |t.paths[id]| ==> depth == |paths[i].chain|)
                 && (id in t.paths && |t.paths[id]| <= |paths[i].chain| ==> depth == |t.paths[id]|))
  {
    forall i | 0 <= i < |paths| && paths[i].caller == id ensures LastChain(paths, id) == Some(paths[i].chain) {
      LastListed(paths, i);
    }
    hide AccountingOf, Resolvable, WellFormedEvidence, LastChain, ExactImpact, Callers, AtDistance;
    LastChainDepth(paths, id, maxDepth);
    if id in t.paths {
      DistanceRange(gen.graph, target, maxDepth, t, id);
    }
    ImpactWitnesses(gen, filter, paths, t.paths, id);
  }

  /** The witnesses an impact carries: the last call path of a caller, the structural path of
      a dependent, and at least one of the two. */
  lemma ImpactWitnesses(
    gen: Generation, filter: CallerFilter, paths: seq<CallPath>, structural: map<NodeId, seq<Step>>, id: NodeId)
    requires Resolvable(gen, filter, paths, structural)
    requires id in AccountingOf(gen, filter, paths, structural).impacts
    ensures var impact := AccountingOf(gen, filter, paths, structural).impacts[id];
            && impact.executionPath == LastChain(paths, id)
            && (impact.structuralPath.Some? <==> id in structural)
            && (id in structural ==> |impact.structuralPath.value| == |structural[id]|)
    ensures id in Callers(paths) || id in structural
  {
    ImpactKeys(gen, filter, paths, structural);
    hide LastChain, MaterializePath, Callers, CallersWhere;
  }

  lemma DistanceRange(g: Graph, target: NodeId, maxDepth: nat, t: StructuralTraversal, id: NodeId)
    requires ExactImpact(g, target, maxDepth, t) && id in t.paths
    ensures 1 <= |t.paths[id]| <= maxDepth
    ensures AtDistance(g, id, target, |t.paths[id]|)
  {
    assert ReachesWithin(g, id, target, maxDepth);
    var path: seq<Step> :| IsChain(g, path, id, target) && |path| <= maxDepth;
  }

  // ---- the witness a reader is shown ----

  /** Steps that lead from one symbol to another, each picking up where the one before ended. */
  ghost predicate Leads(path: seq<ImpactStep>, from: Symbol, to: Symbol) {
    && path != []
    && path[0].dependent == from
    && path[|path| - 1].dependency == to
    && forall i | 0 <= i < |path| - 1 :: path[i].dependency == path[i + 1].dependent
  }

  lemma {:induction false} MaterializedChain(gen: Generation, path: seq<Step>, from: NodeId, target: NodeId)
    requires IsChain(gen.graph, path, from, target) && path != []
    requires MaterializePath(gen, path).Ok?
    ensures from in gen.symbols && target in gen.symbols
    ensures Leads(MaterializePath(gen, path).value, gen.symbols[from], gen.symbols[target])
  {
    if |path| > 1 {
      MaterializedChain(gen, path[1..], path[0].dependency, target);
    } else {
      assert path[1..] == [];
      assert MaterializePath(gen, path[1..]) == Ok([]);
    }
  }

  /** Every structural item shows a connected chain from its own symbol to the target's,
      as long as its true structural distance. */
  lemma ReportedWitness(
    gen: Generation, filter: CallerFilter, target: NodeId, maxDepth: nat,
    paths: seq<CallPath>, t: StructuralTraversal, id: NodeId)
    requires ExactImpact(gen.graph, target, maxDepth, t)
    requires Resolvable(gen, filter, paths, t.paths)
    requires id in AccountingOf(gen, filter, paths, t.paths).impacts && id in t.paths
    ensures target in gen.symbols
    ensures var impact := AccountingOf(gen, filter, paths, t.paths).impacts[id];
            && impact.structuralPath.Some?
            && AtDistance(gen.graph, id, target, |impact.structuralPath.value|)
            && Leads(impact.structuralPath.value, impact.symbol, gen.symbols[target])
  {
    ImpactKeys(gen, filter, paths, t.paths);
    DistanceRange(gen.graph, target, maxDepth, t, id);
    MaterializedChain(gen, t.paths[id], id, target);
    hide LastChain, MaterializePath, IsChain, AtDistance, Leads;
  }

  // ---- the completeness claim ----

  /** What the assessment knows about its own evidence. */
  datatype Authority = Authority(
    inventoryComplete: bool,
    structuralComplete: bool,
    callsApplicable: bool,
    evidence: Option<ExecutionEvidence>)

  function PopulationComplete(a: Authority, structuralCutoffs: nat): bool {
    var executionComplete := a.evidence.Some? && a.evidence.value.authorityComplete
      && a.evidence.value.depthCutoffNodes == 0;
    var referencePopulationComplete := a.callsApplicable && a.evidence.Some?;
    && a.inventoryComplete
    && a.structuralComplete
    && executionComplete
    && referencePopulationComplete
    && structuralCutoffs == 0
  }

  /** Completeness is claimed exactly when the inventory, the structural coverage and the calls
      authority are complete, calls apply, no call path was cut off and no node lies one step
      beyond the bound. */
  lemma CompleteIff(g: Graph, target: NodeId, maxDepth: nat, a: Authority, t: StructuralTraversal)
    requires ExactImpact(g, target, maxDepth, t)
    ensures PopulationComplete(a, |t.depthCutoffs|) <==>
      && a.inventoryComplete && a.structuralComplete && a.callsApplicable
      && a.evidence.Some? && a.evidence.value.authorityComplete && a.evidence.value.depthCutoffNodes == 0
      && var beyond := maxDepth + 1; forall v :: !AtDistance(g, v, target, beyond)
  {
    hide AtDistance;
    if t.depthCutoffs == {} {
      var beyond := maxDepth + 1;
      forall v ensures !AtDistance(g, v, target, beyond) { assert v !in t.depthCutoffs; }
    } else {
      var missed := Sets.Pick(t.depthCutoffs);
      assert AtDistance(g, missed, target, maxDepth + 1);
    }
  }

  /** A complete population leaves no transitive structural dependent and no provider
      caller unaccounted for: each is an item or filtered out, and never both. */
  lemma CompletePopulationCoversClosure(
    gen: Generation, filter: CallerFilter, target: NodeId, maxDepth: nat,
    a: Authority, t: StructuralTraversal)
    requires ExactImpact(gen.graph, target, maxDepth, t)
    requires Resolvable(gen, filter, EvidencePaths(a.evidence), t.paths)
    requires PopulationComplete(a, |t.depthCutoffs|)
    ensures var acc := AccountingOf(gen, filter, EvidencePaths(a.evidence), t.paths);
            && (forall v | v != target && Reaches(gen.graph, v, target) :: v in acc.impacts || v in acc.filteredOut)
            && (forall v | v in Callers(EvidencePaths(a.evidence)) :: v in acc.impacts || v in acc.filteredOut)
            && (forall v | v in acc.impacts :: v !in acc.filteredOut)
            && (forall v | v in acc.impacts || v in acc.filteredOut ::
                 (v != target && Reaches(gen.graph, v, target)) || v in Callers(EvidencePaths(a.evidence)))
  {
    assert t.depthCutoffs == {};
    ZeroCutoffIffClosure(gen.graph, target, maxDepth, t);
    AccountingPartition(gen, filter, EvidencePaths(a.evidence), t.paths);
    hide AccountingOf, Resolvable, ExactImpact, Reaches, Callers;
  }

  /** With a cutoff the claim is withheld, and rightly so: some transitive structural
      dependent is then neither an item nor filtered out, unless a call path found it. */
  lemma CutoffWithholdsClaim(
    gen: Generation, filter: CallerFilter, target: NodeId, maxDepth: nat,
    a: Authority, t: StructuralTraversal) returns (missed: NodeId)
    requires ExactImpact(gen.graph, target, maxDepth, t)
    requires Resolvable(gen, filter, EvidencePaths(a.evidence), t.paths)
    requires t.depthCutoffs != {}
    ensures !PopulationComplete(a, |t.depthCutoffs|)
    ensures missed != target && Reaches(gen.graph, missed, target)
      && AtDistance(gen.graph, missed, target, maxDepth + 1)
    ensures missed !in Callers(EvidencePaths(a.evidence)) ==>
      var acc := AccountingOf(gen, filter, EvidencePaths(a.evidence), t.paths);
      missed !in acc.impacts && missed !in acc.filteredOut
  {
    missed := Sets.Pick(t.depthCutoffs);
    assert t.depthCutoffs - {missed} + {missed} == t.depthCutoffs;
    assert AtDistance(gen.graph, missed, target, maxDepth + 1);
    assert IsChain(gen.graph, [], target, target);
    if missed in t.paths {
      DistanceRange(gen.graph, target, maxDepth, t, missed);
    }
    AccountingPartition(gen, filter, EvidencePaths(a.evidence), t.paths);
    hide AccountingOf, Resolvable, ExactImpact, Callers;
  }

  /** The whole assessment: traverse, merge, order. */
  method Assess(gen: Generation, filter: CallerFilter, target: NodeId, maxDepth: nat, a: Authority)
    returns (r: Option<(Accounting, seq<Item>, bool)>)
    requires target in gen.graph.nodes
    ensures r.Some? <==>
      var traversal := Traverse(gen.graph, target, maxDepth);
      traversal.Ok? && Resolvable(gen, filter, EvidencePaths(a.evidence), traversal.value.paths)
    ensures r.Some? ==>
      var (acc, items, complete) := r.value;
      var traversal := Traverse(gen.graph, target, maxDepth);
      && acc == AccountingOf(gen, filter, EvidencePaths(a.evidence), traversal.value.paths)
      && Presents(acc.impacts, items)
      && (complete <==>
           && a.inventoryComplete && a.structuralComplete && a.callsApplicable
           && a.evidence.Some? && a.evidence.value.authorityComplete && a.evidence.value.depthCutoffNodes == 0
           && var beyond := maxDepth + 1; forall v :: !AtDistance(gen.graph, v, target, beyond))
      && (complete
         ==> forall v | v != target && Reaches(gen.graph, v, target) :: v in acc.impacts || v in acc.filteredOut)
  {
    var traversal := CollectStructuralImpact(gen.graph, target, maxDepth);
    if traversal.Err? { return None; }
    var t := traversal.value;
    hide ExactImpact, Traverse;
    var merged := MergeImpacts(gen, filter, a.evidence, t.paths);
    if merged.Err? { return None; }
    hide AccountingOf, Resolvable, Reaches;
    var ids, items := OrderItems(merged.value.impacts);
    var complete := PopulationComplete(a, |t.depthCutoffs|);
    CompleteIff(gen.graph, target, maxDepth, a, t);
    if complete { CompletePopulationCoversClosure(gen, filter, target, maxDepth, a, t); }
    r := Some((merged.value, items, complete));
  }
}
