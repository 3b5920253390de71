/** Merging provider call paths with structural paths, filtering, counting, and the
    claim that the whole affected population was seen. */
module ImpactAccounting {
  import opened Wrappers
  import opened Bytes
  import opened StructuralGraph
  import Sets

  // ---- provider call paths ----

  datatype CallStep =
    | ExactInvocation
    | ExecutionRootInvocation(anonymousCallable: bool)
    | CallableValueBinding

  /** A possible-dispatch step, as opposed to an exact invocation record. */
  predicate IsQualified(step: CallStep) {
    match step
    case ExactInvocation => false
    case ExecutionRootInvocation(anonymous) => anonymous
    case CallableValueBinding => true
  }

  datatype CallPath = CallPath(caller: NodeId, depth: nat, chain: seq<CallStep>)

  predicate Qualified(path: CallPath) {
    exists s | s in path.chain :: IsQualified(s)
  }

  datatype ExecutionEvidence = ExecutionEvidence(
    paths: seq<CallPath>,
    depthCutoffNodes: nat,
    authorityComplete: bool)

  function EvidencePaths(evidence: Option<ExecutionEvidence>): seq<CallPath> {
    if evidence.Some? then evidence.value.paths else []
  }

  datatype CallerFilter = Live | All | DeadOnly | TestsOnly

  predicate FilterAdmits(filter: CallerFilter, reachability: Reachability) {
    match filter
    case All => true
    case Live => reachability != Dead && reachability != Orphan
    case DeadOnly => reachability == Dead || reachability == Orphan
    case TestsOnly => reachability == TestOnly
  }

  // ---- merged impact ----

  datatype Symbol = Symbol(documentPath: Text, name: Text, symbolId: Text)

  datatype ImpactStep = ImpactStep(dependent: Symbol, dependency: Symbol, relation: ImpactKind)

  datatype Impact = Impact(
    symbol: Symbol,
    reachability: Reachability,
    executionPath: Option<seq<CallStep>>,
    structuralPath: Option<seq<ImpactStep>>)

  datatype Accounting = Accounting(
    impacts: map<NodeId, Impact>,
    execution: set<NodeId>,
    exactOnly: set<NodeId>,
    qualifiedBinding: set<NodeId>,
    structural: set<NodeId>,
    filteredOut: set<NodeId>)

  datatype AccountingError = NodeDisappeared(id: NodeId) | SymbolUnavailable(id: NodeId)

  /** The immutable generation: its graph and the source identity of each node that has one. */
  datatype Generation = Generation(graph: Graph, symbols: map<NodeId, Symbol>)

  predicate Admits(gen: Generation, filter: CallerFilter, id: NodeId) {
    id in gen.graph.nodes && FilterAdmits(filter, gen.graph.nodes[id].reachability)
  }

  function MaterializeStep(gen: Generation, step: Step): Result<ImpactStep, AccountingError> {
    if step.dependent !in gen.graph.nodes then Err(NodeDisappeared(step.dependent))
    else if step.dependency !in gen.graph.nodes then Err(NodeDisappeared(step.dependency))
    else if step.dependent !in gen.symbols then Err(SymbolUnavailable(step.dependent))
    else if step.dependency !in gen.symbols then Err(SymbolUnavailable(step.dependency))
    else Ok(ImpactStep(gen.symbols[step.dependent], gen.symbols[step.dependency], step.kind))
  }

  /** A raw structural path with its nodes replaced by source identities. */
  function MaterializePath(gen: Generation, path: seq<Step>): (r: Result<seq<ImpactStep>, AccountingError>)
    ensures r.Ok? ==> |r.value| == |path|
  {
    if path == [] then Ok([])
    else
      var head := MaterializeStep(gen, path[0]);
      if head.Err? then Err(head.error)
      else
        var rest := MaterializePath(gen, path[1..]);
        if rest.Err? then rest else Ok([head.value] + rest.value)
  }

  // ---- what the two merging loops must produce ----

  ghost function Callers(paths: seq<CallPath>): set<NodeId> {
    set i | 0 <= i < |paths| :: paths[i].caller
  }

  ghost function CallersWhere(paths: seq<CallPath>, qualified: bool): set<NodeId> {
    set i | 0 <= i < |paths| && Qualified(paths[i]) == qualified :: paths[i].caller
  }

  /** The chain of the last path listed for a caller. */
  function LastChain(paths: seq<CallPath>, id: NodeId): Option<seq<CallStep>> {
    if paths == [] then None
    else if paths[|paths| - 1].caller == id then Some(paths[|paths| - 1].chain)
    else LastChain(paths[..|paths| - 1], id)
  }

  function StructuralChain(gen: Generation, structural: map<NodeId, seq<Step>>, id: NodeId): Option<seq<ImpactStep>> {
    if id !in structural then None
    else
      var m := MaterializePath(gen, structural[id]);
      if m.Ok? then Some(m.value) else None
  }

  ghost function Admitted(gen: Generation, filter: CallerFilter, ids: set<NodeId>): set<NodeId> {
    set id | id in ids && Admits(gen, filter, id)
  }

  ghost function Rejected(gen: Generation, filter: CallerFilter, ids: set<NodeId>): set<NodeId> {
    set id | id in ids && !Admits(gen, filter, id)
  }

  ghost function Merged(
    gen: Generation, paths: seq<CallPath>, structural: map<NodeId, seq<Step>>, ids: set<NodeId>): map<NodeId, Impact> {
    map id | id in ids && id in gen.graph.nodes && id in gen.symbols ::
      Impact(gen.symbols[id], gen.graph.nodes[id].reachability, LastChain(paths, id),
        StructuralChain(gen, structural, id))
  }

  /** The accounting of the call paths `paths` and of those structural paths whose node is in `seen`. */
  ghost function AccountingOf(
    gen: Generation, filter: CallerFilter, paths: seq<CallPath>, structural: map<NodeId, seq<Step>>): Accounting
  {
    Accounting(
      Merged(gen, paths, structural, Admitted(gen, filter, Callers(paths) + structural.Keys)),
      Admitted(gen, filter, Callers(paths)),
      Admitted(gen, filter, CallersWhere(paths, false)),
      Admitted(gen, filter, CallersWhere(paths, true)),
      Admitted(gen, filter, structural.Keys),
      Rejected(gen, filter, Callers(paths) + structural.Keys))
  }

  /** Every node named by the evidence is in the graph, and every admitted one and every
      node along an admitted structural path has a source identity. */
  ghost predicate Resolvable(
    gen: Generation, filter: CallerFilter, paths: seq<CallPath>, structural: map<NodeId, seq<Step>>) {
    && (forall id | id in Callers(paths) :: id in gen.graph.nodes && (Admits(gen, filter, id) ==> id in gen.symbols))
    && (forall id | id in structural :: id in gen.graph.nodes &&
         (Admits(gen, filter, id) ==> id in gen.symbols && MaterializePath(gen, structural[id]).Ok?))
  }

  // ---- the merging loops ----

  function EntryFor(gen: Generation, impacts: map<NodeId, Impact>, id: NodeId): Impact
    requires id in gen.graph.nodes && id in gen.symbols
  {
    if id in impacts then impacts[id]
    else Impact(gen.symbols[id], gen.graph.nodes[id].reachability, None, None)
  }

  /** Merge the provider's call paths with the structural paths. */
  method MergeImpacts(
    gen: Generation, filter: CallerFilter,
    evidence: Option<ExecutionEvidence>, structural: map<NodeId, seq<Step>>)
    returns (r: Result<Accounting, AccountingError>)
    ensures r.Ok? <==> Resolvable(gen, filter, EvidencePaths(evidence), structural)
    ensures r.Ok? ==> r.value == AccountingOf(gen, filter, EvidencePaths(evidence), structural)
  {
    var acc := Accounting(map[], {}, {}, {}, {}, {});
    var paths := EvidencePaths(evidence);
    EmptyAccounting(gen, filter);
    assert paths[..0] == [];
    for i := 0 to |paths|
      invariant acc == AccountingOf(gen, filter, paths[..i], map[])
      invariant Resolvable(gen, filter, paths[..i], map[])
    {
      hide AccountingOf, Resolvable;
      var id := paths[i].caller;
      if id !in gen.graph.nodes {
        CallStepFailed(gen, filter, paths, i, structural);
        return Err(NodeDisappeared(id));
      }
      if !FilterAdmits(filter, gen.graph.nodes[id].reachability) {
        CallStepTaken(gen, filter, paths, i);
        acc := acc.(filteredOut := acc.filteredOut + {id});
      } else {
        ghost var before := acc;
        acc := acc.(execution := acc.execution + {id});
        if Qualified(paths[i]) {
          acc := acc.(qualifiedBinding := acc.qualifiedBinding + {id});
        } else {
          acc := acc.(exactOnly := acc.exactOnly + {id});
        }
        if id !in gen.symbols {
          CallStepFailed(gen, filter, paths, i, structural);
          return Err(SymbolUnavailable(id));
        }
        CallStepTaken(gen, filter, paths, i);
        var entry := EntryFor(gen, acc.impacts, id).(executionPath := Some(paths[i].chain));
        acc := acc.(impacts := acc.impacts[id := entry]);
        assert acc == RecordCall(gen, filter, before, paths[i]);
      }
    }
    assert paths[..|paths|] == paths;
    var pending := structural.Keys;
    ghost var done: map<NodeId, seq<Step>> := map[];
    while pending != {}
      invariant pending <= structural.Keys
      invariant done == Restrict(structural, structural.Keys - pending)
      invariant acc == AccountingOf(gen, filter, paths, done)
      invariant Resolvable(gen, filter, paths, done)
      decreases pending
    {
      hide AccountingOf, Resolvable;
      var id := Smallest(pending);
      pending := pending - {id};
      assert Restrict(structural, structural.Keys - pending) == done[id := structural[id]];
      ghost var earlier := done;
      done := done[id := structural[id]];
      if id !in gen.graph.nodes {
        StructuralStepFailed(gen, filter, paths, structural, id);
        return Err(NodeDisappeared(id));
      }
      if !FilterAdmits(filter, gen.graph.nodes[id].reachability) {
        StructuralStepTaken(gen, filter, paths, earlier, id, structural[id]);
        acc := acc.(filteredOut := acc.filteredOut + {id});
      } else {
        ghost var before := acc;
        var path := MaterializePath(gen, structural[id]);
        if path.Err? {
          StructuralStepFailed(gen, filter, paths, structural, id);
          return Err(path.error);
        }
        acc := acc.(structural := acc.structural + {id});
        if id !in gen.symbols {
          StructuralStepFailed(gen, filter, paths, structural, id);
          return Err(SymbolUnavailable(id));
        }
        StructuralStepTaken(gen, filter, paths, earlier, id, structural[id]);
        var entry := EntryFor(gen, acc.impacts, id).(structuralPath := Some(path.value));
        acc := acc.(impacts := acc.impacts[id := entry]);
        assert acc == RecordStructural(gen, filter, before, id, structural[id]);
      }
    }
    assert done == structural;
    r := Ok(acc);
  }

  function Restrict(m: map<NodeId, seq<Step>>, ids: set<NodeId>): map<NodeId, seq<Step>> {
    map id | id in m && id in ids :: m[id]
  }

  /** The id a sorted map hands out first. */
  method Smallest(ids: set<NodeId>) returns (least: NodeId)
    requires ids != {}
    ensures least in ids
    ensures forall id | id in ids :: least <= id
  {
    ghost var any := Sets.Pick(ids);
    assert exists id :: id in ids by { assert any in ids; }
    least :| least in ids;
    var rest := ids - {least};
    while rest != {}
      invariant rest <= ids && least in ids
      invariant forall v | v in ids && v !in rest :: least <= v
      decreases rest
    {
      ghost var other := Sets.Pick(rest);
      assert exists id :: id in rest by { assert other in rest; }
      var id :| id in rest;
      rest := rest - {id};
      if id < least { least := id; }
    }
  }

  // ---- one call path ----

  lemma EmptyAccounting(gen: Generation, filter: CallerFilter)
    ensures AccountingOf(gen, filter, [], map[]) == Accounting(map[], {}, {}, {}, {}, {})
    ensures Resolvable(gen, filter, [], map[])
  {
  }

  lemma CallersSnoc(paths: seq<CallPath>, p: CallPath)
    ensures Callers(paths + [p]) == Callers(paths) + {p.caller}
    ensures CallersWhere(paths + [p], true) == CallersWhere(paths, true) + (if Qualified(p) then {p.caller} else {})
    ensures CallersWhere(paths + [p], false) == CallersWhere(paths, false) + (if Qualified(p) then {} else {p.caller})
  {
    var longer := paths + [p];
    assert longer[|paths|] == p;
    assert forall i | 0 <= i < |paths| :: longer[i] == paths[i];
  }

  /** What one call path contributes to the accounting. */
  function RecordCall(gen: Generation, filter: CallerFilter, acc: Accounting, p: CallPath): Accounting
    requires p.caller in gen.graph.nodes && (Admits(gen, filter, p.caller) ==> p.caller in gen.symbols)
  {
    var id := p.caller;
    if !Admits(gen, filter, id) then acc.(filteredOut := acc.filteredOut + {id})
    else
      var counted :=
        if Qualified(p)
        then acc.(execution := acc.execution + {id}, qualifiedBinding := acc.qualifiedBinding + {id})
        else acc.(execution := acc.execution + {id}, exactOnly := acc.exactOnly + {id});
      counted.(impacts := acc.impacts[id := EntryFor(gen, acc.impacts, id).(executionPath := Some(p.chain))])
  }

  lemma LastChainNone(paths: seq<CallPath>, id: NodeId)
    requires id !in Callers(paths)
    ensures LastChain(paths, id) == None
  {
    if paths != [] {
      assert paths[|paths| - 1].caller in Callers(paths);
      forall v | v in Callers(paths[..|paths| - 1]) ensures v in Callers(paths) { }
      LastChainNone(paths[..|paths| - 1], id);
    }
  }

  /** A later path of the same caller replaces an earlier one. */
  lemma {:induction false} LastListed(paths: seq<CallPath>, i: nat)
    requires i < |paths|
    requires forall j | i < j < |paths| :: paths[j].caller != paths[i].caller
    ensures LastChain(paths, paths[i].caller) == Some(paths[i].chain)
    decreases |paths|
  {
    if i < |paths| - 1 { LastListed(paths[..|paths| - 1], i); }
  }

  lemma CallStepResolvable(gen: Generation, filter: CallerFilter, paths: seq<CallPath>, i: nat)
    requires i < |paths|
    requires Resolvable(gen, filter, paths[..i], map[])
    requires var id := paths[i].caller; id in gen.graph.nodes && (Admits(gen, filter, id) ==> id in gen.symbols)
    ensures Resolvable(gen, filter, paths[..i + 1], map[])
  {
    hide CallersWhere;
    assert paths[..i + 1] == paths[..i] + [paths[i]];
    CallersSnoc(paths[..i], paths[i]);
    hide Callers;
  }

  lemma CallStepTaken(gen: Generation, filter: CallerFilter, paths: seq<CallPath>, i: nat)
    requires i < |paths|
    requires Resolvable(gen, filter, paths[..i], map[])
    requires var id := paths[i].caller; id in gen.graph.nodes && (Admits(gen, filter, id) ==> id in gen.symbols)
    ensures Resolvable(gen, filter, paths[..i + 1], map[])
    ensures AccountingOf(gen, filter, paths[..i + 1], map[])
         == RecordCall(gen, filter, AccountingOf(gen, filter, paths[..i], map[]), paths[i])
  {
    CallStepResolvable(gen, filter, paths, i);
    CallStepSets(gen, filter, paths[..i], paths[i]);
    CallStepMerged(gen, filter, paths[..i], paths[i]);
    assert paths[..i + 1] == paths[..i] + [paths[i]];
    NoStructural(gen, filter, paths[..i]);
    NoStructural(gen, filter, paths[..i + 1]);
    hide Resolvable, AccountingOf, Callers, CallersWhere, Admitted, Merged, Qualified;
  }

  lemma NoStructural(gen: Generation, filter: CallerFilter, paths: seq<CallPath>)
    ensures AccountingOf(gen, filter, paths, map[]) == Accounting(
      Merged(gen, paths, map[], Admitted(gen, filter, Callers(paths))),
      Admitted(gen, filter, Callers(paths)),
      Admitted(gen, filter, CallersWhere(paths, false)),
      Admitted(gen, filter, CallersWhere(paths, true)),
      {},
      Rejected(gen, filter, Callers(paths)))
  {
    var none: map<NodeId, seq<Step>> := map[];
    assert Callers(paths) + none.Keys == Callers(paths);
    hide Callers, Merged;
  }

  lemma CallStepSets(gen: Generation, filter: CallerFilter, before: seq<CallPath>, p: CallPath)
    ensures var one := if Admits(gen, filter, p.caller) then {p.caller} else {};
            && Admitted(gen, filter, Callers(before + [p])) == Admitted(gen, filter, Callers(before)) + one
            && Admitted(gen, filter, CallersWhere(before + [p], true))
               == Admitted(gen, filter, CallersWhere(before, true)) + (if Qualified(p) then one else {})
            && Admitted(gen, filter, CallersWhere(before + [p], false))
               == Admitted(gen, filter, CallersWhere(before, false)) + (if Qualified(p) then {} else one)
    ensures Rejected(gen, filter, Callers(before + [p]))
         == Rejected(gen, filter, Callers(before)) + (if Admits(gen, filter, p.caller) then {} else {p.caller})
  {
    CallersSnoc(before, p);
    AdmittedOne(gen, filter, Callers(before), p.caller);
    AdmittedOne(gen, filter, CallersWhere(before, true), p.caller);
    AdmittedOne(gen, filter, CallersWhere(before, false), p.caller);
    hide Callers, CallersWhere, Qualified;
    assert CallersWhere(before, true) + {} == CallersWhere(before, true);
    assert CallersWhere(before, false) + {} == CallersWhere(before, false);
    hide Admitted;
    assert forall s: set<NodeId> :: s + {} == s;
  }

  lemma CallStepMerged(gen: Generation, filter: CallerFilter, before: seq<CallPath>, p: CallPath)
    requires p.caller in gen.graph.nodes && (Admits(gen, filter, p.caller) ==> p.caller in gen.symbols)
    ensures var ids := Admitted(gen, filter, Callers(before));
            var prior := Merged(gen, before, map[], ids);
            Merged(gen, before + [p], map[], Admitted(gen, filter, Callers(before + [p])))
            == if Admits(gen, filter, p.caller)
               then prior[p.caller := EntryFor(gen, prior, p.caller).(executionPath := Some(p.chain))]
               else prior
  {
    var ids := Admitted(gen, filter, Callers(before));
    CallStepSets(gen, filter, before, p);
    if Admits(gen, filter, p.caller) {
      MergedCall(gen, before, p, ids);
    } else {
      MergedCallFiltered(gen, before, p, ids);
    }
    hide Callers, CallersWhere, Admitted, Merged, Rejected, Qualified;
    assert ids + {} == ids;
  }

  lemma AdmittedOne(gen: Generation, filter: CallerFilter, ids: set<NodeId>, id: NodeId)
    ensures Admitted(gen, filter, ids + {id})
      == Admitted(gen, filter, ids) + (if Admits(gen, filter, id) then {id} else {})
    ensures Rejected(gen, filter, ids + {id})
         == Rejected(gen, filter, ids) + (if Admits(gen, filter, id) then {} else {id})
  {
  }

  lemma LastChainSnoc(paths: seq<CallPath>, p: CallPath, id: NodeId)
    ensures LastChain(paths + [p], id) == if id == p.caller then Some(p.chain) else LastChain(paths, id)
  {
    assert (paths + [p])[..|paths|] == paths;
  }

  lemma MergedCall(gen: Generation, paths: seq<CallPath>, p: CallPath, ids: set<NodeId>)
    requires p.caller in gen.graph.nodes && p.caller in gen.symbols
    ensures var before := Merged(gen, paths, map[], ids);
            Merged(gen, paths + [p], map[], ids + {p.caller})
            == before[p.caller := EntryFor(gen, before, p.caller).(executionPath := Some(p.chain))]
  {
    hide LastChain;
    forall id { LastChainSnoc(paths, p, id); }
  }

  lemma MergedCallFiltered(gen: Generation, paths: seq<CallPath>, p: CallPath, ids: set<NodeId>)
    requires p.caller !in ids
    ensures Merged(gen, paths + [p], map[], ids) == Merged(gen, paths, map[], ids)
  {
    hide LastChain;
    forall id { LastChainSnoc(paths, p, id); }
  }

  lemma CallStepFailed(
    gen: Generation, filter: CallerFilter, paths: seq<CallPath>, i: nat, structural: map<NodeId, seq<Step>>)
    requires i < |paths|
    requires var id := paths[i].caller; id !in gen.graph.nodes || (Admits(gen, filter, id) && id !in gen.symbols)
    ensures !Resolvable(gen, filter, paths, structural)
  {
    assert paths[i].caller in Callers(paths);
  }

  // ---- one structural path ----

  /** What one structural path contributes to the accounting. */
  function RecordStructural(
    gen: Generation, filter: CallerFilter, acc: Accounting, id: NodeId, path: seq<Step>): Accounting
    requires id in gen.graph.nodes
    requires Admits(gen, filter, id) ==> id in gen.symbols && MaterializePath(gen, path).Ok?
  {
    if !Admits(gen, filter, id) then acc.(filteredOut := acc.filteredOut + {id})
    else
      var entry := EntryFor(gen, acc.impacts, id).(structuralPath := Some(MaterializePath(gen, path).value));
      acc.(structural := acc.structural + {id}, impacts := acc.impacts[id := entry])
  }

  lemma StructuralStepResolvable(
    gen: Generation, filter: CallerFilter, paths: seq<CallPath>, done: map<NodeId, seq<Step>>, id: NodeId,
    path: seq<Step>)
    requires Resolvable(gen, filter, paths, done)
    requires id in gen.graph.nodes
    requires Admits(gen, filter, id) ==> id in gen.symbols && MaterializePath(gen, path).Ok?
    ensures Resolvable(gen, filter, paths, done[id := path])
  {
    hide Callers, MaterializePath;
  }

  lemma StructuralStepTaken(
    gen: Generation, filter: CallerFilter, paths: seq<CallPath>, done: map<NodeId, seq<Step>>, id: NodeId,
    path: seq<Step>)
    requires id !in done
    requires Resolvable(gen, filter, paths, done)
    requires id in gen.graph.nodes
    requires Admits(gen, filter, id) ==> id in gen.symbols && MaterializePath(gen, path).Ok?
    ensures Resolvable(gen, filter, paths, done[id := path])
    ensures AccountingOf(gen, filter, paths, done[id := path])
         == RecordStructural(gen, filter, AccountingOf(gen, filter, paths, done), id, path)
  {
    StructuralStepResolvable(gen, filter, paths, done, id, path);
    var known := Callers(paths) + done.Keys;
    assert done[id := path].Keys == done.Keys + {id};
    assert Callers(paths) + (done.Keys + {id}) == known + {id};
    AdmittedOne(gen, filter, done.Keys, id);
    AdmittedOne(gen, filter, known, id);
    StructuralStepMerged(gen, filter, paths, done, id, path);
    hide Resolvable, Callers, CallersWhere, Admitted, Rejected, Merged, MaterializePath;
  }

  lemma StructuralStepMerged(
    gen: Generation, filter: CallerFilter, paths: seq<CallPath>, done: map<NodeId, seq<Step>>, id: NodeId,
    path: seq<Step>)
    requires id !in done && id in gen.graph.nodes
    requires Admits(gen, filter, id) ==> id in gen.symbols && MaterializePath(gen, path).Ok?
    ensures var known := Callers(paths) + done.Keys;
            var prior := Merged(gen, paths, done, Admitted(gen, filter, known));
            Merged(gen, paths, done[id := path], Admitted(gen, filter, known + {id}))
            == if Admits(gen, filter, id)
               then prior[id := EntryFor(gen, prior, id).(structuralPath := Some(MaterializePath(gen, path).value))]
               else prior
  {
    var known := Callers(paths) + done.Keys;
    var ids := Admitted(gen, filter, known);
    AdmittedOne(gen, filter, known, id);
    if id !in Callers(paths) { LastChainNone(paths, id); }
    if Admits(gen, filter, id) {
      MergedStructural(gen, paths, done, id, path, ids);
    } else {
      MergedStructuralFiltered(gen, paths, done, id, path, ids);
    }
    hide Callers, Admitted, Merged, Rejected, MaterializePath;
    assert ids + {} == ids;
  }

  lemma MergedStructural(
    gen: Generation, paths: seq<CallPath>, done: map<NodeId, seq<Step>>, id: NodeId, path: seq<Step>, ids: set<NodeId>)
    requires id in gen.graph.nodes && id in gen.symbols && MaterializePath(gen, path).Ok?
    requires id !in ids ==> LastChain(paths, id) == None
    requires id !in done
    ensures var before := Merged(gen, paths, done, ids);
            Merged(gen, paths, done[id := path], ids + {id})
            == before[id := EntryFor(gen, before, id).(structuralPath := Some(MaterializePath(gen, path).value))]
  {
    hide LastChain, MaterializePath;
  }

  lemma MergedStructuralFiltered(
    gen: Generation, paths: seq<CallPath>, done: map<NodeId, seq<Step>>, id: NodeId, path: seq<Step>, ids: set<NodeId>)
    requires id !in ids
    ensures Merged(gen, paths, done[id := path], ids) == Merged(gen, paths, done, ids)
  {
    hide LastChain, MaterializePath;
  }

  lemma StructuralStepFailed(
    gen: Generation, filter: CallerFilter, paths: seq<CallPath>, structural: map<NodeId, seq<Step>>, id: NodeId)
    requires id in structural
    requires id in gen.graph.nodes && Admits(gen, filter, id)
      ==> MaterializePath(gen, structural[id]).Err? || id !in gen.symbols
    requires id !in gen.graph.nodes || Admits(gen, filter, id)
    ensures !Resolvable(gen, filter, paths, structural)
  {
  }

  // ---- what the accounting means ----

  /** Items and filtered-out symbols split the union of both path populations, and the
      items are exactly what either population admitted. */
  lemma AccountingPartition(
    gen: Generation, filter: CallerFilter, paths: seq<CallPath>, structural: map<NodeId, seq<Step>>)
    requires Resolvable(gen, filter, paths, structural)
    ensures var acc := AccountingOf(gen, filter, paths, structural);
            && acc.impacts.Keys !! acc.filteredOut
            && acc.impacts.Keys + acc.filteredOut == Callers(paths) + structural.Keys
            && |acc.impacts| + |acc.filteredOut| == |Callers(paths) + structural.Keys|
            && acc.impacts.Keys == acc.execution + acc.structural
  {
    var acc := AccountingOf(gen, filter, paths, structural);
    var known := Callers(paths) + structural.Keys;
    ImpactKeys(gen, filter, paths, structural);
    AdmittedSplit(gen, filter, Callers(paths), structural.Keys);
    hide Callers, Resolvable, Merged, Admitted, Rejected;
    Sets.MapSize(acc.impacts);
    hide AccountingOf;
    Sets.SplitSize(acc.impacts.Keys, acc.filteredOut, known);
  }

  lemma AdmittedSplit(gen: Generation, filter: CallerFilter, a: set<NodeId>, b: set<NodeId>)
    ensures Admitted(gen, filter, a + b) !! Rejected(gen, filter, a + b)
    ensures Admitted(gen, filter, a + b) + Rejected(gen, filter, a + b) == a + b
    ensures Admitted(gen, filter, a + b) == Admitted(gen, filter, a) + Admitted(gen, filter, b)
  {
  }

  lemma ImpactKeys(gen: Generation, filter: CallerFilter, paths: seq<CallPath>, structural: map<NodeId, seq<Step>>)
    requires Resolvable(gen, filter, paths, structural)
    ensures AccountingOf(gen, filter, paths, structural).impacts.Keys
         == Admitted(gen, filter, Callers(paths) + structural.Keys)
  {
    hide Callers, MaterializePath, LastChain, StructuralChain;
  }

  // ---- what one symbol's entry says ----

  /** Whom a filter admits: everyone, everyone but the dead, only the dead, or only tests. */
  ghost predicate Wanted(filter: CallerFilter, reachability: Reachability) {
    || filter == All
    || (filter == Live && reachability !in {Dead, Orphan})
    || (filter == DeadOnly && reachability in {Dead, Orphan})
    || (filter == TestsOnly && reachability == TestOnly)
  }

  /** A call path of `id` some step of which binds a value or goes through an anonymous
      callable, or none of whose steps does. */
  ghost predicate CalledBy(paths: seq<CallPath>, id: NodeId, possiblyOnly: bool) {
    exists i | 0 <= i < |paths| :: paths[i].caller == id && (possiblyOnly <==>
      exists s | s in paths[i].chain :: s.CallableValueBinding? || (s.ExecutionRootInvocation? && s.anonymousCallable))
  }

  /** Which populations a symbol is counted in. */
  lemma CountedIn(
    gen: Generation, filter: CallerFilter, paths: seq<CallPath>, structural: map<NodeId, seq<Step>>, id: NodeId)
    requires id in gen.graph.nodes && id in gen.symbols
    ensures var acc := AccountingOf(gen, filter, paths, structural);
            var wanted := Wanted(filter, gen.graph.nodes[id].reachability);
            var called := exists i | 0 <= i < |paths| :: paths[i].caller == id;
            && (id in acc.impacts <==> wanted && (called || id in structural))
            && (id in acc.filteredOut <==> !wanted && (called || id in structural))
            && (id in acc.execution <==> wanted && called)
            && (id in acc.exactOnly <==> wanted && CalledBy(paths, id, false))
            && (id in acc.qualifiedBinding <==> wanted && CalledBy(paths, id, true))
            && (id in acc.structural <==> wanted && id in structural)
  {
    forall i | 0 <= i < |paths|
      ensures Qualified(paths[i]) <==> exists s | s in paths[i].chain ::
        s.CallableValueBinding? || (s.ExecutionRootInvocation? && s.anonymousCallable) { }
    hide LastChain, StructuralChain, Qualified;
  }

  /** What the entry of a symbol holds: its own identity and reachability, the chain of the
      path listed last for it, and the structural path step for step. */
  lemma EntryHolds(
    gen: Generation, filter: CallerFilter, paths: seq<CallPath>, structural: map<NodeId, seq<Step>>, id: NodeId)
    requires Resolvable(gen, filter, paths, structural)
    requires id in AccountingOf(gen, filter, paths, structural).impacts
    ensures var impact := AccountingOf(gen, filter, paths, structural).impacts[id];
            && id in gen.symbols && impact.symbol == gen.symbols[id]
            && id in gen.graph.nodes && impact.reachability == gen.graph.nodes[id].reachability
            && (impact.executionPath.Some? <==> exists i | 0 <= i < |paths| :: paths[i].caller == id)
            && (forall i | 0 <= i < |paths| && paths[i].caller == id ::
                 (forall j | i < j < |paths| :: paths[j].caller != id) ==> impact.executionPath == Some(paths[i].chain))
            && (impact.structuralPath.Some? <==> id in structural)
            && (id in structural ==> Materialized(gen, structural[id], impact.structuralPath.value))
  {
    ImpactKeys(gen, filter, paths, structural);
    if id !in Callers(paths) { LastChainNone(paths, id); }
    forall i | 0 <= i < |paths| && paths[i].caller == id && forall j | i < j < |paths| :: paths[j].caller != id
      ensures LastChain(paths, id) == Some(paths[i].chain)
    {
      LastListed(paths, i);
    }
    if id in Callers(paths) { ListedHasChain(paths, id); }
    hide LastChain, CallersWhere;
    if id in structural { MaterializedSteps(gen, structural[id]); }
    hide MaterializePath;
  }

  lemma {:induction false} ListedHasChain(paths: seq<CallPath>, id: NodeId)
    requires id in Callers(paths)
    ensures LastChain(paths, id).Some?
    decreases |paths|
  {
    var last := |paths| - 1;
    if paths[last].caller != id {
      var i :| 0 <= i < |paths| && paths[i].caller == id;
      assert paths[..last][i].caller == id;
      ListedHasChain(paths[..last], id);
    }
  }

  /** The same steps between the nodes' source identities. */
  ghost predicate Materialized(gen: Generation, path: seq<Step>, shown: seq<ImpactStep>) {
    && |shown| == |path|
    && forall k | 0 <= k < |path| ::
         && path[k].dependent in gen.symbols && shown[k].dependent == gen.symbols[path[k].dependent]
         && path[k].dependency in gen.symbols && shown[k].dependency == gen.symbols[path[k].dependency]
         && shown[k].relation == path[k].kind
  }

  lemma {:induction false} MaterializedSteps(gen: Generation, path: seq<Step>)
    ensures MaterializePath(gen, path).Ok? <==> forall k | 0 <= k < |path| ::
      && path[k].dependent in gen.graph.nodes && path[k].dependent in gen.symbols
      && path[k].dependency in gen.graph.nodes && path[k].dependency in gen.symbols
    ensures MaterializePath(gen, path).Ok? ==> Materialized(gen, path, MaterializePath(gen, path).value)
  {
    if path != [] {
      MaterializedSteps(gen, path[1..]);
      assert path == [path[0]] + path[1..];
    }
  }

  /** Nothing else is asked of a generation than that it knows every node the evidence names,
      and names every symbol that will be shown. */
  lemma ResolvableIff(gen: Generation, filter: CallerFilter, paths: seq<CallPath>, structural: map<NodeId, seq<Step>>)
    ensures Resolvable(gen, filter, paths, structural) <==>
      && (forall i | 0 <= i < |paths| :: Nameable(gen, filter, paths[i].caller))
      && (forall id | id in structural ::
           && Nameable(gen, filter, id)
           && (Wanted(filter, gen.graph.nodes[id].reachability) ==>
                forall k | 0 <= k < |structural[id]| ::
                  Known(gen, structural[id][k].dependent) && Known(gen, structural[id][k].dependency)))
  {
    forall id | id in structural {
      MaterializedSteps(gen, structural[id]);
    }
    hide MaterializePath;
    assert forall i | 0 <= i < |paths| :: paths[i].caller in Callers(paths);
  }

  ghost predicate Known(gen: Generation, id: NodeId) {
    id in gen.graph.nodes && id in gen.symbols
  }

  ghost predicate Nameable(gen: Generation, filter: CallerFilter, id: NodeId) {
    id in gen.graph.nodes && (Wanted(filter, gen.graph.nodes[id].reachability) ==> id in gen.symbols)
  }

  /** The provider lists each caller once, with a chain as long as its depth. */
  ghost predicate WellFormedEvidence(paths: seq<CallPath>, maxDepth: nat) {
    && (forall i, j | 0 <= i < j < |paths| :: paths[i].caller != paths[j].caller)
    && (forall i | 0 <= i < |paths| :: |paths[i].chain| == paths[i].depth && 1 <= paths[i].depth <= maxDepth)
  }

  /** An admitted caller that is listed both with a qualified and with an exact path. */
  ghost predicate Ambiguous(gen: Generation, filter: CallerFilter, paths: seq<CallPath>, i: nat, j: nat) {
    && i < |paths| && j < |paths|
    && paths[i].caller == paths[j].caller && Admits(gen, filter, paths[i].caller)
    && Qualified(paths[i]) && !Qualified(paths[j])
  }

  /** Exact-only and qualified-binding symbols cover the execution population; their
      counts add up to it exactly when no caller is ambiguous. */
  lemma ExactAndQualified(
    gen: Generation, filter: CallerFilter, paths: seq<CallPath>, structural: map<NodeId, seq<Step>>)
    ensures var acc := AccountingOf(gen, filter, paths, structural);
            && acc.exactOnly + acc.qualifiedBinding == acc.execution
            && (|acc.exactOnly| + |acc.qualifiedBinding| == |acc.execution| <==>
                forall i: nat, j: nat :: !Ambiguous(gen, filter, paths, i, j))
  {
    BothIffAmbiguous(gen, filter, paths, structural);
    hide AccountingOf, Ambiguous;
    var acc := AccountingOf(gen, filter, paths, structural);
    Sets.CoverSize(acc.exactOnly, acc.qualifiedBinding);
  }

  lemma BothIffAmbiguous(
    gen: Generation, filter: CallerFilter, paths: seq<CallPath>, structural: map<NodeId, seq<Step>>)
    ensures var acc := AccountingOf(gen, filter, paths, structural);
            && acc.exactOnly + acc.qualifiedBinding == acc.execution
            && (acc.exactOnly * acc.qualifiedBinding == {}
               <==> forall i: nat, j: nat :: !Ambiguous(gen, filter, paths, i, j))
  {
    var acc := AccountingOf(gen, filter, paths, structural);
    hide Qualified, Merged, Rejected;
    if acc.exactOnly * acc.qualifiedBinding != {} {
      var id := Sets.Pick(acc.exactOnly * acc.qualifiedBinding);
      var i: nat :| i < |paths| && Qualified(paths[i]) && paths[i].caller == id;
      var j: nat :| j < |paths| && !Qualified(paths[j]) && paths[j].caller == id;
      assert Ambiguous(gen, filter, paths, i, j);
    }
    if i: nat, j: nat :| Ambiguous(gen, filter, paths, i, j) {
      assert paths[i].caller in acc.exactOnly * acc.qualifiedBinding;
    }
  }

  lemma WellFormedEvidenceSplits(
    gen: Generation, filter: CallerFilter, paths: seq<CallPath>, structural: map<NodeId, seq<Step>>, maxDepth: nat)
    requires WellFormedEvidence(paths, maxDepth)
    ensures var acc := AccountingOf(gen, filter, paths, structural);
            |acc.exactOnly| + |acc.qualifiedBinding| == |acc.execution|
  {
    ExactAndQualified(gen, filter, paths, structural);
    hide AccountingOf, Qualified;
  }
}
