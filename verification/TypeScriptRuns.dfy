/** What holds over every run of one TypeScript provider process. */
module TypeScriptRuns {
  import opened Wrappers
  import opened Bytes
  import opened ProviderProtocol
  import opened TypeScriptProtocol
  import Sorting

  // ---- the invariant of an open session ----

  /** Every path has a source, its bytes and a version, and the bytes have the recorded digest. */
  ghost predicate Retained(cfg: Config, e: EngineState) {
    && Keyed(e.sources)
    && e.sourceBytes.Keys == e.sources.Keys
    && e.versions.Keys == e.sources.Keys
    && forall p | p in e.sources :: p in e.sourceBytes && cfg.sha256(e.sourceBytes[p]) == e.sources[p].contentSha
  }

  ghost predicate Consistent(cfg: Config, s: SessionState) {
    && s.engine.live
    && Retained(cfg, s.engine)
    && s.engine.compilerText == s.engine.sourceBytes
    && MapSha(cfg.sha256, s.engine.sources) == Some(s.authority.populationSha)
    && s.authority.workspaceResolutionSha.Some? && s.authority.semanticInputsSha.Some?
  }

  // ---- opening establishes it ----

  lemma OpenRetains(cfg: Config, w: World, b: OpenBody)
    requires Keyed(SourceMap(b.sources)) && Lists(b.sources, SourceMap(b.sources))
    requires forall s | s in b.sources :: AdmissibleSource(cfg, w, s)
    requires w.evidenceAtOpen.Some? && cfg.semanticSha(w.evidenceAtOpen.value.semanticInputs).Some?
    ensures Retained(cfg, OpenedSession(cfg, w, b).engine)
  {
    var m := SourceMap(b.sources);
    hide SourceMap, SafeDocumentPath;
    forall p | p in m ensures AdmissibleSource(cfg, w, m[p]) && m[p].documentPath == p {
      assert m[p] in b.sources;
    }
    hide Lists;
    assert ReadAll(w, m.Keys).Keys == m.Keys;
  }

  lemma OpenConsistent(cfg: Config, sessionId: Text, w: World, b: OpenBody)
    requires OpenAdmissible(cfg, sessionId, w, b)
    ensures Consistent(cfg, OpenedSession(cfg, w, b))
    ensures OpenedSession(cfg, w, b).engine.sources == SourceMap(b.sources)
  {
    SourceMapLists(b.sources);
    hide Lists, Keyed, SourceMap, PopulationSha, MapSha, AdmissibleSource, Retained, ReadAll;
    OpenRetains(cfg, w, b);
    MapShaByListing(cfg.sha256, SourceMap(b.sources), b.sources);
    hide ValidOpenAuthority;
  }

  // ---- an accepted epoch keeps it ----

  lemma ReplacementsPrefix(base: EngineState, changes: seq<SourceChange>, attachments: seq<seq<byte>>)
    requires changes != []
    ensures var n, rs := |changes| - 1, Replacements(base, changes, attachments);
            rs[..n] == Replacements(base, changes[..n], attachments)
              && rs[n] == ReplacementOf(base, changes[n], attachments)
  {
    hide ReplacementOf;
  }

  lemma {:induction false} CommittedEpoch(
    cfg: Config, base: EngineState, e: EngineState, changes: seq<SourceChange>, attachments: seq<seq<byte>>)
    requires Retained(cfg, e) && e.sources.Keys == base.sources.Keys
    requires forall i | 0 <= i < |changes| :: ValidChange(cfg, base.sources, changes[i], attachments)
    ensures var rs := Replacements(base, changes, attachments);
            var e' := Committed(e, rs);
            && Retained(cfg, e')
            && e'.sources == Override(e.sources, changes)
            && e'.sources.Keys == e.sources.Keys
            && e'.live == e.live && e'.compilerText == e.compilerText
            && e'.sourceBytes == Told(e.sourceBytes, rs)
  {
    hide Retained, ReplacementOf, ValidChange;
    var rs := Replacements(base, changes, attachments);
    if changes == [] {
      assert rs == [];
    } else {
      var n := |changes| - 1;
      ReplacementsPrefix(base, changes, attachments);
      assert ValidChange(cfg, base.sources, changes[n], attachments);
      LastReplacement(cfg, base, changes[n], attachments);
      hide Replacements;
      CommittedEpoch(cfg, base, e, changes[..n], attachments);
      CommittedOne(cfg, Committed(e, rs[..n]), rs[n]);
    }
  }

  lemma LastReplacement(cfg: Config, base: EngineState, c: SourceChange, attachments: seq<seq<byte>>)
    requires ValidChange(cfg, base.sources, c, attachments)
    ensures var r := ReplacementOf(base, c, attachments);
            && r.path == c.documentPath && r.path in base.sources && r.next == NextSource(c)
            && cfg.sha256(r.bytes) == r.next.contentSha
  {
  }

  lemma CommittedOne(cfg: Config, e: EngineState, r: Replacement)
    requires Retained(cfg, e) && r.path in e.sources
    requires r.next.documentPath == r.path && cfg.sha256(r.bytes) == r.next.contentSha
    ensures var e' := e.(
              sources := e.sources[r.path := r.next],
              sourceBytes := e.sourceBytes[r.path := r.bytes],
              versions := e.versions[r.path := r.version]);
            Retained(cfg, e') && e'.sources.Keys == e.sources.Keys
  {
  }

  lemma {:induction false} LeadingAll(rs: seq<Replacement>, good: (int, Replacement) -> bool, from: int)
    ensures Leading(rs, good, from) == |rs| <==> forall i | 0 <= i < |rs| :: good(from + i, rs[i])
  {
    if rs != [] {
      LeadingAll(rs[1..], good, from + 1);
      if Leading(rs, good, from) == |rs| {
        forall i | 0 <= i < |rs| ensures good(from + i, rs[i]) {
          if i > 0 { assert rs[1..][i - 1] == rs[i]; }
        }
      }
      if forall i | 0 <= i < |rs| :: good(from + i, rs[i]) {
        assert good(from + 0, rs[0]);
        forall i | 0 <= i < |rs[1..]| ensures good(from + 1 + i, rs[1..][i]) {
          assert good(from + (i + 1), rs[i + 1]);
        }
      }
    }
  }

  /** Replacing succeeds exactly when the session is live, something is replaced, every
      replacement is UTF-8 and every project reload succeeds; then it does all of it. */
  lemma ReplacementsSucceedIff(e: EngineState, rs: seq<Replacement>, isUtf8: seq<byte> -> bool, refreshes: int -> bool)
    ensures var (e', ok) := AfterReplacements(e, rs, isUtf8, refreshes);
            && (ok <==> (
                 && e.live && rs != []
                 && (forall i | 0 <= i < |rs| :: isUtf8(rs[i].bytes))
                 && (forall i | 0 <= i < |rs| :: refreshes(i))))
            && (ok ==> e' == Committed(e.(compilerText := Told(e.compilerText, rs)), rs))
  {
    LeadingUtf8(rs, isUtf8);
    LeadingReloads(rs, refreshes);
    hide Leading, Committed, Told;
    assert rs[..|rs|] == rs;
  }

  lemma LeadingUtf8(rs: seq<Replacement>, isUtf8: seq<byte> -> bool)
    ensures Leading(rs, (i: int, r: Replacement) => isUtf8(r.bytes), 0) == |rs|
      <==> forall i | 0 <= i < |rs| :: isUtf8(rs[i].bytes)
  {
    var utf8 := (i: int, r: Replacement) => isUtf8(r.bytes);
    LeadingAll(rs, utf8, 0);
    hide Leading;
    assert forall i | 0 <= i < |rs| :: utf8(0 + i, rs[i]) == isUtf8(rs[i].bytes);
  }

  lemma LeadingReloads(rs: seq<Replacement>, refreshes: int -> bool)
    ensures Leading(rs, (i: int, r: Replacement) => refreshes(i), 0) == |rs|
      <==> forall i | 0 <= i < |rs| :: refreshes(i)
  {
    var reloads := (i: int, r: Replacement) => refreshes(i);
    LeadingAll(rs, reloads, 0);
    hide Leading;
    assert forall i | 0 <= i < |rs| :: reloads(0 + i, rs[i]) == refreshes(0 + i);
    if forall i | 0 <= i < |rs| :: reloads(0 + i, rs[i]) {
      forall i | 0 <= i < |rs| ensures refreshes(i) { assert reloads(0 + i, rs[i]); }
    }
  }

  /** An accepted epoch overrides the sources in order, keeps the source domain and moves
      to exactly the announced authority; the session stays consistent. */
  lemma EpochConsistent(cfg: Config, s: SessionState, b: EpochBody, attachments: seq<seq<byte>>, w: World)
    requires Consistent(cfg, s)
    requires AfterEpoch(cfg, s, b, attachments, w).1
    ensures var s' := AfterEpoch(cfg, s, b, attachments, w).0;
            && Consistent(cfg, s')
            && s'.engine.sources == Override(s.engine.sources, b.changes)
            && s'.engine.sources.Keys == s.engine.sources.Keys
            && s'.authority == b.next
            && b.previous == s.authority
            && b.next == s.authority.(populationSha := b.next.populationSha, sourceEpoch := s.authority.sourceEpoch + 1)
  {
    var rs := Replacements(s.engine, b.changes, attachments);
    var told := s.engine.(compilerText := Told(s.engine.compilerText, rs));
    ReplacementsSucceedIff(s.engine, rs, cfg.isUtf8, w.refreshes);
    hide AfterReplacements, Replacements, MapSha, ValidChange, ClaimsDistinct;
    CommittedEpoch(cfg, s.engine, told, b.changes, attachments);
    hide Retained;
  }

  // ---- the attachments of an epoch ----

  /** The attachments of an accepted epoch and its changes correspond one to one: every
      change names an attachment with the digest it announces, no attachment is named
      twice and none is left over. */
  lemma EpochAttachmentsBijective(cfg: Config, s: SessionState, b: EpochBody, attachments: seq<seq<byte>>)
    requires EpochAdmissible(cfg, s, b, attachments)
    ensures forall i | 0 <= i < |b.changes| ::
      0 <= b.changes[i].attachmentIndex < |attachments|
      && cfg.sha256(attachments[b.changes[i].attachmentIndex]) == b.changes[i].contentSha
    ensures forall k :: k in ClaimedBy(b.changes) <==> 0 <= k < |attachments|
    ensures forall i, j | 0 <= i < |b.changes| && 0 <= j < |b.changes| ::
      b.changes[i].attachmentIndex == b.changes[j].attachmentIndex ==> i == j
  {
    forall i | 0 <= i < |b.changes| ensures ValidChange(cfg, s.engine.sources, b.changes[i], attachments) { }
    hide MapSha;
    ClaimedSize(b.changes);
    SubsetSameSize(ClaimedBy(b.changes), UpTo(|attachments|));
  }

  // ---- one request ----

  /** The session survives a request unless the reply closes the process. */
  ghost predicate Healthy(cfg: Config, s: ProviderState) {
    s.session.Some? ==> Consistent(cfg, s.session.value)
  }

  predicate Accepts(r: Response) {
    r.EpochApplied? || r.AffectedRefreshed?
  }

  /** The same session one epoch later: same sources domain, and an authority that differs
      in the population digest and the epoch number only. */
  ghost predicate OneEpochLater(s: SessionState, s': SessionState) {
    && s'.engine.sources.Keys == s.engine.sources.Keys
    && s'.authority
       == s.authority.(populationSha := s'.authority.populationSha, sourceEpoch := s.authority.sourceEpoch + 1)
  }

  /** How the session moves across a request whose reply does not close the process. */
  ghost predicate Moves(before: Option<SessionState>, after: Option<SessionState>, r: Response) {
    if r.SessionOpened? then before.None? && after.Some? && after.value.authority.sourceEpoch != 0
    else if Accepts(r) then before.Some? && after.Some? && OneEpochLater(before.value, after.value)
    else after == before
  }

  lemma OperationKeeps(cfg: Config, s: ProviderState, f: Frame, w: World)
    requires Healthy(cfg, s) && f.operation.Some?
    ensures var (s', r) := HandleOperation(cfg, s, f, w);
            !r.closing ==> Healthy(cfg, s') && Moves(s.session, s'.session, r.response)
  {
    hide Consistent, AfterEpoch, Exported, OpenAdmissible, OpenedSession, PathListing;
    var op := f.operation.value;
    if op == OpenSession && HandleOpen(cfg, s, f, w).1.response.SessionOpened? {
      OpenKeeps(cfg, f.sessionId, w, f.payload.open);
    } else if op == ApplyEpoch && HandleEpoch(cfg, s, f, w).1.response.EpochApplied? {
      EpochKeeps(cfg, s.session.value, f.payload.epoch, f.attachments, w);
    } else if op == RefreshAffected && HandleRefresh(cfg, s, f, w).1.response.AffectedRefreshed? {
      EpochKeeps(cfg, s.session.value, f.payload.refresh, f.attachments, w);
    }
  }

  lemma OpenKeeps(cfg: Config, sessionId: Text, w: World, b: OpenBody)
    requires OpenAdmissible(cfg, sessionId, w, b)
    ensures Consistent(cfg, OpenedSession(cfg, w, b))
    ensures OpenedSession(cfg, w, b).authority.sourceEpoch == b.authority.sourceEpoch != 0
  {
    OpenConsistent(cfg, sessionId, w, b);
    hide Consistent, PopulationSha, SourceMap, SafeDocumentPath;
  }

  lemma EpochKeeps(cfg: Config, s: SessionState, b: EpochBody, attachments: seq<seq<byte>>, w: World)
    requires Consistent(cfg, s) && AfterEpoch(cfg, s, b, attachments, w).1
    ensures Consistent(cfg, AfterEpoch(cfg, s, b, attachments, w).0)
    ensures OneEpochLater(s, AfterEpoch(cfg, s, b, attachments, w).0)
  {
    EpochConsistent(cfg, s, b, attachments, w);
    hide Consistent, AfterEpoch;
  }

  /** A reply that does not close the process leaves a consistent session, and moves it only
      by opening it or by one accepted epoch; so an epoch that fails after it has begun to
      change the engine always closes the process, and every other failure that keeps the
      process running leaves the session untouched. */
  lemma RequestKeeps(cfg: Config, s: ProviderState, f: Frame, w: World)
    requires Healthy(cfg, s)
    ensures var (s', r) := Handle(cfg, s, f, w);
            !r.closing ==> Healthy(cfg, s') && Moves(s.session, s'.session, r.response)
  {
    var seen := s.(lastRequestId := f.requestId);
    hide Consistent, HandleOperation;
    if f.operation.Some? { OperationKeeps(cfg, seen, f, w); }
  }

  /** A request is refused as a replay exactly when its id does not exceed the last one. */
  lemma ReplayIff(cfg: Config, s: ProviderState, f: Frame, w: World)
    requires s.lastRequestId >= 0
    ensures var (s', r) := Handle(cfg, s, f, w);
            && (r.response == Error(ReplayedRequest) <==> f.requestId == 0 || f.requestId <= s.lastRequestId)
            && s'.lastRequestId == (if r.response == Error(ReplayedRequest) then s.lastRequestId else f.requestId)
            && (r.response == Error(ReplayedRequest) ==> s' == s)
  {
    hide AfterEpoch, Exported, OpenAdmissible, OpenedSession, PathListing, EvidenceMatches;
  }

  // ---- runs ----

  datatype Exchange = Exchange(frame: Frame, world: World, reply: Reply)

  /** A process from admission on; only the last reply may close it. */
  ghost predicate IsRun(cfg: Config, states: seq<ProviderState>, xs: seq<Exchange>) {
    && |states| == |xs| + 1
    && states[0] == FRESH
    && (forall i | 0 <= i < |xs| :: StepsBy(cfg, states[i], states[i + 1], xs[i]))
    && (forall i | 0 <= i < |xs| - 1 :: !xs[i].reply.closing)
  }

  ghost predicate StepsBy(cfg: Config, s: ProviderState, s': ProviderState, x: Exchange) {
    Handle(cfg, s, x.frame, x.world) == (s', x.reply)
  }

  /** Every state in which a request can be read. */
  predicate Serving(xs: seq<Exchange>, i: int) {
    0 <= i <= |xs| && (i == 0 || !xs[i - 1].reply.closing)
  }

  /** Whenever a request can be read, the population digest of the session is the digest of
      its sources and every retained byte string has the digest recorded for it. */
  lemma {:induction false} RunsStayConsistent(cfg: Config, states: seq<ProviderState>, xs: seq<Exchange>, i: nat)
    requires IsRun(cfg, states, xs) && Serving(xs, i)
    ensures Healthy(cfg, states[i])
  {
    if i > 0 {
      hide Consistent, Handle;
      RunsStayConsistent(cfg, states, xs, i - 1);
      RequestKeeps(cfg, states[i - 1], xs[i - 1].frame, xs[i - 1].world);
      assert StepsBy(cfg, states[i - 1], states[i], xs[i - 1]);
    }
  }

  lemma RunMoves(cfg: Config, states: seq<ProviderState>, xs: seq<Exchange>, i: nat)
    requires IsRun(cfg, states, xs) && i < |xs| && Serving(xs, i + 1)
    ensures Moves(states[i].session, states[i + 1].session, xs[i].reply.response)
  {
    hide Consistent, Handle, Moves;
    RunsStayConsistent(cfg, states, xs, i);
    RequestKeeps(cfg, states[i], xs[i].frame, xs[i].world);
    assert StepsBy(cfg, states[i], states[i + 1], xs[i]);
  }

  function AcceptedBetween(xs: seq<Exchange>, i: int, j: int): (n: nat)
    requires 0 <= i <= j <= |xs|
    decreases j
  {
    if i == j then 0
    else AcceptedBetween(xs, i, j - 1) + if Accepts(xs[j - 1].reply.response) then 1 else 0
  }

  /** The same session a number of epochs later. */
  ghost predicate Descends(s: SessionState, s': SessionState, epochs: int) {
    && s'.engine.sources.Keys == s.engine.sources.Keys
    && s'.authority == s.authority.(
         populationSha := s'.authority.populationSha,
         sourceEpoch := s.authority.sourceEpoch + epochs)
    && (epochs == 0 ==> s' == s)
  }

  /** The session of a later state descends from that of an earlier one: same sources domain,
      as many epochs on as were accepted in between, and every other part of the authority
      unchanged except the population digest. */
  lemma {:induction false} RunLineage(cfg: Config, states: seq<ProviderState>, xs: seq<Exchange>, i: nat, j: nat)
    requires IsRun(cfg, states, xs) && i <= j && Serving(xs, j) && states[i].session.Some?
    ensures states[j].session.Some?
      && Descends(states[i].session.value, states[j].session.value, AcceptedBetween(xs, i, j))
    decreases j
  {
    hide Consistent, Handle, Descends, OneEpochLater;
    if i < j {
      RunLineage(cfg, states, xs, i, j - 1);
      RunMoves(cfg, states, xs, j - 1);
      if Accepts(xs[j - 1].reply.response) {
        DescendsStep(states[i].session.value, states[j - 1].session.value, AcceptedBetween(xs, i, j - 1),
          states[j].session.value);
      }
    } else {
      DescendsItself(states[i].session.value);
    }
  }

  lemma DescendsItself(s: SessionState)
    ensures Descends(s, s, 0)
  {
  }

  lemma DescendsStep(s: SessionState, s': SessionState, epochs: nat, next: SessionState)
    requires Descends(s, s', epochs) && OneEpochLater(s', next)
    ensures Descends(s, next, epochs + 1)
  {
  }

  lemma {:induction false} RunRequestIds(cfg: Config, states: seq<ProviderState>, xs: seq<Exchange>, i: nat, j: nat)
    requires IsRun(cfg, states, xs) && i <= j < |states|
    ensures 0 <= states[i].lastRequestId <= states[j].lastRequestId
    decreases j
  {
    if j > 0 {
      hide Handle;
      RunRequestIds(cfg, states, xs, if i < j then i else j - 1, j - 1);
      assert StepsBy(cfg, states[j - 1], states[j], xs[j - 1]);
      ReplayIff(cfg, states[j - 1], xs[j - 1].frame, xs[j - 1].world);
    }
  }

  /** The ids of requests not refused as replays strictly increase over a run. */
  lemma FreshRequestIdsIncrease(cfg: Config, states: seq<ProviderState>, xs: seq<Exchange>, i: nat, j: nat)
    requires IsRun(cfg, states, xs) && i < j < |xs|
    requires xs[i].reply.response != Error(ReplayedRequest) && xs[j].reply.response != Error(ReplayedRequest)
    ensures 0 < xs[i].frame.requestId < xs[j].frame.requestId
  {
    hide Handle;
    RunRequestIds(cfg, states, xs, 0, i);
    RunRequestIds(cfg, states, xs, i + 1, j);
    assert StepsBy(cfg, states[i], states[i + 1], xs[i]) && StepsBy(cfg, states[j], states[j + 1], xs[j]);
    ReplayIff(cfg, states[i], xs[i].frame, xs[i].world);
    ReplayIff(cfg, states[j], xs[j].frame, xs[j].world);
  }

  /** One process opens at most one session. */
  lemma AtMostOneSessionOpens(cfg: Config, states: seq<ProviderState>, xs: seq<Exchange>, i: nat, j: nat)
    requires IsRun(cfg, states, xs) && i < j < |xs|
    requires xs[i].reply.response.SessionOpened?
    ensures !xs[j].reply.response.SessionOpened?
  {
    hide Consistent, OneEpochLater, Handle;
    RunMoves(cfg, states, xs, i);
    RunLineage(cfg, states, xs, i + 1, j);
    assert StepsBy(cfg, states[j], states[j + 1], xs[j]);
    OpensOnlyWithoutSession(cfg, states[j], xs[j].frame, xs[j].world);
  }

  lemma OpensOnlyWithoutSession(cfg: Config, s: ProviderState, f: Frame, w: World)
    ensures Handle(cfg, s, f, w).1.response.SessionOpened? ==> s.session.None?
  {
    hide AfterEpoch, Exported, OpenAdmissible, OpenedSession, PathListing, EvidenceMatches;
  }

  /** The authority a request must hold: the one it moves on from, or the one it certifies. */
  function NamedAuthority(p: Payload): Option<Authority> {
    match p
    case EpochPayload(epoch) => Some(epoch.previous)
    case RefreshPayload(refresh, _, _, _) => Some(refresh.previous)
    case CertifyPayload(authority, _) => Some(authority)
    case _ => None
  }

  predicate Serves(r: Response) {
    Accepts(r) || r.FullCertification?
  }

  /** A request is served only if it names exactly the authority the session holds. */
  lemma ServedRequestsNameTheCurrentAuthority(cfg: Config, s: ProviderState, f: Frame, w: World)
    ensures Serves(Handle(cfg, s, f, w).1.response) ==>
              s.session.Some? && NamedAuthority(f.payload) == Some(s.session.value.authority)
  {
    hide HandleOperation, EvidenceMatches;
    if f.operation.Some? { OperationNamesCurrent(cfg, s.(lastRequestId := f.requestId), f, w); }
  }

  lemma OperationNamesCurrent(cfg: Config, s: ProviderState, f: Frame, w: World)
    requires f.operation.Some?
    ensures Serves(HandleOperation(cfg, s, f, w).1.response) ==>
              s.session.Some? && NamedAuthority(f.payload) == Some(s.session.value.authority)
  {
    HandlersNameCurrent(cfg, s, f, w);
    hide HandleEpoch, HandleRefresh, HandleCertify, OpenAdmissible, OpenedSession;
  }

  lemma HandlersNameCurrent(cfg: Config, s: ProviderState, f: Frame, w: World)
    ensures Serves(HandleEpoch(cfg, s, f, w).1.response) || Serves(HandleRefresh(cfg, s, f, w).1.response)
            || Serves(HandleCertify(cfg, s, f, w).1.response) ==>
              s.session.Some? && NamedAuthority(f.payload) == Some(s.session.value.authority)
  {
    hide PathListing, AfterEpoch, Exported;
    if s.session.Some? {
      var session := s.session.value;
      match f.payload
      case EpochPayload(epoch) => EpochNamesCurrent(cfg, session, epoch, f.attachments, w);
      case RefreshPayload(refresh, _, _, _) => EpochNamesCurrent(cfg, session, refresh, f.attachments, w);
      case CertifyPayload(authority, _) => ExportNamesCurrent(cfg, session, authority,
        PathListing(session.engine.sources.Keys), w);
      case _ =>
    }
  }

  lemma EpochNamesCurrent(cfg: Config, s: SessionState, b: EpochBody, attachments: seq<seq<byte>>, w: World)
    ensures AfterEpoch(cfg, s, b, attachments, w).1 ==> b.previous == s.authority
  {
    hide AfterReplacements, MapSha, EvidenceMatches;
  }

  lemma ExportNamesCurrent(cfg: Config, s: SessionState, authority: Authority, documents: seq<Text>, w: World)
    ensures Exported(cfg, s, authority, documents, w).Some? ==> authority == s.authority
  {
    hide ExportOf, ExportablePaths, DistinctDocuments, Serializable, EvidenceMatches;
  }

  /** The k-th accepted epoch after a state moves its authority to number e + k, and nothing
      else of it but the population digest; so an authority once left behind is refused for
      the rest of the run, even when an edit restores the very bytes it described. */
  lemma SupersededAuthorityNeverServed(cfg: Config, states: seq<ProviderState>, xs: seq<Exchange>, i: nat, j: nat)
    requires IsRun(cfg, states, xs) && i <= j < |xs| && states[i].session.Some?
    requires AcceptedBetween(xs, i, j) > 0
    requires NamedAuthority(xs[j].frame.payload) == Some(states[i].session.value.authority)
    ensures !Serves(xs[j].reply.response)
  {
    hide Consistent, Handle;
    RunLineage(cfg, states, xs, i, j);
    assert StepsBy(cfg, states[j], states[j + 1], xs[j]);
    ServedRequestsNameTheCurrentAuthority(cfg, states[j], xs[j].frame, xs[j].world);
  }

  // ---- exports ----

  lemma {:induction false} DistinctNeighbours(paths: seq<Text>)
    requires Sorting.Sorted(PATH_ORDER, paths)
    requires forall i | 0 <= i < |paths| - 1 :: paths[i] != paths[i + 1]
    ensures forall i, j | 0 <= i < j < |paths| :: paths[i] != paths[j]
  {
    forall i, j | 0 <= i < j < |paths| ensures paths[i] != paths[j] {
      if paths[i] == paths[j] {
        assert PATH_ORDER(paths[i], paths[i + 1]);
        assert i + 1 == j || PATH_ORDER(paths[i + 1], paths[j]);
        BytesLeqLaws(paths[i], paths[i + 1], paths[i]);
      }
    }
  }

  lemma ExportAnswers(cfg: Config, s: SessionState, authority: Authority, documents: seq<Text>, w: World)
    requires Exported(cfg, s, authority, documents, w).Some?
    ensures var e := Exported(cfg, s, authority, documents, w).value;
            && w.exported.Some?
            && |e.outcomes| == |documents|
            && AnswersPaths(cfg.sha256, s.engine.sources, Elements(documents), EmittedBytes(w.exported.value), e)
  {
    var paths := Sorting.Sort(PATH_ORDER, documents);
    PathOrderTotal();
    hide Sorting.Sort, ExportOf, DocumentFor, Serializable, DistinctDocuments, EvidenceMatches;
    hide SafeDocumentPath, AnswersPaths, BytesLeq, EmittedBytes;
    Sorting.SortSorts(PATH_ORDER, documents);
    DistinctNeighbours(paths);
    hide Sorting.TotalOrder, Sorting.TotalPreorder, Sorting.Sorted;
    ExportOfAnswers(cfg.sha256, s.engine.sources, EmittedBytes(w.exported.value), paths);
    assert Elements(paths) == Elements(documents);
  }

  /** Every served export answers what was asked: a refresh the requested documents over the
      sources its epoch leads to, a certification every source of the session. */
  lemma ServedExportsAnswer(cfg: Config, s: ProviderState, f: Frame, w: World)
    ensures var (s', r) := Handle(cfg, s, f, w);
            && (r.response.AffectedRefreshed? ==>
                 && f.payload.RefreshPayload? && s'.session.Some? && w.exported.Some?
                 && AnswersPaths(cfg.sha256, s'.session.value.engine.sources, Elements(f.payload.documents),
                                 EmittedBytes(w.exported.value), Export(r.response.outcomes, r.attachments)))
            && (r.response.FullCertification? ==>
                 && s'.session.Some? && w.exported.Some?
                 && AnswersPaths(cfg.sha256, s'.session.value.engine.sources, s'.session.value.engine.sources.Keys,
                                 EmittedBytes(w.exported.value), Export(r.response.outcomes, r.attachments)))
  {
    hide AfterEpoch, Exported, OpenAdmissible, OpenedSession, PathListing, EvidenceMatches, AnswersPaths, EmittedBytes;
    var (s', r) := Handle(cfg, s, f, w);
    if r.response.AffectedRefreshed? {
      ExportAnswers(cfg, s'.session.value, f.payload.refresh.next, f.payload.documents, w);
    } else if r.response.FullCertification? {
      var all := PathListing(s'.session.value.engine.sources.Keys);
      ExportAnswers(cfg, s'.session.value, f.payload.authority, all, w);
      assert Elements(all) == s'.session.value.engine.sources.Keys;
    }
  }
}
