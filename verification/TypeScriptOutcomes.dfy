/** Which answer a TypeScript provider gives to which request, and what the answer says. */
module TypeScriptOutcomes {
  import opened Wrappers
  import opened Bytes
  import opened ProviderProtocol
  import opened TypeScriptProtocol
  import opened TypeScriptRuns
  import Sorting
  import Sets

  /** The authority an answer announces. */
  function Announced(r: Response): Option<Authority> {
    match r
    case SessionOpened(authority) => Some(authority)
    case EpochApplied(authority) => Some(authority)
    case AffectedRefreshed(authority, _, _) => Some(authority)
    case FullCertification(authority, _) => Some(authority)
    case _ => None
  }

  /** The epoch a request asks for. */
  function EpochOf(p: Payload): Option<EpochBody> {
    match p
    case EpochPayload(epoch) => Some(epoch)
    case RefreshPayload(refresh, _, _, _) => Some(refresh)
    case _ => None
  }

  // ---- when a request is heard at all ----

  /** Evidence just as it was when the session was admitted. */
  ghost predicate Unmoved(s: SessionState, evidence: Option<Evidence>) {
    && s.engine.live
    && evidence.Some?
    && Some(evidence.value.workspaceSha) == s.authority.workspaceResolutionSha
    && evidence.value.semanticInputs == s.semanticInputs
    && evidence.value.health == s.health
  }

  /** A new request, to this provider, with an operation that can be read. */
  ghost predicate Addressed(cfg: Config, s: ProviderState, f: Frame) {
    && f.requestId != 0 && s.lastRequestId < f.requestId
    && f.sessionId != [] && f.expectedProvider == cfg.identity && f.operation.Some?
  }

  ghost predicate Foreign(s: ProviderState, f: Frame) {
    s.session.Some? && f.sessionId != s.session.value.authority.sessionId
  }

  /** The runtime as it was, and for anything but a greeting, a reconfiguration or a goodbye
      the evidence as well; a goodbye is heard whatever has changed. */
  ghost predicate Undisturbed(cfg: Config, s: ProviderState, op: Operation, w: World) {
    && (op != CloseSession ==> w.runtimeBefore == Some(cfg.runtime))
    && (s.session.Some? && op !in {Hello, ReconfigureSession, CloseSession} ==>
         Unmoved(s.session.value, w.evidenceBefore))
  }

  ghost predicate Heard(cfg: Config, s: ProviderState, f: Frame, w: World, op: Operation) {
    Addressed(cfg, s, f) && !Foreign(s, f) && f.operation == Some(op) && Undisturbed(cfg, s, op, w)
  }

  /** What is not heard is refused. */
  lemma HeardOnly(cfg: Config, s: ProviderState, f: Frame, w: World)
    requires s.lastRequestId >= 0
    ensures Handle(cfg, s, f, w) ==
      if f.operation.Some? && Heard(cfg, s, f, w, f.operation.value)
      then HandleOperation(cfg, s.(lastRequestId := f.requestId), f, w)
      else if f.requestId <= s.lastRequestId then (s, Refuse(ReplayedRequest, false))
      else (s.(lastRequestId := f.requestId),
        if !Addressed(cfg, s, f) then Refuse(InvalidRequest, false)
        else if Foreign(s, f) then Refuse(InvalidRequest, true)
        else Refuse(RequestFailed, true))
  {
    hide HandleOperation;
  }

  // ---- opening ----

  /** What the provider checks before it opens a session. */
  ghost predicate Opens(cfg: Config, sessionId: Text, w: World, b: OpenBody) {
    var a := b.authority;
    && !b.hasExpectedInputs
    && w.canonicalRepository.Some? && w.canonicalExecution.Some? && w.derivedPrefix == Some(b.executionPrefix)
    && a.sessionId == sessionId
    && a.rootSha == cfg.sha256(w.canonicalRepository.value) && a.configurationSha == cfg.runtime.configurationSha
    && a.workspaceResolutionSha == None && a.semanticInputsSha == None
    && IsSha256(a.rootTopologySha) && a.sourceEpoch != 0
    && PopulationSha(cfg.sha256, b.sources) == Some(a.populationSha)
    && (forall s | s in b.sources ::
         && s.language == cfg.language && w.insideExecution(s.documentPath)
         && w.fileBytes(s.documentPath).Some? && cfg.sha256(w.fileBytes(s.documentPath).value) == s.contentSha)
    && w.projectLoads
    && w.evidenceAtOpen.Some? && w.evidenceAtAdmission == w.evidenceAtOpen
    && cfg.semanticSha(w.evidenceAtOpen.value.semanticInputs).Some?
  }

  /** The digest already vouches for the number, the paths and the form of the sources. */
  lemma OpensIff(cfg: Config, sessionId: Text, w: World, b: OpenBody)
    ensures OpenAdmissible(cfg, sessionId, w, b) <==> Opens(cfg, sessionId, w, b)
  {
    PopulationAcceptedIff(cfg.sha256, b.sources);
    hide PopulationSha, SafeDocumentPath, IsSha256;
  }

  /** What a session holds when it is opened: the announced authority completed by the digests
      of what was observed, each source under its path with the bytes found there, as version
      one, which is also what the compiler has been told. */
  ghost predicate OpensWith(cfg: Config, w: World, b: OpenBody, s: SessionState)
    requires w.evidenceAtOpen.Some?
  {
    var a, observed := s.authority, w.evidenceAtOpen.value;
    && a.workspaceResolutionSha == Some(observed.workspaceSha)
    && a.semanticInputsSha == cfg.semanticSha(observed.semanticInputs)
    && a.(workspaceResolutionSha := None, semanticInputsSha := None) == b.authority
    && s.semanticInputs == observed.semanticInputs && s.health == observed.health
    && s.engine.live
    && (forall p :: p in s.engine.sources <==> exists i | 0 <= i < |b.sources| :: b.sources[i].documentPath == p)
    && (forall i | 0 <= i < |b.sources| ::
         var p := b.sources[i].documentPath;
         p in s.engine.sources && s.engine.sources[p] == b.sources[i])
    && s.engine.sourceBytes.Keys == s.engine.versions.Keys == s.engine.compilerText.Keys == s.engine.sources.Keys
    && (forall p | p in s.engine.sources ::
         && Some(s.engine.sourceBytes[p]) == w.fileBytes(p) == Some(s.engine.compilerText[p])
         && s.engine.versions[p] == 1)
  }

  /** A session is opened exactly when there is none yet and every check passes. */
  lemma OpenedIff(cfg: Config, s: ProviderState, f: Frame, w: World)
    requires s.lastRequestId >= 0
    ensures var (s', r) := Handle(cfg, s, f, w);
            && (r.response.SessionOpened? <==>
                 && Heard(cfg, s, f, w, OpenSession) && s.session.None? && f.attachments == []
                 && f.payload.OpenPayload? && Opens(cfg, f.sessionId, w, f.payload.open))
            && (r.response.SessionOpened? ==>
                 s'.session.Some? && OpensWith(cfg, w, f.payload.open, s'.session.value))
  {
    hide OpenAdmissible, Opens, OpensWith, OpenedSession, AfterEpoch, Exported, PathListing, Heard;
    HeardOnly(cfg, s, f, w);
    HeardOperation(cfg, s, f, w, OpenSession);
    if f.payload.OpenPayload? {
      OpensIff(cfg, f.sessionId, w, f.payload.open);
      if Opens(cfg, f.sessionId, w, f.payload.open) { OpenedHolds(cfg, f.sessionId, w, f.payload.open); }
    }
  }

  lemma OpenedHolds(cfg: Config, sessionId: Text, w: World, b: OpenBody)
    requires OpenAdmissible(cfg, sessionId, w, b)
    ensures OpensWith(cfg, w, b, OpenedSession(cfg, w, b))
  {
    hide SourceMap, PopulationSha, SafeDocumentPath, IsSha256;
    SourceMapLists(b.sources);
    var sources := SourceMap(b.sources);
    forall p | p in sources
      ensures w.fileBytes(p).Some? && exists i | 0 <= i < |b.sources| :: b.sources[i].documentPath == p {
      var i :| 0 <= i < |b.sources| && b.sources[i] == sources[p];
      assert AdmissibleSource(cfg, w, b.sources[i]);
    }
    forall i | 0 <= i < |b.sources| ensures b.sources[i].documentPath in sources { }
  }

  // ---- epochs ----

  /** What the provider checks, before and while it moves a session on. */
  ghost predicate CarriesOut(cfg: Config, s: SessionState, b: EpochBody, attachments: seq<seq<byte>>, w: World) {
    && b.previous == s.authority
    && b.next == b.previous.(populationSha := b.next.populationSha, sourceEpoch := b.previous.sourceEpoch + 1)
    && b.next.sourceEpoch != 0
    && b.changes != [] && |attachments| == |b.changes|
    && (forall i, j | 0 <= i < j < |b.changes| :: b.changes[i].attachmentIndex != b.changes[j].attachmentIndex)
    && (forall i | 0 <= i < |b.changes| :: Fits(cfg, s.engine.sources, b.changes[i], attachments))
    && MapSha(cfg.sha256, Override(s.engine.sources, b.changes)) == Some(b.next.populationSha)
    && (forall i | 0 <= i < |b.changes| :: w.refreshes(i))
    && Unmoved(s, w.evidenceAfterEpoch)
  }

  /** A change from what the session has to what a UTF-8 attachment of the announced digest holds. */
  ghost predicate Fits(cfg: Config, sources: Sources, c: SourceChange, attachments: seq<seq<byte>>) {
    && c.isReplace && c.language == cfg.language && c.documentPath in sources
    && c.previousContentIdentity == sources[c.documentPath].contentIdentity != c.contentIdentity
    && c.previousContentSha == sources[c.documentPath].contentSha != c.contentSha
    && 0 <= c.attachmentIndex < |attachments|
    && cfg.sha256(attachments[c.attachmentIndex]) == c.contentSha
    && cfg.isUtf8(attachments[c.attachmentIndex])
  }

  lemma {:induction false} CommittedLive(e: EngineState, rs: seq<Replacement>)
    ensures Committed(e, rs).live == e.live
  {
    if rs != [] { CommittedLive(e, rs[..|rs| - 1]); }
  }

  lemma CarriesOutIff(cfg: Config, s: SessionState, b: EpochBody, attachments: seq<seq<byte>>, w: World)
    ensures AfterEpoch(cfg, s, b, attachments, w).1 <==> CarriesOut(cfg, s, b, attachments, w)
  {
    var rs := Replacements(s.engine, b.changes, attachments);
    ReplacementsSucceedIff(s.engine, rs, cfg.isUtf8, w.refreshes);
    if AfterReplacements(s.engine, rs, cfg.isUtf8, w.refreshes).1 {
      CommittedLive(s.engine.(compilerText := Told(s.engine.compilerText, rs)), rs);
    }
    hide AfterReplacements, Replacements, MapSha, Override, Committed;
    if EpochAdmissible(cfg, s, b, attachments) {
      forall i | 0 <= i < |b.changes|
        ensures Fits(cfg, s.engine.sources, b.changes[i], attachments) <==> cfg.isUtf8(rs[i].bytes)
      {
        assert ValidChange(cfg, s.engine.sources, b.changes[i], attachments);
      }
    } else if CarriesOut(cfg, s, b, attachments, w) {
      forall i | 0 <= i < |b.changes| ensures ValidChange(cfg, s.engine.sources, b.changes[i], attachments) {
        assert Fits(cfg, s.engine.sources, b.changes[i], attachments);
      }
    }
  }

  /** What an epoch leaves behind: every path it changes last by change `i` has the source that
      change announces, the bytes of its attachment, also told to the compiler, and the next
      32-bit version; every other path is as it was. */
  ghost predicate MovesBy(
    e: EngineState, changes: seq<SourceChange>, attachments: seq<seq<byte>>, e': EngineState, path: Text)
    requires Holds(e, path) && Holds(e', path)
  {
    if forall i | 0 <= i < |changes| :: changes[i].documentPath != path then
      && e'.sources[path] == e.sources[path] && e'.sourceBytes[path] == e.sourceBytes[path]
      && e'.versions[path] == e.versions[path] && e'.compilerText[path] == e.compilerText[path]
    else
      && e'.versions[path] == (if e.versions[path] == 0x7FFF_FFFF then -0x8000_0000 else e.versions[path] + 1)
      && forall i | 0 <= i < |changes| && changes[i].documentPath == path ::
           (forall j | i < j < |changes| :: changes[j].documentPath != path) ==>
             var c := changes[i];
             && e'.sources[path] == SourceIdentity(path, c.language, c.contentIdentity, c.contentSha)
             && 0 <= c.attachmentIndex < |attachments|
             && e'.sourceBytes[path] == e'.compilerText[path] == attachments[c.attachmentIndex]
  }

  lemma {:induction false} CommittedAt(e: EngineState, rs: seq<Replacement>, i: nat)
    requires i < |rs| && forall j | i < j < |rs| :: rs[j].path != rs[i].path
    ensures var e' := Committed(e, rs);
            && rs[i].path in e'.sources && e'.sources[rs[i].path] == rs[i].next
            && rs[i].path in e'.sourceBytes && e'.sourceBytes[rs[i].path] == rs[i].bytes
            && rs[i].path in e'.versions && e'.versions[rs[i].path] == rs[i].version
    decreases |rs|
  {
    if i < |rs| - 1 { CommittedAt(e, rs[..|rs| - 1], i); }
  }

  lemma {:induction false} CommittedElsewhere(e: EngineState, rs: seq<Replacement>, path: Text)
    requires path in e.sources && path in e.sourceBytes && path in e.versions
    requires forall i | 0 <= i < |rs| :: rs[i].path != path
    ensures var e' := Committed(e, rs);
            && path in e'.sources && e'.sources[path] == e.sources[path]
            && path in e'.sourceBytes && e'.sourceBytes[path] == e.sourceBytes[path]
            && path in e'.versions && e'.versions[path] == e.versions[path]
  {
    if rs != [] { CommittedElsewhere(e, rs[..|rs| - 1], path); }
  }

  /** The last change of a path, if any. */
  lemma {:induction false} LastChange(changes: seq<SourceChange>, path: Text) returns (i: nat)
    requires exists k | 0 <= k < |changes| :: changes[k].documentPath == path
    ensures i < |changes| && changes[i].documentPath == path
    ensures forall j | i < j < |changes| :: changes[j].documentPath != path
  {
    i := |changes| - 1;
    if changes[i].documentPath != path { i := LastChange(changes[..i], path); }
  }

  lemma EpochReplaces(cfg: Config, s: SessionState, b: EpochBody, attachments: seq<seq<byte>>, w: World)
    returns (rs: seq<Replacement>, told: EngineState)
    requires AfterEpoch(cfg, s, b, attachments, w).1
    ensures forall i | 0 <= i < |b.changes| :: ValidChange(cfg, s.engine.sources, b.changes[i], attachments)
    ensures |rs| == |b.changes|
    ensures forall i | 0 <= i < |b.changes| :: rs[i] == ReplacementOf(s.engine, b.changes[i], attachments)
    ensures told == s.engine.(compilerText := told.compilerText)
    ensures AfterEpoch(cfg, s, b, attachments, w).0 == s.(engine := Committed(told, rs), authority := b.next)
  {
    hide AfterReplacements, Committed, Told, MapSha, ValidChange, ClaimsDistinct, EvidenceMatches;
    rs := Replacements(s.engine, b.changes, attachments);
    told := s.engine.(compilerText := Told(s.engine.compilerText, rs));
    ReplacementsSucceedIff(s.engine, rs, cfg.isUtf8, w.refreshes);
  }

  /** An accepted epoch moves a session by exactly its changes, and keeps whatever was observed
      when it was opened. */
  lemma EpochMoves(cfg: Config, s: SessionState, b: EpochBody, attachments: seq<seq<byte>>, w: World, path: Text)
    requires Consistent(cfg, s) && AfterEpoch(cfg, s, b, attachments, w).1 && path in s.engine.sources
    ensures var s' := AfterEpoch(cfg, s, b, attachments, w).0;
            && Consistent(cfg, s')
            && s'.engine.sources.Keys == s.engine.sources.Keys
            && s'.semanticInputs == s.semanticInputs && s'.health == s.health
            && MovesBy(s.engine, b.changes, attachments, s'.engine, path)
  {
    hide AfterEpoch, Committed, Told, Override, MapSha, Replacements, SafeDocumentPath;
    EpochConsistent(cfg, s, b, attachments, w);
    var rs, told := EpochReplaces(cfg, s, b, attachments, w);
    hide ReplacementOf, MovesBy;
    forall i | 0 <= i < |b.changes| ensures 0 <= b.changes[i].attachmentIndex < |attachments| {
      assert ValidChange(cfg, s.engine.sources, b.changes[i], attachments);
    }
    CommittedMoves(s.engine, b.changes, attachments, rs, told, path);
  }

  /** Something is held for the path under every heading. */
  ghost predicate Holds(e: EngineState, path: Text) {
    path in e.sources && path in e.sourceBytes && path in e.versions && path in e.compilerText
  }

  lemma CommittedMoves(
    e: EngineState, changes: seq<SourceChange>, attachments: seq<seq<byte>>, rs: seq<Replacement>, told: EngineState,
    path: Text)
    requires told == e.(compilerText := told.compilerText) && e.compilerText == e.sourceBytes
    requires Committed(told, rs).compilerText == Committed(told, rs).sourceBytes
    requires Holds(e, path) && Holds(Committed(told, rs), path)
    requires |rs| == |changes|
    requires forall i | 0 <= i < |changes| :: rs[i] == ReplacementOf(e, changes[i], attachments)
    requires forall i | 0 <= i < |changes| :: 0 <= changes[i].attachmentIndex < |attachments|
    ensures MovesBy(e, changes, attachments, Committed(told, rs), path)
  {
    hide Committed;
    if exists k | 0 <= k < |changes| :: changes[k].documentPath == path {
      var i := LastChange(changes, path);
      forall j | i < j < |rs| ensures rs[j].path != rs[i].path { assert changes[j].documentPath != path; }
      CommittedAt(told, rs, i);
      forall k | 0 <= k < |changes| && changes[k].documentPath == path
              && forall j | k < j < |changes| :: changes[j].documentPath != path
        ensures k == i { }
    } else {
      forall j | 0 <= j < |rs| ensures rs[j].path != path { assert changes[j].documentPath != path; }
      CommittedElsewhere(told, rs, path);
    }
  }

  lemma HeardOperation(cfg: Config, s: ProviderState, f: Frame, w: World, op: Operation)
    ensures Heard(cfg, s, f, w, op) ==> f.operation == Some(op)
  {
  }

  /** An epoch is applied exactly when a session is open and every check passes. */
  lemma AppliedIff(cfg: Config, s: ProviderState, f: Frame, w: World)
    requires s.lastRequestId >= 0
    ensures Handle(cfg, s, f, w).1.response.EpochApplied? <==>
      && Heard(cfg, s, f, w, ApplyEpoch) && s.session.Some? && f.payload.EpochPayload?
      && CarriesOut(cfg, s.session.value, f.payload.epoch, f.attachments, w)
  {
    hide Heard, AfterEpoch, Exported, OpenAdmissible, OpenedSession, PathListing, CarriesOut;
    HeardOnly(cfg, s, f, w);
    if s.session.Some? && f.payload.EpochPayload? {
      CarriesOutIff(cfg, s.session.value, f.payload.epoch, f.attachments, w);
    }
    HeardOperation(cfg, s, f, w, ApplyEpoch);
  }

  // ---- exports ----

  /** One document at most for each path, something in each that was asked for, and the
      evidence still as it was. */
  ghost predicate Exports(s: SessionState, requested: set<Text>, w: World) {
    && w.exported.Some?
    && (forall i, j | 0 <= i < j < |w.exported.value| ::
         w.exported.value[i].relativePath != w.exported.value[j].relativePath)
    && (forall d | d in w.exported.value && d.relativePath in requested ::
         d.encoded.Some? && d.encoded.value != [])
    && Unmoved(s, w.evidenceAfterExport)
  }

  lemma {:induction false} DocumentForIs(documents: seq<Document>, path: Text)
    ensures DocumentFor(documents, path).None? ==> forall d | d in documents :: d.relativePath != path
    ensures DocumentFor(documents, path).Some? ==>
      DocumentFor(documents, path).value in documents && DocumentFor(documents, path).value.relativePath == path
  {
    if documents != [] {
      DocumentForIs(documents[..|documents| - 1], path);
      assert documents == documents[..|documents| - 1] + [documents[|documents| - 1]];
    }
  }

  lemma SerializableIff(documents: seq<Document>, paths: seq<Text>)
    requires DistinctDocuments(documents)
    ensures Serializable(documents, paths) <==> forall d | d in documents && d.relativePath in paths ::
      d.encoded.Some? && d.encoded.value != []
  {
    forall p { DocumentForIs(documents, p); }
    forall d | d in documents ensures DocumentFor(documents, d.relativePath) == Some(d) {
      DocumentForIs(documents, d.relativePath);
    }
    hide DocumentFor;
  }

  /** Requested documents are answered exactly when they are one to 4096 distinct sources on
      safe paths and the export succeeds. */
  lemma ExportsIff(cfg: Config, s: SessionState, authority: Authority, documents: seq<Text>, w: World)
    ensures Exported(cfg, s, authority, documents, w).Some? <==>
      && authority == s.authority
      && 1 <= |documents| <= 4096 && Sorting.Distinct(documents)
      && (forall p | p in documents :: p in s.engine.sources && SafeDocumentPath(p))
      && Exports(s, Elements(documents), w)
  {
    hide Sorting.Sort, Serializable, ExportOf, SafeDocumentPath, BytesLeq, ExportablePaths, Sorting.Distinct;
    var paths := Sorting.Sort(PATH_ORDER, documents);
    Sorting.SameElements(paths, documents);
    ExportableIff(s.engine.sources, documents);
    if w.exported.Some? && DistinctDocuments(w.exported.value) { SerializableIff(w.exported.value, paths); }
  }

  lemma ExportableIff(sources: Sources, documents: seq<Text>)
    ensures ExportablePaths(sources, Sorting.Sort(PATH_ORDER, documents)) <==>
      Sorting.Distinct(documents) && forall p | p in documents :: p in sources && SafeDocumentPath(p)
  {
    hide Sorting.Sort, SafeDocumentPath, BytesLeq;
    var paths := Sorting.Sort(PATH_ORDER, documents);
    PathOrderTotal();
    Sorting.SortSorts(PATH_ORDER, documents);
    Sorting.SameElements(paths, documents);
    Sorting.DistinctRearranged(paths, documents);
    if forall i | 0 <= i < |paths| - 1 :: paths[i] != paths[i + 1] { DistinctNeighbours(paths); }
  }

  /** A refresh is answered exactly when its epoch is carried out, no analysis is asked for, the
      requested documents are distinct sources that can be exported, and the runtime stays. */
  lemma RefreshedIff(cfg: Config, s: ProviderState, f: Frame, w: World)
    requires s.lastRequestId >= 0 && Healthy(cfg, s)
    ensures Handle(cfg, s, f, w).1.response.AffectedRefreshed? <==>
      && Heard(cfg, s, f, w, RefreshAffected) && s.session.Some? && f.payload.RefreshPayload?
      && f.payload.analyses == 0
      && CarriesOut(cfg, s.session.value, f.payload.refresh, f.attachments, w)
      && 1 <= |f.payload.documents| <= 4096 && Sorting.Distinct(f.payload.documents)
      && (forall p | p in f.payload.documents :: p in s.session.value.engine.sources)
      && Exports(s.session.value, Elements(f.payload.documents), w)
      && w.runtimeAfter == Some(cfg.runtime)
  {
    hide Heard, AfterEpoch, Exported, OpenAdmissible, OpenedSession, PathListing, CarriesOut, Exports, Consistent;
    HeardOnly(cfg, s, f, w);
    HeardOperation(cfg, s, f, w, RefreshAffected);
    if s.session.Some? && f.payload.RefreshPayload? {
      var session, b := s.session.value, f.payload.refresh;
      CarriesOutIff(cfg, session, b, f.attachments, w);
      if AfterEpoch(cfg, session, b, f.attachments, w).1 {
        RefreshExports(cfg, session, b, f.attachments, f.payload.documents, w);
      }
    }
  }

  lemma RefreshExports(
    cfg: Config, s: SessionState, b: EpochBody, attachments: seq<seq<byte>>, documents: seq<Text>, w: World)
    requires Consistent(cfg, s) && AfterEpoch(cfg, s, b, attachments, w).1
    ensures Exported(cfg, AfterEpoch(cfg, s, b, attachments, w).0, b.next, documents, w).Some? <==>
      && 1 <= |documents| <= 4096 && Sorting.Distinct(documents)
      && (forall p | p in documents :: p in s.engine.sources)
      && Exports(s, Elements(documents), w)
  {
    hide AfterEpoch, Exported, SafeDocumentPath, Consistent, Override;
    var s' := AfterEpoch(cfg, s, b, attachments, w).0;
    ExportsIff(cfg, s', b.next, documents, w);
    EpochKeepsObserved(cfg, s, b, attachments, w);
    EpochConsistent(cfg, s, b, attachments, w);
    SafeSources(cfg, s');
    LiveAlways(cfg, s);
    LiveAlways(cfg, s');
  }

  lemma LiveAlways(cfg: Config, s: SessionState)
    requires Consistent(cfg, s)
    ensures s.engine.live
  {
  }

  lemma EpochKeepsObserved(cfg: Config, s: SessionState, b: EpochBody, attachments: seq<seq<byte>>, w: World)
    ensures var s' := AfterEpoch(cfg, s, b, attachments, w).0;
            s'.semanticInputs == s.semanticInputs && s'.health == s.health
  {
    hide EpochAdmissible, AfterReplacements, EvidenceMatches, Replacements;
  }

  /** The sources of a consistent session are as many as fit an export, on safe paths. */
  lemma SafeSources(cfg: Config, s: SessionState)
    requires Consistent(cfg, s)
    ensures 1 <= |s.engine.sources.Keys| <= 4096
    ensures forall p | p in s.engine.sources :: SafeDocumentPath(p)
  {
    var m := s.engine.sources;
    ListingLists(m);
    ListingSize(m);
    PopulationAcceptedIff(cfg.sha256, ListingOf(m));
    hide SafeDocumentPath, ListingOf, PopulationSha, IsSha256;
    forall p | p in m ensures SafeDocumentPath(p) { assert m[p] in ListingOf(m); }
  }

  lemma {:induction false} ListingSize(m: Sources)
    ensures |ListingOf(m)| == |m.Keys|
    decreases |m.Keys|
  {
    if m.Keys != {} {
      var key := Sets.Pick(m.Keys);
      assert (m - {key}).Keys == m.Keys - {key};
      ListingSize(m - {key});
    }
  }

  /** A session is certified exactly when the request names its authority, asks for no analysis
      and attaches nothing, and all its sources can be exported. */
  lemma CertifiedIff(cfg: Config, s: ProviderState, f: Frame, w: World)
    requires s.lastRequestId >= 0 && Healthy(cfg, s)
    ensures Handle(cfg, s, f, w).1.response.FullCertification? <==>
      && Heard(cfg, s, f, w, CertifyFull) && s.session.Some? && f.attachments == []
      && f.payload.CertifyPayload? && f.payload.certifyAnalyses == 0
      && f.payload.authority == s.session.value.authority
      && Exports(s.session.value, s.session.value.engine.sources.Keys, w)
  {
    hide Heard, AfterEpoch, Exported, OpenAdmissible, OpenedSession, Exports, Consistent, PathListing;
    HeardOnly(cfg, s, f, w);
    HeardOperation(cfg, s, f, w, CertifyFull);
    if s.session.Some? && f.payload.CertifyPayload? {
      CertifyExports(cfg, s.session.value, f.payload.authority, w);
    }
  }

  lemma CertifyExports(cfg: Config, s: SessionState, authority: Authority, w: World)
    requires Consistent(cfg, s)
    ensures Exported(cfg, s, authority, PathListing(s.engine.sources.Keys), w).Some? <==>
      authority == s.authority && Exports(s, s.engine.sources.Keys, w)
  {
    hide Exported, PathListing, SafeDocumentPath, Exports, Consistent, Sorting.Distinct;
    var all := PathListing(s.engine.sources.Keys);
    ExportsIff(cfg, s, authority, all, w);
    SafeSources(cfg, s);
    ListingDistinct(s.engine.sources.Keys);
    assert Elements(all) == s.engine.sources.Keys;
  }

  lemma {:induction false} ListingDistinct(paths: set<Text>)
    ensures Sorting.Distinct(PathListing(paths))
  {
    if paths != {} {
      var all := PathListing(paths);
      var p :| p in paths && all == [p] + PathListing(paths - {p});
      ListingDistinct(paths - {p});
    }
  }

  // ---- greetings, goodbyes and refusals ----

  lemma GreetedIff(cfg: Config, s: ProviderState, f: Frame, w: World)
    requires s.lastRequestId >= 0
    ensures Handle(cfg, s, f, w).1.response.HelloReply? <==>
      Heard(cfg, s, f, w, Hello) && f.attachments == [] && f.payload.OperationOnly?
    ensures Handle(cfg, s, f, w).1.response.SessionClosed? <==>
      Heard(cfg, s, f, w, CloseSession) && f.attachments == [] && f.payload.OperationOnly?
  {
    hide Heard, AfterEpoch, Exported, OpenAdmissible, OpenedSession, PathListing;
    HeardOnly(cfg, s, f, w);
    HeardOperation(cfg, s, f, w, Hello);
    HeardOperation(cfg, s, f, w, CloseSession);
  }

  /** A body that is not what its operation asks for, where the operation is possible at all. */
  ghost predicate IllFormed(s: ProviderState, f: Frame, op: Operation) {
    match op
    case Hello => f.attachments != [] || !f.payload.OperationOnly?
    case CloseSession => f.attachments != [] || !f.payload.OperationOnly?
    case OpenSession => s.session.None? && f.attachments == [] && !f.payload.OpenPayload?
    case ReconfigureSession => !f.payload.ReconfigurePayload?
    case ApplyEpoch => s.session.Some? && !f.payload.EpochPayload?
    case RefreshAffected => s.session.Some? && (f.payload.RefreshPayload? ==> f.payload.analyses != 0)
    case CertifyFull =>
      s.session.Some? && f.attachments == [] && (f.payload.CertifyPayload? ==> f.payload.certifyAnalyses != 0)
    case Unsupported => true
  }

  /** A new request is called invalid exactly when it is misaddressed, foreign or ill-formed. A
      reply ends the process exactly when it says goodbye, reports a failure, or refuses a
      request that names another session. */
  lemma RefusedIff(cfg: Config, s: ProviderState, f: Frame, w: World)
    requires s.lastRequestId >= 0
    ensures var r := Handle(cfg, s, f, w).1;
            && (r.response == Error(InvalidRequest) <==>
                 && s.lastRequestId < f.requestId
                 && (|| !Addressed(cfg, s, f) || Foreign(s, f)
                     || (Heard(cfg, s, f, w, f.operation.value) && IllFormed(s, f, f.operation.value))))
            && (r.closing <==>
                 || r.response == SessionClosed || r.response == Error(RequestFailed)
                 || (r.response == Error(InvalidRequest) && Addressed(cfg, s, f) && Foreign(s, f)))
  {
    hide AfterEpoch, Exported, OpenAdmissible, OpenedSession, PathListing, Unmoved;
    HeardOnly(cfg, s, f, w);
    if f.operation.Some? { HeardOperation(cfg, s, f, w, f.operation.value); }
  }

  // ---- what an answer says ----

  /** Every authority announced is the one the session now holds: after an epoch the next one of
      the request, after a certification the one it named. A refresh repeats the snapshot it
      was asked to build on, and only exports carry attachments. */
  ghost predicate Truthful(f: Frame, s': ProviderState, r: Reply) {
    && (Announced(r.response).Some? ==>
         s'.session.Some? && Announced(r.response) == Some(s'.session.value.authority))
    && (Accepts(r.response) ==>
         EpochOf(f.payload).Some? && s'.session.value.authority == EpochOf(f.payload).value.next)
    && (r.response.AffectedRefreshed? ==>
         f.payload.RefreshPayload? && r.response.parentSnapshot == f.payload.parentSnapshot)
    && (r.response.FullCertification? ==> NamedAuthority(f.payload) == Announced(r.response))
    && (!r.response.AffectedRefreshed? && !r.response.FullCertification? ==> r.attachments == [])
  }

  lemma AnnouncedIsCurrent(cfg: Config, s: ProviderState, f: Frame, w: World)
    ensures var (s', r) := Handle(cfg, s, f, w); Truthful(f, s', r)
  {
    hide EvidenceMatches, HandleOperation;
    if f.operation.Some? { OperationTruthful(cfg, s.(lastRequestId := f.requestId), f, w); }
  }

  lemma OperationTruthful(cfg: Config, s: ProviderState, f: Frame, w: World)
    requires f.operation.Some?
    ensures var (s', r) := HandleOperation(cfg, s, f, w); Truthful(f, s', r)
  {
    hide HandleOpen, HandleEpoch, HandleRefresh, HandleCertify;
    match f.operation.value {
      case OpenSession => OpenTruthful(cfg, s, f, w);
      case ApplyEpoch => EpochTruthful(cfg, s, f, w);
      case RefreshAffected => RefreshTruthful(cfg, s, f, w);
      case CertifyFull => CertifyTruthful(cfg, s, f, w);
      case _ =>
    }
  }

  lemma OpenTruthful(cfg: Config, s: ProviderState, f: Frame, w: World)
    ensures var (s', r) := HandleOpen(cfg, s, f, w); Truthful(f, s', r)
  {
    hide OpenAdmissible, OpenedSession;
  }

  lemma EpochTruthful(cfg: Config, s: ProviderState, f: Frame, w: World)
    ensures var (s', r) := HandleEpoch(cfg, s, f, w); Truthful(f, s', r)
  {
    hide AfterEpoch;
    if s.session.Some? && f.payload.EpochPayload? {
      EpochAnnounces(cfg, s.session.value, f.payload.epoch, f.attachments, w);
    }
  }

  lemma RefreshTruthful(cfg: Config, s: ProviderState, f: Frame, w: World)
    ensures var (s', r) := HandleRefresh(cfg, s, f, w); Truthful(f, s', r)
  {
    hide AfterEpoch, Exported;
    if s.session.Some? && f.payload.RefreshPayload? {
      EpochAnnounces(cfg, s.session.value, f.payload.refresh, f.attachments, w);
    }
  }

  lemma CertifyTruthful(cfg: Config, s: ProviderState, f: Frame, w: World)
    ensures var (s', r) := HandleCertify(cfg, s, f, w); Truthful(f, s', r)
  {
    hide Exported, PathListing;
    if s.session.Some? && f.payload.CertifyPayload? {
      ExportNamesCurrent(cfg, s.session.value, f.payload.authority,
        PathListing(s.session.value.engine.sources.Keys), w);
    }
  }

  lemma EpochAnnounces(cfg: Config, s: SessionState, b: EpochBody, attachments: seq<seq<byte>>, w: World)
    ensures AfterEpoch(cfg, s, b, attachments, w).1 ==> AfterEpoch(cfg, s, b, attachments, w).0.authority == b.next
  {
    hide EpochAdmissible, AfterReplacements, EvidenceMatches, Replacements;
  }
}
