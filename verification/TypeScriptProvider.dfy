/** The TypeScript provider as it runs: an engine, a session and a process whose fields are
    updated request by request, proved to compute what TypeScriptProtocol prescribes. */
module TypeScriptProvider {
  import opened Wrappers
  import opened Bytes
  import opened ProviderProtocol
  import opened TypeScriptProtocol
  import opened ProviderLoops
  import TypeScriptRuns
  import Sorting

  class Engine {
    var live: bool
    var sources: Sources
    var sourceBytes: map<Text, seq<byte>>
    var versions: map<Text, int>
    var compilerText: map<Text, seq<byte>>

    constructor (sources: Sources, sourceBytes: map<Text, seq<byte>>, versions: map<Text, int>)
      ensures State() == EngineState(true, sources, sourceBytes, versions, sourceBytes)
    {
      this.live := true;
      this.sources := sources;
      this.sourceBytes := sourceBytes;
      this.versions := versions;
      this.compilerText := sourceBytes;
    }

    function State(): EngineState
      reads this
    {
      EngineState(live, sources, sourceBytes, versions, compilerText)
    }

    method ApplyReplacements(
      replacements: seq<Replacement>, isUtf8: seq<byte> -> bool, refreshes: int -> bool) returns (ok: bool)
      modifies this
      ensures (State(), ok) == AfterReplacements(old(State()), replacements, isUtf8, refreshes)
    {
      if !live || replacements == [] { return false; }
      ghost var utf8 := (i: int, r: Replacement) => isUtf8(r.bytes);
      var i := 0;
      while i < |replacements|
        invariant 0 <= i <= |replacements|
        invariant Leading(replacements, utf8, 0) == i + Leading(replacements[i..], utf8, i)
        invariant State() == old(State()).(compilerText := Told(old(compilerText), replacements[..i]))
      {
        if !isUtf8(replacements[i].bytes) {
          assert Leading(replacements[i..], utf8, i) == 0;
          return false;
        }
        compilerText := compilerText[replacements[i].path := replacements[i].bytes];
        LastTold(old(compilerText), replacements, i);
        assert replacements[i..][1..] == replacements[i + 1..];
        i := i + 1;
      }
      assert replacements[..i] == replacements;
      ok := Adopt(replacements, refreshes);
    }

    method Adopt(replacements: seq<Replacement>, refreshes: int -> bool) returns (ok: bool)
      modifies this
      ensures var refreshed := Leading(replacements, (i: int, r: Replacement) => refreshes(i), 0);
              && ok == (refreshed == |replacements|)
              && State() == Committed(old(State()), if ok then replacements else replacements[..refreshed + 1])
    {
      ghost var reloads := (i: int, r: Replacement) => refreshes(i);
      var i := 0;
      while i < |replacements|
        invariant 0 <= i <= |replacements|
        invariant Leading(replacements, reloads, 0) == i + Leading(replacements[i..], reloads, i)
        invariant State() == Committed(old(State()), replacements[..i])
      {
        var r := replacements[i];
        sources := sources[r.path := r.next];
        sourceBytes := sourceBytes[r.path := r.bytes];
        versions := versions[r.path := r.version];
        LastCommitted(old(State()), replacements, i);
        if !refreshes(i) {
          assert Leading(replacements[i..], reloads, i) == 0;
          return false;
        }
        assert replacements[i..][1..] == replacements[i + 1..];
        i := i + 1;
      }
      assert replacements[..i] == replacements;
      ok := true;
    }
  }

  lemma LastTold(text: map<Text, seq<byte>>, rs: seq<Replacement>, i: nat)
    requires i < |rs|
    ensures Told(text, rs[..i + 1]) == Told(text, rs[..i])[rs[i].path := rs[i].bytes]
  {
    assert rs[..i + 1][..i] == rs[..i];
  }

  lemma LastCommitted(e: EngineState, rs: seq<Replacement>, i: nat)
    requires i < |rs|
    ensures Committed(e, rs[..i + 1]) == Committed(e, rs[..i]).(
              sources := Committed(e, rs[..i]).sources[rs[i].path := rs[i].next],
              sourceBytes := Committed(e, rs[..i]).sourceBytes[rs[i].path := rs[i].bytes],
              versions := Committed(e, rs[..i]).versions[rs[i].path := rs[i].version])
  {
    assert rs[..i + 1][..i] == rs[..i];
  }

  class Session {
    const engine: Engine
    var authority: Authority
    const semanticInputs: Text
    const health: Text

    constructor (engine: Engine, authority: Authority, semanticInputs: Text, health: Text)
      ensures this.engine == engine
      ensures State() == SessionState(engine.State(), authority, semanticInputs, health)
    {
      this.engine := engine;
      this.authority := authority;
      this.semanticInputs := semanticInputs;
      this.health := health;
    }

    ghost function State(): SessionState
      reads this, engine
    {
      SessionState(engine.State(), authority, semanticInputs, health)
    }

    method VerifyAuthorityInputs(evidence: Option<Evidence>) returns (ok: bool)
      ensures ok == EvidenceMatches(State(), evidence)
    {
      if !engine.live || evidence.None? { return false; }
      ok := authority.workspaceResolutionSha == Some(evidence.value.workspaceSha)
        && semanticInputs == evidence.value.semanticInputs && health == evidence.value.health;
    }

    /** The checks and the replacement list of an epoch; None when a change is invalid, an
        attachment is claimed twice or one is left unclaimed. */
    method PrepareEpoch(cfg: Config, changes: seq<SourceChange>, attachments: seq<seq<byte>>)
      returns (prepared: Option<(Sources, seq<Replacement>)>)
      ensures prepared.Some? <==>
        && (forall i | 0 <= i < |changes| :: ValidChange(cfg, engine.sources, changes[i], attachments))
        && ClaimsDistinct(changes) && |changes| == |attachments|
      ensures prepared.Some? ==>
        && prepared.value.0 == Override(engine.sources, changes)
        && prepared.value.1 == Replacements(engine.State(), changes, attachments)
    {
      var nextSources := engine.sources;
      var claimed: set<int> := {};
      var replacements: seq<Replacement> := [];
      var i := 0;
      while i < |changes|
        invariant 0 <= i <= |changes|
        invariant Prepared(cfg, engine.State(), changes[..i], attachments, nextSources, claimed, replacements)
      {
        hide ValidChange, Prepared, ClaimsDistinct, ReplacementOf;
        var change := changes[i];
        if !ValidChange(cfg, engine.sources, change, attachments) { return None; }
        PreparedNext(cfg, engine.State(), changes[..i], change, attachments, nextSources, claimed, replacements);
        assert changes[..i + 1] == changes[..i] + [change];
        if change.attachmentIndex in claimed {
          PrefixClaims(changes, i + 1);
          return None;
        }
        claimed := claimed + {change.attachmentIndex};
        nextSources := nextSources[change.documentPath := NextSource(change)];
        replacements := replacements + [ReplacementOf(engine.State(), change, attachments)];
        i := i + 1;
      }
      assert changes[..i] == changes;
      ClaimedSize(changes);
      if |claimed| != |attachments| { return None; }
      prepared := Some((nextSources, replacements));
    }

    /** Whether the whole epoch was carried out; a refused one leaves the session as it was,
        one that fails midway leaves whatever had been done. */
    method ApplyEpoch(cfg: Config, body: EpochBody, attachments: seq<seq<byte>>, w: World) returns (ok: bool)
      requires Keyed(engine.sources)
      modifies this, engine
      ensures (State(), ok) == AfterEpoch(cfg, old(State()), body, attachments, w)
    {
      hide ValidChange, AfterReplacements, ReplacementOf, Keyed;
      if !ValidTransition(authority, body) { return false; }
      var prepared := PrepareEpoch(cfg, body.changes, attachments);
      if prepared.None? { return false; }
      var (nextSources, replacements) := prepared.value;
      ChangedPathsKnown(cfg, engine.sources, body.changes, attachments);
      var populationSha := PopulationOf(cfg, engine.sources, body.changes, nextSources);
      if populationSha != Some(body.next.populationSha) { return false; }
      ok := engine.ApplyReplacements(replacements, cfg.isUtf8, w.refreshes);
      if !ok { return; }
      ok := VerifyAuthorityInputs(w.evidenceAfterEpoch);
      if ok { authority := body.next; }
    }

    method PopulationOf(cfg: Config, sources: Sources, changes: seq<SourceChange>, nextSources: Sources)
      returns (sha: Option<Text>)
      requires Keyed(sources) && nextSources == Override(sources, changes)
      requires forall c | c in changes :: c.documentPath in sources
      ensures sha == MapSha(cfg.sha256, nextSources)
    {
      OverrideKeyed(sources, changes);
      var population := ListSources(nextSources);
      MapShaByListing(cfg.sha256, nextSources, population);
      sha := PopulationSha(cfg.sha256, population);
    }

    /** The outcomes and attachments of a certified or refreshed set of documents. */
    method ExportDocuments(
      cfg: Config, authority: Authority, documents: seq<Text>, w: World) returns (answer: Option<Export>)
      ensures answer == Exported(cfg, State(), authority, documents, w)
    {
      hide EvidenceMatches, SafeDocumentPath, Sorting.Sort;
      if authority != this.authority || |documents| == 0 || |documents| > MAX_DOCUMENT_PATHS { return None; }
      var paths := Sorting.Sort(PATH_ORDER, documents);
      if !ExportablePaths(engine.sources, paths) { return None; }
      if !engine.live || w.exported.None? { return None; }
      var byPath := CollectDocuments(w.exported.value);
      if byPath.None? { return None; }
      var built := BuildOutcomes(cfg, engine.sources, w.exported.value, byPath.value, paths);
      if built.None? { return None; }
      var ok := VerifyAuthorityInputs(w.evidenceAfterExport);
      if !ok { return None; }
      answer := built;
    }
  }

  lemma ChangedPathsKnown(cfg: Config, sources: Sources, changes: seq<SourceChange>, attachments: seq<seq<byte>>)
    requires forall i | 0 <= i < |changes| :: ValidChange(cfg, sources, changes[i], attachments)
    ensures forall c | c in changes :: c.documentPath in sources
  {
  }

  // ---- the outcomes of an export ----

  /** The documents filed by path; None if the compiler emitted one path twice. */
  method CollectDocuments(documents: seq<Document>) returns (byPath: Option<map<Text, Document>>)
    ensures byPath.Some? <==> DistinctDocuments(documents)
    ensures byPath.Some? ==> Files(byPath.value, documents)
  {
    var filed: map<Text, Document> := map[];
    var i := 0;
    while i < |documents|
      invariant 0 <= i <= |documents|
      invariant DistinctDocuments(documents[..i])
      invariant Files(filed, documents[..i])
    {
      var d := documents[i];
      FilesOneMore(filed, documents, i);
      if d.relativePath in filed { return None; }
      filed := filed[d.relativePath := d];
      i := i + 1;
    }
    assert documents[..i] == documents;
    byPath := Some(filed);
  }

  ghost predicate Files(filed: map<Text, Document>, documents: seq<Document>) {
    forall p :: DocumentFor(documents, p) == if p in filed then Some(filed[p]) else None
  }

  lemma {:induction false} DocumentForAmong(documents: seq<Document>, p: Text)
    ensures DocumentFor(documents, p).Some? <==> exists k | 0 <= k < |documents| :: documents[k].relativePath == p
  {
    if documents != [] {
      var n := |documents| - 1;
      DocumentForAmong(documents[..n], p);
      if k :| 0 <= k < n && documents[k].relativePath == p {
        assert documents[..n][k].relativePath == p;
      }
      if DocumentFor(documents[..n], p).Some? {
        var k :| 0 <= k < n && documents[..n][k].relativePath == p;
        assert documents[k].relativePath == p;
      }
    }
  }

  lemma FilesOneMore(filed: map<Text, Document>, documents: seq<Document>, i: nat)
    requires i < |documents| && Files(filed, documents[..i]) && DistinctDocuments(documents[..i])
    ensures Files(filed[documents[i].relativePath := documents[i]], documents[..i + 1])
    ensures documents[i].relativePath in filed ==> !DistinctDocuments(documents)
    ensures documents[i].relativePath !in filed ==> DistinctDocuments(documents[..i + 1])
  {
    var d := documents[i];
    assert documents[..i + 1][..i] == documents[..i];
    DocumentForAmong(documents[..i], d.relativePath);
    if d.relativePath in filed {
      var k :| 0 <= k < i && documents[..i][k].relativePath == d.relativePath;
      assert documents[k].relativePath == documents[i].relativePath;
    } else {
      var front, more := documents[..i], documents[..i + 1];
      forall a, b | 0 <= a < b < |more| ensures more[a].relativePath != more[b].relativePath {
        assert more[a] == front[a];
        if b < i { assert more[b] == front[b]; }
      }
    }
  }

  method BuildOutcomes(
    cfg: Config, sources: Sources, documents: seq<Document>, byPath: map<Text, Document>, paths: seq<Text>)
    returns (built: Option<Export>)
    requires forall p | p in paths :: p in sources
    requires Files(byPath, documents)
    ensures built.Some? <==> Serializable(documents, paths)
    ensures built.Some? ==> built.value == ExportOf(cfg.sha256, sources, EmittedBytes(documents), paths)
  {
    var outcomes: seq<DocumentOutcome> := [];
    var attachments: seq<seq<byte>> := [];
    var i := 0;
    while i < |paths|
      invariant 0 <= i <= |paths|
      invariant Serializable(documents, paths[..i])
      invariant Export(outcomes, attachments) == ExportOf(cfg.sha256, sources, EmittedBytes(documents), paths[..i])
    {
      var path := paths[i];
      assert DocumentFor(documents, path) == if path in byPath then Some(byPath[path]) else None;
      assert paths[..i + 1][..i] == paths[..i] && paths[..i + 1][i] == path;
      hide DocumentFor;
      var identity := sources[path].contentIdentity;
      if path !in byPath {
        outcomes := outcomes + [Omitted(path, identity)];
      } else {
        var encoded := byPath[path].encoded;
        if encoded.None? || encoded.value == [] {
          assert path in paths;
          return None;
        }
        outcomes := outcomes + [Present(path, identity, cfg.sha256(encoded.value), |attachments|)];
        attachments := attachments + [encoded.value];
      }
      i := i + 1;
    }
    assert paths[..i] == paths;
    built := Some(Export(outcomes, attachments));
  }

  // ---- the preparation of an epoch ----

  ghost predicate Prepared(
    cfg: Config, e: EngineState, changes: seq<SourceChange>, attachments: seq<seq<byte>>,
    nextSources: Sources, claimed: set<int>, replacements: seq<Replacement>)
  {
    && (forall k | 0 <= k < |changes| :: ValidChange(cfg, e.sources, changes[k], attachments))
    && ClaimsDistinct(changes)
    && claimed == ClaimedBy(changes)
    && nextSources == Override(e.sources, changes)
    && replacements == Replacements(e, changes, attachments)
  }

  /** One more valid change keeps the preparation going exactly when its attachment is new. */
  lemma PreparedNext(
    cfg: Config, e: EngineState, changes: seq<SourceChange>, c: SourceChange, attachments: seq<seq<byte>>,
    nextSources: Sources, claimed: set<int>, replacements: seq<Replacement>)
    requires Prepared(cfg, e, changes, attachments, nextSources, claimed, replacements)
    requires ValidChange(cfg, e.sources, c, attachments)
    ensures c.attachmentIndex in claimed ==> !ClaimsDistinct(changes + [c])
    ensures c.attachmentIndex !in claimed ==> Prepared(
              cfg, e, changes + [c], attachments,
              nextSources[c.documentPath := NextSource(c)],
              claimed + {c.attachmentIndex},
              replacements + [ReplacementOf(e, c, attachments)])
  {
    hide ValidChange, ReplacementOf;
    var more := changes + [c];
    assert more[..|changes|] == changes;
    ClaimedOneMore(changes, c);
    NewClaim(changes, c);
    hide ClaimsDistinct;
    TypeScriptRuns.ReplacementsPrefix(e, more, attachments);
    hide ClaimedBy, NextSource, Replacements;
  }

  lemma NewClaim(changes: seq<SourceChange>, c: SourceChange)
    requires ClaimsDistinct(changes)
    ensures ClaimsDistinct(changes + [c]) <==> c.attachmentIndex !in ClaimedBy(changes)
  {
    var more := changes + [c];
    if c.attachmentIndex in ClaimedBy(changes) {
      var k :| 0 <= k < |changes| && changes[k].attachmentIndex == c.attachmentIndex;
      assert more[k].attachmentIndex == more[|changes|].attachmentIndex;
    }
  }

  lemma PrefixClaims(changes: seq<SourceChange>, i: nat)
    requires i <= |changes| && !ClaimsDistinct(changes[..i])
    ensures !ClaimsDistinct(changes)
  {
    var a, b :| 0 <= a < b < i && changes[..i][a].attachmentIndex == changes[..i][b].attachmentIndex;
    assert changes[a].attachmentIndex == changes[b].attachmentIndex;
  }

  // ---- opening ----

  /** The bytes of every source, each checked against its declared digest. */
  method ReadSources(cfg: Config, w: World, sources: Sources) returns (contents: Option<map<Text, seq<byte>>>)
    requires Keyed(sources)
    ensures contents.Some? <==> AllAdmissible(cfg, w, sources, sources.Keys)
    ensures contents.Some? ==> contents.value == ReadAll(w, sources.Keys)
  {
    var bytes: map<Text, seq<byte>> := map[];
    var pending := sources.Keys;
    while pending != {}
      invariant pending <= sources.Keys
      invariant AllAdmissible(cfg, w, sources, sources.Keys - pending)
      invariant bytes == ReadAll(w, sources.Keys - pending)
      decreases |pending|
    {
      var path :| path in pending;
      var done := sources.Keys - pending;
      assert sources.Keys - (pending - {path}) == done + {path};
      if !AdmissibleSource(cfg, w, sources[path]) { return None; }
      assert w.fileBytes(path).Some?;
      hide AdmissibleSource;
      bytes := bytes[path := w.fileBytes(path).value];
      ReadOneMore(w, done, path);
      pending := pending - {path};
    }
    assert sources.Keys - pending == sources.Keys;
    contents := Some(bytes);
  }

  ghost predicate AllAdmissible(cfg: Config, w: World, sources: Sources, paths: set<Text>) {
    forall p | p in paths && p in sources :: AdmissibleSource(cfg, w, sources[p])
  }

  lemma ReadOneMore(w: World, paths: set<Text>, path: Text)
    requires w.fileBytes(path).Some?
    ensures ReadAll(w, paths + {path}) == ReadAll(w, paths)[path := w.fileBytes(path).value]
  {
  }

  lemma AdmissibleByMap(cfg: Config, w: World, list: seq<SourceIdentity>, m: Sources)
    requires Lists(list, m)
    ensures (forall s | s in list :: AdmissibleSource(cfg, w, s)) <==> AllAdmissible(cfg, w, m, m.Keys)
  {
    hide AdmissibleSource, DistinctPaths;
    if AllAdmissible(cfg, w, m, m.Keys) {
      forall s | s in list ensures AdmissibleSource(cfg, w, s) {
        var i :| 0 <= i < |list| && list[i] == s;
        assert s.documentPath in m && m[s.documentPath] == s;
      }
    }
  }

  /** A session, or null when anything about it is not admissible. */
  method OpenTypeScriptSession(cfg: Config, sessionId: Text, body: OpenBody, w: World) returns (session: Session?)
    ensures session != null <==> OpenAdmissible(cfg, sessionId, w, body)
    ensures session != null
      ==> fresh(session) && fresh(session.engine) && session.State() == OpenedSession(cfg, w, body)
  {
    hide AdmissibleSource, PopulationSha, SourceMap, Lists, ReadAll, DistinctPaths;
    if body.hasExpectedInputs { return null; }
    if !ValidOpenAuthority(cfg, sessionId, w, body.authority) { return null; }
    if PopulationSha(cfg.sha256, body.sources) != Some(body.authority.populationSha) { return null; }
    var filed := FileSources(body.sources);
    if filed.None? { return null; }
    var sources := filed.value;
    SourceMapSize(body.sources);
    AdmissibleByMap(cfg, w, body.sources, sources);
    if w.derivedPrefix != Some(body.executionPrefix) { return null; }
    if |sources| == 0 || |sources| > MAX_DOCUMENT_PATHS { return null; }
    var contents := ReadSources(cfg, w, sources);
    if contents.None? || !w.projectLoads { return null; }
    if w.evidenceAtOpen.None? || w.evidenceAtOpen != w.evidenceAtAdmission { return null; }
    var evidence := w.evidenceAtOpen.value;
    var semanticSha := cfg.semanticSha(evidence.semanticInputs);
    if semanticSha.None? { return null; }
    var engine := new Engine(sources, contents.value, map p | p in sources :: 1);
    session := new Session(
      engine,
      body.authority.(workspaceResolutionSha := Some(evidence.workspaceSha), semanticInputsSha := semanticSha),
      evidence.semanticInputs,
      evidence.health);
  }

  // ---- the process ----

  class Provider {
    var session: Session?
    var lastRequestId: int

    constructor ()
      ensures State() == FRESH
    {
      session := null;
      lastRequestId := 0;
    }

    ghost function Footprint(): set<object>
      reads this, session
    {
      {this} + if session == null then {} else {session, session.engine}
    }

    ghost function State(): ProviderState
      reads this, session, if session == null then {} else {session.engine}
    {
      ProviderState(lastRequestId, if session == null then None else Some(session.State()))
    }

    /** What a running process keeps for its next request. */
    ghost predicate Valid(cfg: Config)
      reads this, session, if session == null then {} else {session.engine}
    {
      TypeScriptRuns.Healthy(cfg, State())
    }

    method HandleOpen(cfg: Config, f: Frame, w: World) returns (reply: Reply)
      modifies this
      ensures (State(), reply) == TypeScriptProtocol.HandleOpen(cfg, old(State()), f, w)
      ensures fresh(Footprint() - old(Footprint()))
    {
      hide OpenAdmissible, OpenedSession;
      if session != null || f.attachments != [] { return Refuse(RequestFailed, true); }
      if !f.payload.OpenPayload? { return Refuse(InvalidRequest, false); }
      var admitted := OpenTypeScriptSession(cfg, f.sessionId, f.payload.open, w);
      if admitted == null { return Refuse(RequestFailed, true); }
      session := admitted;
      reply := Reply(SessionOpened(session.authority), [], false);
    }

    method HandleEpoch(cfg: Config, f: Frame, w: World) returns (reply: Reply)
      requires Valid(cfg)
      modifies Footprint()
      ensures (State(), reply) == TypeScriptProtocol.HandleEpoch(cfg, old(State()), f, w)
      ensures Footprint() == old(Footprint())
    {
      hide AfterEpoch;
      if session == null { return Refuse(RequestFailed, true); }
      if !f.payload.EpochPayload? { return Refuse(InvalidRequest, false); }
      var ok := session.ApplyEpoch(cfg, f.payload.epoch, f.attachments, w);
      if !ok { return Refuse(RequestFailed, true); }
      reply := Reply(EpochApplied(session.authority), [], false);
    }

    method HandleRefresh(cfg: Config, f: Frame, w: World) returns (reply: Reply)
      requires Valid(cfg)
      modifies Footprint()
      ensures (State(), reply) == TypeScriptProtocol.HandleRefresh(cfg, old(State()), f, w)
      ensures Footprint() == old(Footprint())
    {
      hide AfterEpoch, Exported;
      if session == null { return Refuse(RequestFailed, true); }
      if !f.payload.RefreshPayload? { return Refuse(InvalidRequest, false); }
      if f.payload.analyses != 0 { return Refuse(InvalidRequest, false); }
      KeyedAlways(cfg, session.State());
      hide TypeScriptRuns.Consistent, Keyed;
      var ok := session.ApplyEpoch(cfg, f.payload.refresh, f.attachments, w);
      if !ok { return Refuse(RequestFailed, true); }
      var answer := session.ExportDocuments(cfg, f.payload.refresh.next, f.payload.documents, w);
      if answer.None? || w.runtimeAfter != Some(cfg.runtime) { return Refuse(RequestFailed, true); }
      reply := Reply(
        AffectedRefreshed(session.authority, f.payload.parentSnapshot, answer.value.outcomes),
        answer.value.attachments,
        false);
    }

    method HandleCertify(cfg: Config, f: Frame, w: World) returns (reply: Reply)
      requires Valid(cfg)
      ensures (State(), reply) == TypeScriptProtocol.HandleCertify(cfg, old(State()), f, w)
    {
      hide Exported;
      if session == null || f.attachments != [] { return Refuse(RequestFailed, true); }
      if !f.payload.CertifyPayload? { return Refuse(InvalidRequest, false); }
      if f.payload.certifyAnalyses != 0 { return Refuse(InvalidRequest, false); }
      var documents := ListPaths(session.engine.sources);
      var answer := session.ExportDocuments(cfg, f.payload.authority, documents, w);
      ExportOrderFree(cfg, session.State(), f.payload.authority, documents, PathListing(session.engine.sources.Keys),
        w);
      if answer.None? { return Refuse(RequestFailed, true); }
      reply := Reply(FullCertification(session.authority, answer.value.outcomes), answer.value.attachments, false);
    }

    /** The operation itself, once the request has been let through. */
    method HandleOperation(cfg: Config, f: Frame, w: World) returns (reply: Reply)
      requires Valid(cfg) && f.operation.Some?
      modifies Footprint()
      ensures (State(), reply) == TypeScriptProtocol.HandleOperation(cfg, old(State()), f, w)
      ensures fresh(Footprint() - old(Footprint()))
    {
      hide TypeScriptRuns.Consistent, TypeScriptProtocol.HandleOpen, TypeScriptProtocol.HandleEpoch,
        TypeScriptProtocol.HandleRefresh, TypeScriptProtocol.HandleCertify;
      match f.operation.value
      case Hello =>
        reply := if f.attachments != [] || !f.payload.OperationOnly? then Refuse(InvalidRequest, false)
          else Reply(HelloReply, [], false);
      case OpenSession =>
        reply := HandleOpen(cfg, f, w);
      case ReconfigureSession =>
        reply := if f.payload.ReconfigurePayload? then Refuse(RequestFailed, true) else Refuse(InvalidRequest, false);
      case ApplyEpoch =>
        reply := HandleEpoch(cfg, f, w);
      case RefreshAffected =>
        reply := HandleRefresh(cfg, f, w);
      case CertifyFull =>
        reply := HandleCertify(cfg, f, w);
      case CloseSession =>
        reply := if f.attachments != [] || !f.payload.OperationOnly? then Refuse(InvalidRequest, false)
          else Reply(SessionClosed, [], true);
      case Unsupported =>
        reply := Refuse(InvalidRequest, false);
    }

    /** One request, as prescribed; what the process keeps for the next one is valid again
        unless the reply ends the process. */
    method Handle(cfg: Config, f: Frame, w: World) returns (reply: Reply)
      requires Valid(cfg)
      modifies Footprint()
      ensures (State(), reply) == TypeScriptProtocol.Handle(cfg, old(State()), f, w)
      ensures !reply.closing ==> Valid(cfg)
      ensures fresh(Footprint() - old(Footprint()))
    {
      hide TypeScriptRuns.Consistent, TypeScriptRuns.Moves, EvidenceMatches, TypeScriptProtocol.HandleOperation;
      TypeScriptRuns.RequestKeeps(cfg, State(), f, w);
      if f.requestId == 0 || f.requestId <= lastRequestId { return Refuse(ReplayedRequest, false); }
      lastRequestId := f.requestId;
      if f.sessionId == [] || f.expectedProvider != cfg.identity { return Refuse(InvalidRequest, false); }
      if f.operation.None? { return Refuse(InvalidRequest, false); }
      var operation := f.operation.value;
      if session != null && f.sessionId != session.authority.sessionId { return Refuse(InvalidRequest, true); }
      if operation != CloseSession && w.runtimeBefore != Some(cfg.runtime) { return Refuse(RequestFailed, true); }
      if session != null && ReverifiesAuthority(operation) {
        var ok := session.VerifyAuthorityInputs(w.evidenceBefore);
        if !ok { return Refuse(RequestFailed, true); }
      }
      reply := HandleOperation(cfg, f, w);
    }
  }

  lemma KeyedAlways(cfg: Config, s: SessionState)
    ensures TypeScriptRuns.Consistent(cfg, s) ==> Keyed(s.engine.sources)
  {
  }

  /** An export does not depend on the order its documents are listed in. */
  lemma ExportOrderFree(cfg: Config, s: SessionState, authority: Authority, a: seq<Text>, b: seq<Text>, w: World)
    requires |a| == |b| == |s.engine.sources.Keys|
    requires forall p :: p in a <==> p in s.engine.sources.Keys
    requires forall p :: p in b <==> p in s.engine.sources.Keys
    ensures Exported(cfg, s, authority, a, w) == Exported(cfg, s, authority, b, w)
  {
    OnceEach(a, s.engine.sources.Keys);
    OnceEach(b, s.engine.sources.Keys);
    PathOrderTotal();
    Sorting.SortPermutation(PATH_ORDER, a, b);
    hide Sorting.Sort, Sorting.TotalOrder, ExportablePaths, Serializable, EvidenceMatches, ExportOf, DistinctDocuments;
  }
}
