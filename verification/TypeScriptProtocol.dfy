/** What one TypeScript provider process answers to each request, as a function of its
    state, the request and what the outside world shows it meanwhile. */
module TypeScriptProtocol {
  import opened Wrappers
  import opened Bytes
  import opened ProviderProtocol
  import Sorting

  // ---- the compiler engine ----

  /** `compilerText` is what the compiler session has been told each document contains. */
  datatype EngineState = EngineState(
    live: bool,
    sources: Sources,
    sourceBytes: map<Text, seq<byte>>,
    versions: map<Text, int>,
    compilerText: map<Text, seq<byte>>)

  datatype Replacement = Replacement(path: Text, bytes: seq<byte>, version: int, next: SourceIdentity)

  const INT32_LIMIT := 0x8000_0000

  /** The next 32-bit document version; the largest one wraps. */
  function NextVersion(v: int): int {
    if v + 1 == INT32_LIMIT then -INT32_LIMIT else v + 1
  }

  function Told(text: map<Text, seq<byte>>, rs: seq<Replacement>): map<Text, seq<byte>> {
    if rs == [] then text
    else Told(text, rs[..|rs| - 1])[rs[|rs| - 1].path := rs[|rs| - 1].bytes]
  }

  function Committed(e: EngineState, rs: seq<Replacement>): EngineState {
    if rs == [] then e
    else
      var r := rs[|rs| - 1];
      var front := Committed(e, rs[..|rs| - 1]);
      front.(
        sources := front.sources[r.path := r.next],
        sourceBytes := front.sourceBytes[r.path := r.bytes],
        versions := front.versions[r.path := r.version])
  }

  /** How many leading replacements satisfy a test. */
  function Leading(rs: seq<Replacement>, good: (int, Replacement) -> bool, from: int): (n: nat)
    ensures n <= |rs|
  {
    if rs == [] || !good(from, rs[0]) then 0 else 1 + Leading(rs[1..], good, from + 1)
  }

  /** Tell the compiler every replacement, then adopt them one by one; `refreshes(i)` is
      whether the project reloads after the i-th. Failure leaves whatever was done. */
  function AfterReplacements(
    e: EngineState, rs: seq<Replacement>, isUtf8: seq<byte> -> bool, refreshes: int -> bool): (EngineState, bool) {
    if !e.live || rs == [] then (e, false)
    else
      var valid := Leading(rs, (i: int, r: Replacement) => isUtf8(r.bytes), 0);
      var told := e.(compilerText := Told(e.compilerText, rs[..valid]));
      if valid < |rs| then (told, false)
      else
        var refreshed := Leading(rs, (i: int, r: Replacement) => refreshes(i), 0);
        if refreshed < |rs| then (Committed(told, rs[..refreshed + 1]), false)
        else (Committed(told, rs), true)
  }

  // ---- process configuration and the outside world ----

  datatype Runtime = Runtime(configurationSha: Text, report: Text)

  datatype Evidence = Evidence(workspaceSha: Text, semanticInputs: Text, health: Text)

  /** What is fixed when the process is admitted. */
  datatype Config = Config(
    identity: Text,
    runtime: Runtime,
    language: Blob,
    sha256: seq<byte> -> Text,
    semanticSha: Text -> Option<Text>,
    isUtf8: seq<byte> -> bool)

  datatype Document = Document(relativePath: Text, encoded: Option<seq<byte>>)

  /** What the runtime, the file system and the compiler show during one request. */
  datatype World = World(
    runtimeBefore: Option<Runtime>,
    evidenceBefore: Option<Evidence>,
    canonicalRepository: Option<Text>,
    canonicalExecution: Option<Text>,
    derivedPrefix: Option<Text>,
    insideExecution: Text -> bool,
    fileBytes: Text -> Option<seq<byte>>,
    projectLoads: bool,
    evidenceAtOpen: Option<Evidence>,
    evidenceAtAdmission: Option<Evidence>,
    refreshes: int -> bool,
    evidenceAfterEpoch: Option<Evidence>,
    exported: Option<seq<Document>>,
    evidenceAfterExport: Option<Evidence>,
    runtimeAfter: Option<Runtime>)

  // ---- requests and replies ----

  datatype OpenBody = OpenBody(
    executionPrefix: Text,
    authority: Authority,
    sources: seq<SourceIdentity>,
    hasExpectedInputs: bool)

  datatype EpochBody = EpochBody(previous: Authority, next: Authority, changes: seq<SourceChange>)

  datatype Operation =
    | Hello | OpenSession | ReconfigureSession | ApplyEpoch | RefreshAffected | CertifyFull | CloseSession | Unsupported

  datatype Payload =
    | OperationOnly
    | OpenPayload(open: OpenBody)
    | ReconfigurePayload
    | EpochPayload(epoch: EpochBody)
    | RefreshPayload(refresh: EpochBody, parentSnapshot: Text, documents: seq<Text>, analyses: nat)
    | CertifyPayload(authority: Authority, certifyAnalyses: nat)
    | Undecodable

  datatype Frame = Frame(
    requestId: int,
    sessionId: Text,
    expectedProvider: Text,
    operation: Option<Operation>,
    payload: Payload,
    attachments: seq<seq<byte>>)

  datatype ErrorCode = ReplayedRequest | InvalidRequest | RequestFailed

  datatype Response =
    | Error(code: ErrorCode)
    | HelloReply
    | SessionOpened(authority: Authority)
    | EpochApplied(authority: Authority)
    | AffectedRefreshed(authority: Authority, parentSnapshot: Text, outcomes: seq<DocumentOutcome>)
    | FullCertification(authority: Authority, outcomes: seq<DocumentOutcome>)
    | SessionClosed

  /** `closing` ends the process once the reply is written. */
  datatype Reply = Reply(response: Response, attachments: seq<seq<byte>>, closing: bool)

  function Refuse(code: ErrorCode, terminal: bool): Reply {
    Reply(Error(code), [], terminal)
  }

  // ---- process state ----

  datatype SessionState = SessionState(engine: EngineState, authority: Authority, semanticInputs: Text, health: Text)

  datatype ProviderState = ProviderState(lastRequestId: int, session: Option<SessionState>)

  const FRESH := ProviderState(0, None)

  // ---- opening ----

  predicate ValidOpenAuthority(cfg: Config, sessionId: Text, w: World, a: Authority) {
    && w.canonicalRepository.Some? && w.canonicalExecution.Some?
    && a.sessionId == sessionId
    && a.rootSha == cfg.sha256(w.canonicalRepository.value)
    && a.configurationSha == cfg.runtime.configurationSha
    && a.workspaceResolutionSha.None? && a.semanticInputsSha.None?
    && IsSha256(a.rootTopologySha) && a.sourceEpoch != 0
  }

  /** The engine starts only over sources whose bytes on disk have the declared digest. */
  predicate AdmissibleSource(cfg: Config, w: World, s: SourceIdentity) {
    && s.language == cfg.language && SafeDocumentPath(s.documentPath) && IsSha256(s.contentSha)
    && w.insideExecution(s.documentPath)
    && w.fileBytes(s.documentPath).Some?
    && cfg.sha256(w.fileBytes(s.documentPath).value) == s.contentSha
  }

  ghost predicate OpenAdmissible(cfg: Config, sessionId: Text, w: World, b: OpenBody) {
    && !b.hasExpectedInputs
    && ValidOpenAuthority(cfg, sessionId, w, b.authority)
    && PopulationSha(cfg.sha256, b.sources) == Some(b.authority.populationSha)
    && DistinctPaths(b.sources)
    && w.derivedPrefix == Some(b.executionPrefix)
    && 1 <= |b.sources| <= MAX_DOCUMENT_PATHS
    && (forall s | s in b.sources :: AdmissibleSource(cfg, w, s))
    && w.projectLoads
    && w.evidenceAtOpen.Some? && w.evidenceAtOpen == w.evidenceAtAdmission
    && cfg.semanticSha(w.evidenceAtOpen.value.semanticInputs).Some?
  }

  function ReadAll(w: World, paths: set<Text>): map<Text, seq<byte>> {
    map p | p in paths && w.fileBytes(p).Some? :: w.fileBytes(p).value
  }

  function OpenedSession(cfg: Config, w: World, b: OpenBody): SessionState
    requires w.evidenceAtOpen.Some? && cfg.semanticSha(w.evidenceAtOpen.value.semanticInputs).Some?
  {
    var sources := SourceMap(b.sources);
    var bytes := ReadAll(w, sources.Keys);
    var evidence := w.evidenceAtOpen.value;
    SessionState(
      EngineState(true, sources, bytes, map p | p in sources :: 1, bytes),
      b.authority.(
        workspaceResolutionSha := Some(evidence.workspaceSha),
        semanticInputsSha := cfg.semanticSha(evidence.semanticInputs)),
      evidence.semanticInputs,
      evidence.health)
  }

  // ---- epochs ----

  predicate EvidenceMatches(s: SessionState, evidence: Option<Evidence>) {
    && s.engine.live && evidence.Some?
    && s.authority.workspaceResolutionSha == Some(evidence.value.workspaceSha)
    && s.semanticInputs == evidence.value.semanticInputs
    && s.health == evidence.value.health
  }

  /** Same session, roots, configuration and evidence; the very next epoch. */
  predicate ValidTransition(current: Authority, b: EpochBody) {
    && b.previous == current
    && b.next == current.(populationSha := b.next.populationSha, sourceEpoch := b.next.sourceEpoch)
    && IsExactSuccessorEpoch(current.sourceEpoch, b.next.sourceEpoch)
    && b.changes != []
  }

  predicate ValidChange(cfg: Config, sources: Sources, c: SourceChange, attachments: seq<seq<byte>>) {
    && c.documentPath in sources && c.isReplace && c.language == cfg.language
    && sources[c.documentPath].contentIdentity == c.previousContentIdentity
    && sources[c.documentPath].contentSha == c.previousContentSha
    && 0 <= c.attachmentIndex < |attachments|
    && cfg.sha256(attachments[c.attachmentIndex]) == c.contentSha
    && c.contentIdentity != c.previousContentIdentity
    && c.contentSha != c.previousContentSha
  }

  /** Every check that precedes the first effect on the engine. */
  ghost predicate EpochAdmissible(cfg: Config, s: SessionState, b: EpochBody, attachments: seq<seq<byte>>) {
    && ValidTransition(s.authority, b)
    && (forall i | 0 <= i < |b.changes| :: ValidChange(cfg, s.engine.sources, b.changes[i], attachments))
    && ClaimsDistinct(b.changes)
    && |b.changes| == |attachments|
    && MapSha(cfg.sha256, Override(s.engine.sources, b.changes)) == Some(b.next.populationSha)
  }

  function AttachmentAt(attachments: seq<seq<byte>>, index: int): seq<byte> {
    if 0 <= index < |attachments| then attachments[index] else []
  }

  function ReplacementOf(e: EngineState, c: SourceChange, attachments: seq<seq<byte>>): Replacement {
    Replacement(
      c.documentPath,
      AttachmentAt(attachments, c.attachmentIndex),
      NextVersion(if c.documentPath in e.versions then e.versions[c.documentPath] else 0),
      NextSource(c))
  }

  function Replacements(e: EngineState, changes: seq<SourceChange>, attachments: seq<seq<byte>>): (rs: seq<Replacement>)
    ensures |rs| == |changes|
    ensures forall i | 0 <= i < |changes| :: rs[i] == ReplacementOf(e, changes[i], attachments)
  {
    seq(|changes|, i requires 0 <= i < |changes| => ReplacementOf(e, changes[i], attachments))
  }

  ghost function AfterEpoch(
    cfg: Config, s: SessionState, b: EpochBody, attachments: seq<seq<byte>>, w: World): (SessionState, bool) {
    if !EpochAdmissible(cfg, s, b, attachments) then (s, false)
    else
      var (engine, ok) := AfterReplacements(s.engine, Replacements(s.engine, b.changes, attachments), cfg.isUtf8,
        w.refreshes);
      var moved := s.(engine := engine);
      if !ok || !EvidenceMatches(moved, w.evidenceAfterEpoch) then (moved, false)
      else (moved.(authority := b.next), true)
  }

  // ---- export ----

  predicate ExportablePaths(sources: Sources, paths: seq<Text>) {
    && (forall p | p in paths :: p in sources && SafeDocumentPath(p))
    && (forall i | 0 <= i < |paths| - 1 :: paths[i] != paths[i + 1])
  }

  predicate DistinctDocuments(documents: seq<Document>) {
    forall i, j | 0 <= i < j < |documents| :: documents[i].relativePath != documents[j].relativePath
  }

  function DocumentFor(documents: seq<Document>, path: Text): Option<Document> {
    if documents == [] then None
    else if documents[|documents| - 1].relativePath == path then Some(documents[|documents| - 1])
    else DocumentFor(documents[..|documents| - 1], path)
  }

  function EmittedBytes(documents: seq<Document>): Text -> Option<seq<byte>> {
    (path: Text) => match DocumentFor(documents, path)
      case None => None
      case Some(d) => d.encoded
  }

  /** Every requested document that exists serializes to something. */
  predicate Serializable(documents: seq<Document>, paths: seq<Text>) {
    forall p | p in paths ::
      var d := DocumentFor(documents, p);
      d.Some? ==> d.value.encoded.Some? && d.value.encoded.value != []
  }

  predicate ExportAdmissible(s: SessionState, authority: Authority, documents: seq<Text>, w: World) {
    var paths := Sorting.Sort(PATH_ORDER, documents);
    && authority == s.authority
    && 1 <= |documents| <= MAX_DOCUMENT_PATHS
    && ExportablePaths(s.engine.sources, paths)
    && s.engine.live && w.exported.Some?
    && DistinctDocuments(w.exported.value)
    && Serializable(w.exported.value, paths)
    && EvidenceMatches(s, w.evidenceAfterExport)
  }

  function Exported(
    cfg: Config, s: SessionState, authority: Authority, documents: seq<Text>, w: World): Option<Export> {
    if !ExportAdmissible(s, authority, documents, w) then None
    else
      var paths := Sorting.Sort(PATH_ORDER, documents);
      Some(ExportOf(cfg.sha256, s.engine.sources, EmittedBytes(w.exported.value), paths))
  }

  // ---- one request ----

  ghost function HandleOpen(cfg: Config, s: ProviderState, f: Frame, w: World): (ProviderState, Reply) {
    if s.session.Some? || f.attachments != [] then (s, Refuse(RequestFailed, true))
    else if !f.payload.OpenPayload? then (s, Refuse(InvalidRequest, false))
    else if !OpenAdmissible(cfg, f.sessionId, w, f.payload.open) then (s, Refuse(RequestFailed, true))
    else
      var admitted := OpenedSession(cfg, w, f.payload.open);
      (s.(session := Some(admitted)), Reply(SessionOpened(admitted.authority), [], false))
  }

  ghost function HandleEpoch(cfg: Config, s: ProviderState, f: Frame, w: World): (ProviderState, Reply) {
    if s.session.None? then (s, Refuse(RequestFailed, true))
    else if !f.payload.EpochPayload? then (s, Refuse(InvalidRequest, false))
    else
      var (next, ok) := AfterEpoch(cfg, s.session.value, f.payload.epoch, f.attachments, w);
      var moved := s.(session := Some(next));
      if !ok then (moved, Refuse(RequestFailed, true)) else (moved, Reply(EpochApplied(next.authority), [], false))
  }

  ghost function HandleRefresh(cfg: Config, s: ProviderState, f: Frame, w: World): (ProviderState, Reply) {
    if s.session.None? then (s, Refuse(RequestFailed, true))
    else if !f.payload.RefreshPayload? then (s, Refuse(InvalidRequest, false))
    else if f.payload.analyses != 0 then (s, Refuse(InvalidRequest, false))
    else
      var (next, ok) := AfterEpoch(cfg, s.session.value, f.payload.refresh, f.attachments, w);
      var moved := s.(session := Some(next));
      if !ok then (moved, Refuse(RequestFailed, true))
      else
        var answer := Exported(cfg, next, f.payload.refresh.next, f.payload.documents, w);
        if answer.None? || w.runtimeAfter != Some(cfg.runtime) then (moved, Refuse(RequestFailed, true))
        else (moved, Reply(
          AffectedRefreshed(next.authority, f.payload.parentSnapshot, answer.value.outcomes), answer.value.attachments,
            false))
  }

  ghost function HandleCertify(cfg: Config, s: ProviderState, f: Frame, w: World): (ProviderState, Reply) {
    if s.session.None? || f.attachments != [] then (s, Refuse(RequestFailed, true))
    else if !f.payload.CertifyPayload? then (s, Refuse(InvalidRequest, false))
    else if f.payload.certifyAnalyses != 0 then (s, Refuse(InvalidRequest, false))
    else
      var session := s.session.value;
      var answer := Exported(cfg, session, f.payload.authority, PathListing(session.engine.sources.Keys), w);
      if answer.None? then (s, Refuse(RequestFailed, true))
      else (s, Reply(FullCertification(session.authority, answer.value.outcomes), answer.value.attachments, false))
  }

  ghost function HandleOperation(cfg: Config, s: ProviderState, f: Frame, w: World): (ProviderState, Reply)
    requires f.operation.Some?
  {
    match f.operation.value
    case Hello =>
      if f.attachments != [] || !f.payload.OperationOnly? then (s, Refuse(InvalidRequest, false))
      else (s, Reply(HelloReply, [], false))
    case OpenSession => HandleOpen(cfg, s, f, w)
    case ReconfigureSession =>
      (s, if f.payload.ReconfigurePayload? then Refuse(RequestFailed, true) else Refuse(InvalidRequest, false))
    case ApplyEpoch => HandleEpoch(cfg, s, f, w)
    case RefreshAffected => HandleRefresh(cfg, s, f, w)
    case CertifyFull => HandleCertify(cfg, s, f, w)
    case CloseSession =>
      if f.attachments != [] || !f.payload.OperationOnly? then (s, Refuse(InvalidRequest, false))
      else (s, Reply(SessionClosed, [], true))
    case Unsupported => (s, Refuse(InvalidRequest, false))
  }

  /** Operations before which the authority inputs are observed again. */
  predicate ReverifiesAuthority(op: Operation) {
    op != Hello && op != ReconfigureSession && op != CloseSession
  }

  ghost function Handle(cfg: Config, s: ProviderState, f: Frame, w: World): (ProviderState, Reply) {
    if f.requestId == 0 || f.requestId <= s.lastRequestId then (s, Refuse(ReplayedRequest, false))
    else
      var seen := s.(lastRequestId := f.requestId);
      if f.sessionId == [] || f.expectedProvider != cfg.identity then (seen, Refuse(InvalidRequest, false))
      else if f.operation.None? then (seen, Refuse(InvalidRequest, false))
      else if s.session.Some? && f.sessionId != s.session.value.authority.sessionId
        then (seen, Refuse(InvalidRequest, true))
      else if f.operation.value != CloseSession && w.runtimeBefore != Some(cfg.runtime)
        then (seen, Refuse(RequestFailed, true))
      else if s.session.Some? && ReverifiesAuthority(f.operation.value)
        && !EvidenceMatches(s.session.value, w.evidenceBefore)
      then (seen, Refuse(RequestFailed, true))
      else HandleOperation(cfg, seen, f, w)
  }
}
