/** What the Rust provider process answers to each request. Unlike the TypeScript one it
    keeps running after an error, so each error must leave a session that can be used. */
module RustProtocol {
  import opened Wrappers
  import opened Bytes
  import opened ProviderProtocol
  import Sorting

  // ---- validation shared by client and provider ----

  /** Unicode control characters in UTF-8: C0, DEL and the two-byte C1 range. */
  predicate ControlFree(text: Text) {
    && (forall b | b in text :: 32 <= b as int != 127)
    && (forall i | 0 <= i < |text| - 1 :: !(text[i] == 0xC2 && 0x80 <= text[i + 1] < 0xA0))
  }

  predicate ValidText(text: Text, maxBytes: nat) {
    text != [] && |text| <= maxBytes && ControlFree(text)
  }

  predicate ValidDocumentPath(path: Text) {
    SafeDocumentPath(path) && (0 as byte) !in path
  }

  predicate ValidDigestOption(digest: Option<Text>) {
    digest.Some? ==> IsSha256(digest.value)
  }

  predicate ValidAuthority(a: Authority) {
    && ValidText(a.sessionId, 128)
    && IsSha256(a.rootSha) && IsSha256(a.rootTopologySha) && IsSha256(a.configurationSha) && IsSha256(a.populationSha)
    && ValidDigestOption(a.workspaceResolutionSha) && ValidDigestOption(a.semanticInputsSha)
    && a.workspaceResolutionSha.Some? == a.semanticInputsSha.Some?
  }

  predicate Resolved(a: Authority) {
    ValidAuthority(a) && a.workspaceResolutionSha.Some? && a.semanticInputsSha.Some?
  }

  /** The Rust side bounds and cleans the texts of a source before it digests them. */
  predicate CleanSource(s: SourceIdentity) {
    ValidDocumentPath(s.documentPath) && ValidText(s.language, 64) && ValidText(s.contentIdentity, 256)
  }

  function CleanPopulationSha(sha256: seq<byte> -> Text, sources: seq<SourceIdentity>): Option<Text> {
    if forall s | s in sources :: CleanSource(s) then PopulationSha(sha256, sources) else None
  }

  ghost function CleanMapSha(sha256: seq<byte> -> Text, m: Sources): Option<Text> {
    if forall p | p in m :: CleanSource(m[p]) then MapSha(sha256, m) else None
  }

  lemma CleanShaByListing(sha256: seq<byte> -> Text, m: Sources, list: seq<SourceIdentity>)
    requires Keyed(m) && Lists(list, m)
    ensures CleanPopulationSha(sha256, list) == CleanMapSha(sha256, m)
  {
    MapShaByListing(sha256, m, list);
    hide CleanSource, PopulationSha, MapSha, DistinctPaths;
    if forall p | p in m :: CleanSource(m[p]) {
      forall s | s in list ensures CleanSource(s) {
        var i :| 0 <= i < |list| && list[i] == s;
        assert m[list[i].documentPath] == s;
      }
    }
  }

  // ---- repository and execution coordinates ----

  function ExecutionRelative(prefix: Text, path: Text): Option<Text> {
    if prefix == [] then Some(path)
    else if |path| > |prefix| + 1 && path[..|prefix|] == prefix && path[|prefix|] == SLASH
      then Some(path[|prefix| + 1..])
    else None
  }

  function RepositoryPath(prefix: Text, executionPath: Text): Text {
    if prefix == [] then executionPath else prefix + [SLASH] + executionPath
  }

  /** The two coordinates are inverse: a repository path has the execution path `r` exactly
      when it is the repository path of a non-empty `r`. */
  lemma CoordinatesInverse(prefix: Text, path: Text, r: Text)
    ensures ExecutionRelative(prefix, path) == Some(r)
      <==> RepositoryPath(prefix, r) == path && (prefix == [] || r != [])
  {
    if prefix != [] && ExecutionRelative(prefix, path) == Some(r) {
      assert path == path[..|prefix|] + [path[|prefix|]] + path[|prefix| + 1..];
    }
  }

  // ---- the session ----

  /** `host` is the analysed text of every file the provider loaded, by execution path. */
  datatype RootSession = RootSession(
    executionPrefix: Text,
    host: map<Text, Text>,
    authority: Authority,
    sources: Sources)

  datatype Config = Config(
    identity: Text,
    runtime: Text,
    configurationSha: Text,
    language: Blob,
    sha256: seq<byte> -> Text,
    isUtf8: seq<byte> -> bool)

  /** Where a repository path lives in the host, if it was loaded. */
  function HostFile(s: RootSession, path: Text): Option<Text> {
    match ExecutionRelative(s.executionPrefix, path)
    case None => None
    case Some(r) => if r in s.host then Some(r) else None
  }

  predicate ReplaceableBy(cfg: Config, s: RootSession, c: SourceChange, attachments: seq<seq<byte>>) {
    && c.language == cfg.language
    && c.documentPath in s.sources
    && s.sources[c.documentPath].contentIdentity == c.previousContentIdentity
    && s.sources[c.documentPath].contentSha == c.previousContentSha
    && 0 <= c.attachmentIndex < |attachments|
    && cfg.isUtf8(attachments[c.attachmentIndex])
    && HostFile(s, c.documentPath).Some?
    && cfg.sha256(s.host[HostFile(s, c.documentPath).value]) == c.previousContentSha
  }

  /** The host once every change has been handed to it in order. */
  function HostAfter(s: RootSession, changes: seq<SourceChange>, attachments: seq<seq<byte>>): map<Text, Text> {
    if changes == [] then s.host
    else
      var c := changes[|changes| - 1];
      var front := HostAfter(s, changes[..|changes| - 1], attachments);
      if HostFile(s, c.documentPath).Some? && 0 <= c.attachmentIndex < |attachments|
      then front[HostFile(s, c.documentPath).value := attachments[c.attachmentIndex]]
      else front
  }

  /** All of the epoch or, with None, none of it. */
  ghost function AfterEpoch(
    cfg: Config, s: RootSession, next: Authority, changes: seq<SourceChange>, attachments: seq<seq<byte>>)
    : Option<RootSession> {
    if (forall i | 0 <= i < |changes| :: ReplaceableBy(cfg, s, changes[i], attachments))
       && CleanMapSha(cfg.sha256, Override(s.sources, changes)) == Some(next.populationSha)
    then Some(s.(host := HostAfter(s, changes, attachments), sources := Override(s.sources, changes),
      authority := next))
    else None
  }

  // ---- requests ----

  datatype Analysis = Analysis(analysisId: Text, schemaVersion: Text, configurationId: Text)

  datatype Body =
    | Hello
    | OpenSession(repositoryRoot: Text, executionRoot: Text, executionPrefix: Text, authority: Authority,
                  sources: seq<SourceIdentity>, expectedInputs: Option<bool>)
    | ReconfigureSession(previous: Authority, next: Authority, expectedInputs: Option<bool>)
    | ApplyEpoch(previous: Authority, next: Authority, changes: seq<SourceChange>)
    | RefreshAffected(previous: Authority, next: Authority, changes: seq<SourceChange>,
                      parentSnapshot: Text, documents: seq<Text>, analyses: seq<Analysis>)
    | CertifyFull(certified: Authority, analyses: seq<Analysis>)
    | CloseSession

  /** `expectedInputs` says whether the semantic inputs a request predeclares, if any, are valid
      and complete, `providerWellFormed` whether the provider identity it names is well-formed:
      content this provider validates and then compares with nothing. */
  datatype Frame = Frame(
    requestId: int,
    sessionId: Text,
    expectedProvider: Text,
    providerWellFormed: bool,
    body: Body,
    attachments: seq<seq<byte>>)

  datatype LoadedRoot = LoadedRoot(host: map<Text, Text>, workspaceSha: Text, semanticInputsSha: Option<Text>)

  datatype Document = Document(relativePath: Text, encoded: Option<seq<byte>>)

  /** What the runtime, the file system and rust-analyzer show during one request. */
  datatype World = World(
    runtimeBefore: Option<Text>,
    inputsUnchangedBefore: bool,
    canonicalRepository: Option<Text>,
    derivedPrefix: Option<Text>,
    loaded: Option<LoadedRoot>,
    emission: seq<Document>,
    inputsUnchangedAfter: bool,
    runtimeAfter: Option<Text>)

  datatype ErrorCode = ReplayedRequest | InvalidRequest | RequestFailed

  datatype Response =
    | Error(code: ErrorCode)
    | HelloReply
    | SessionOpened(authority: Authority)
    | EpochApplied(authority: Authority)
    | AffectedRefreshed(authority: Authority, parentSnapshot: Text, outcomes: seq<DocumentOutcome>)
    | FullCertification(authority: Authority, outcomes: seq<DocumentOutcome>)
    | SessionClosed

  datatype Reply = Reply(response: Response, attachments: seq<seq<byte>>)

  const FAILED := Reply(Error(RequestFailed), [])

  // ---- request validation ----

  predicate ValidRoot(root: Text) {
    root != [] && |root| <= 4096 && ControlFree(root)
  }

  predicate ValidOpen(cfg: Config, sessionId: Text, b: Body)
    requires b.OpenSession?
  {
    && ValidRoot(b.repositoryRoot) && ValidRoot(b.executionRoot)
    && (b.executionPrefix == [] || ValidDocumentPath(b.executionPrefix))
    && ValidAuthority(b.authority)
    && b.authority.workspaceResolutionSha.None? && b.authority.semanticInputsSha.None?
    && b.authority.sessionId == sessionId
    && CleanPopulationSha(cfg.sha256, b.sources) == Some(b.authority.populationSha)
    && b.expectedInputs != Some(false)
  }

  predicate ValidAuthorities(sessionId: Text, previous: Authority, next: Authority) {
    && Resolved(previous) && Resolved(next)
    && previous.sessionId == sessionId
    && previous.sourceEpoch + 1 < U64_LIMIT
    && next.populationSha != previous.populationSha
    && next == previous.(populationSha := next.populationSha, sourceEpoch := previous.sourceEpoch + 1)
  }

  predicate ValidChange(cfg: Config, c: SourceChange, attachments: seq<seq<byte>>) {
    && ValidDocumentPath(c.documentPath)
    && ValidText(c.language, 64) && ValidText(c.previousContentIdentity, 256) && ValidText(c.contentIdentity, 256)
    && IsSha256(c.previousContentSha) && IsSha256(c.contentSha)
    && c.previousContentIdentity != c.contentIdentity && c.previousContentSha != c.contentSha
    && 0 <= c.attachmentIndex < |attachments|
    && cfg.sha256(attachments[c.attachmentIndex]) == c.contentSha
  }

  /** No path and no attachment is claimed by two changes. */
  predicate DistinctChanges(changes: seq<SourceChange>) {
    forall i, j | 0 <= i < j < |changes| ::
      changes[i].documentPath != changes[j].documentPath && changes[i].attachmentIndex != changes[j].attachmentIndex
  }

  predicate ValidTransition(
    cfg: Config, sessionId: Text, previous: Authority, next: Authority, changes: seq<SourceChange>,
    attachments: seq<seq<byte>>) {
    && ValidAuthorities(sessionId, previous, next)
    && 1 <= |changes| <= MAX_DOCUMENT_PATHS
    && (forall i | 0 <= i < |changes| :: ValidChange(cfg, changes[i], attachments))
    && DistinctChanges(changes)
    && |changes| == |attachments|
  }

  predicate ValidSelection(parentSnapshot: Text, documents: seq<Text>) {
    && IsSha256(parentSnapshot)
    && 1 <= |documents| <= MAX_DOCUMENT_PATHS
    && (forall d | d in documents :: ValidDocumentPath(d))
    && (forall i, j | 0 <= i < j < |documents| :: documents[i] != documents[j])
  }

  predicate ValidAnalysis(a: Analysis) {
    ValidText(a.analysisId, 128) && ValidText(a.schemaVersion, 256) && ValidText(a.configurationId, 512)
  }

  predicate ValidAnalyses(analyses: seq<Analysis>) {
    && (forall a | a in analyses :: ValidAnalysis(a))
    && (forall i, j | 0 <= i < j < |analyses| :: analyses[i].analysisId != analyses[j].analysisId)
  }

  /** Another root topology at the next epoch, over the same sources, not yet observed. */
  predicate ValidReconfiguration(sessionId: Text, previous: Authority, next: Authority) {
    && Resolved(previous) && ValidAuthority(next)
    && previous.sessionId == sessionId && next.sessionId == sessionId
    && next.workspaceResolutionSha.None? && next.semanticInputsSha.None?
    && previous.sourceEpoch + 1 < U64_LIMIT && next.sourceEpoch == previous.sourceEpoch + 1
    && next.rootSha == previous.rootSha && next.rootTopologySha != previous.rootTopologySha
    && next.configurationSha == previous.configurationSha && next.populationSha == previous.populationSha
  }

  predicate ValidBody(cfg: Config, f: Frame) {
    match f.body
    case Hello => f.attachments == []
    case CloseSession => f.attachments == []
    case OpenSession(_, _, _, _, _, _) => ValidOpen(cfg, f.sessionId, f.body) && f.attachments == []
    case ReconfigureSession(previous, next, expectedInputs) =>
      ValidReconfiguration(f.sessionId, previous, next) && expectedInputs == Some(true) && f.attachments == []
    case ApplyEpoch(previous, next, changes) => ValidTransition(cfg, f.sessionId, previous, next, changes,
      f.attachments)
    case RefreshAffected(previous, next, changes, parent, documents, analyses) =>
      && ValidTransition(cfg, f.sessionId, previous, next, changes, f.attachments)
      && ValidSelection(parent, documents)
      && ValidAnalyses(analyses)
    case CertifyFull(certified, analyses) =>
      && Resolved(certified) && certified.sessionId == f.sessionId && ValidAnalyses(analyses) && f.attachments == []
  }

  predicate ValidRequest(cfg: Config, f: Frame) {
    f.requestId != 0 && ValidText(f.sessionId, 128) && f.providerWellFormed && ValidBody(cfg, f)
  }

  // ---- export ----

  /** The documents by repository path; None when one was not asked for or came twice. */
  function FileEmission(prefix: Text, emission: seq<Document>, requested: set<Text>): Option<map<Text, Document>> {
    if emission == [] then Some(map[])
    else
      var d := emission[|emission| - 1];
      var path := RepositoryPath(prefix, d.relativePath);
      match FileEmission(prefix, emission[..|emission| - 1], requested)
      case None => None
      case Some(front) => if path !in requested || path in front then None else Some(front[path := d])
  }

  function EmittedBytes(documents: map<Text, Document>): Text -> Option<seq<byte>> {
    (path: Text) => if path in documents then documents[path].encoded else None
  }

  /** A set of paths in path order. */
  ghost function OrderedPaths(paths: set<Text>): (r: seq<Text>)
    ensures |r| == |paths|
    ensures forall p :: p in r <==> p in paths
  {
    PathOrderTotal();
    Sorting.SortSorts(PATH_ORDER, PathListing(paths));
    Sorting.Sort(PATH_ORDER, PathListing(paths))
  }

  ghost function Exported(cfg: Config, s: RootSession, documents: seq<Text>, emission: seq<Document>): Option<Export> {
    var requested := Elements(documents);
    if requested == {} || exists p | p in requested :: p !in s.sources || HostFile(s, p).None? then None
    else
      var filed := FileEmission(s.executionPrefix, emission, requested);
      if filed.None? || exists p | p in filed.value :: filed.value[p].encoded.None? then None
      else Some(ExportOf(cfg.sha256, s.sources, EmittedBytes(filed.value), OrderedPaths(requested)))
  }

  // ---- one request ----

  datatype ProviderState = ProviderState(lastRequestId: int, session: Option<RootSession>)

  const FRESH := ProviderState(0, None)

  predicate LoadedSource(cfg: Config, s: RootSession, source: SourceIdentity) {
    && source.language == cfg.language
    && HostFile(s, source.documentPath).Some?
    && cfg.sha256(s.host[HostFile(s, source.documentPath).value]) == source.contentSha
  }

  ghost function OpenedSession(cfg: Config, b: Body, w: World): Option<RootSession>
    requires b.OpenSession?
  {
    if w.canonicalRepository.None? || w.derivedPrefix != Some(b.executionPrefix)
       || cfg.sha256(w.canonicalRepository.value) != b.authority.rootSha
       || cfg.configurationSha != b.authority.configurationSha
       || b.authority.workspaceResolutionSha.Some? || b.authority.semanticInputsSha.Some?
       || b.expectedInputs.Some? || w.loaded.None? || w.loaded.value.semanticInputsSha.None?
    then None
    else
      var root := w.loaded.value;
      var authority := b.authority.(workspaceResolutionSha := Some(root.workspaceSha),
        semanticInputsSha := root.semanticInputsSha);
      var s := RootSession(b.executionPrefix, root.host, authority, SourceMap(b.sources));
      if CleanPopulationSha(cfg.sha256, b.sources) == Some(authority.populationSha)
         && DistinctPaths(b.sources) && forall source | source in b.sources :: LoadedSource(cfg, s, source)
      then Some(s)
      else None
  }

  predicate ExactSession(session: Option<RootSession>, sessionId: Text, authority: Authority) {
    session.Some? && session.value.authority == authority && authority.sessionId == sessionId
  }

  ghost function HandleApply(cfg: Config, s: ProviderState, f: Frame): (ProviderState, Reply)
    requires f.body.ApplyEpoch?
  {
    if !ExactSession(s.session, f.sessionId, f.body.previous) then (s, FAILED)
    else
      var moved := AfterEpoch(cfg, s.session.value, f.body.next, f.body.changes, f.attachments);
      if moved.None? then (s, FAILED)
      else (s.(session := moved), Reply(EpochApplied(f.body.next), []))
  }

  /** A failure after the epoch was applied is an error reply from the next authority. */
  ghost function HandleRefresh(cfg: Config, s: ProviderState, f: Frame, w: World): (ProviderState, Reply)
    requires f.body.RefreshAffected?
  {
    if f.body.analyses != [] || !ExactSession(s.session, f.sessionId, f.body.previous) then (s, FAILED)
    else
      var moved := AfterEpoch(cfg, s.session.value, f.body.next, f.body.changes, f.attachments);
      if moved.None? then (s, FAILED)
      else
        var s' := s.(session := moved);
        var answer := Exported(cfg, moved.value, f.body.documents, w.emission);
        if answer.None? || !w.inputsUnchangedAfter || w.runtimeAfter != Some(cfg.runtime) then (s', FAILED)
        else (s',
          Reply(AffectedRefreshed(f.body.next, f.body.parentSnapshot, answer.value.outcomes), answer.value.attachments))
  }

  ghost function HandleCertify(cfg: Config, s: ProviderState, f: Frame, w: World): (ProviderState, Reply)
    requires f.body.CertifyFull?
  {
    if f.body.analyses != [] || !ExactSession(s.session, f.sessionId, f.body.certified) then (s, FAILED)
    else
      var answer := Exported(cfg, s.session.value, PathListing(s.session.value.sources.Keys), w.emission);
      if answer.None? then (s, FAILED)
      else (s, Reply(FullCertification(f.body.certified, answer.value.outcomes), answer.value.attachments))
  }

  ghost function HandleOpen(cfg: Config, s: ProviderState, f: Frame, w: World): (ProviderState, Reply)
    requires f.body.OpenSession?
  {
    if s.session.Some? then (s, FAILED)
    else
      var session := OpenedSession(cfg, f.body, w);
      if session.None? then (s, FAILED) else (s.(session := session), Reply(SessionOpened(session.value.authority), []))
  }

  predicate ReverifiesInputs(b: Body) {
    b.Hello? || b.ApplyEpoch? || b.RefreshAffected? || b.CertifyFull?
  }

  ghost function HandleRequest(cfg: Config, s: ProviderState, f: Frame, w: World): (ProviderState, Reply) {
    if f.expectedProvider != cfg.identity then (s, FAILED)
    else if !f.body.CloseSession? && w.runtimeBefore != Some(cfg.runtime) then (s, FAILED)
    else if ReverifiesInputs(f.body) && s.session.Some? && !w.inputsUnchangedBefore then (s, FAILED)
    else
      match f.body
      case Hello => (s, Reply(HelloReply, []))
      case OpenSession(_, _, _, _, _, _) => HandleOpen(cfg, s, f, w)
      case ReconfigureSession(_, _, _) => (s, FAILED)
      case ApplyEpoch(_, _, _) => HandleApply(cfg, s, f)
      case RefreshAffected(_, _, _, _, _, _) => HandleRefresh(cfg, s, f, w)
      case CertifyFull(_, _) => HandleCertify(cfg, s, f, w)
      case CloseSession => (s, Reply(SessionClosed, []))
  }

  ghost function Handle(cfg: Config, s: ProviderState, f: Frame, w: World): (ProviderState, Reply) {
    if !ValidRequest(cfg, f) then (s, Reply(Error(InvalidRequest), []))
    else if f.requestId <= s.lastRequestId then (s, Reply(Error(ReplayedRequest), []))
    else HandleRequest(cfg, s.(lastRequestId := f.requestId), f, w)
  }
}
