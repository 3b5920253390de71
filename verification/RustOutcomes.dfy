/** Which answer the Rust provider gives to which request, and what the answer says. */
module RustOutcomes {
  import opened Wrappers
  import opened Bytes
  import opened Splitting
  import opened ProviderProtocol
  import opened RustProtocol
  import opened RustRuns
  import Sorting
  import Sets

  // ---- which requests are well-formed ----

  /** Some text, no longer than a bound, without a control character. */
  ghost predicate Readable(text: Text, most: nat) {
    && 1 <= |text| <= most
    && (forall i | 0 <= i < |text| :: 0x20 <= text[i] as int && text[i] != 0x7F)
    && (forall i | 0 < i < |text| :: text[i - 1] == 0xC2 ==> 0x80 > text[i] as int || 0xA0 <= text[i] as int)
  }

  ghost predicate WellFormedPath(path: Text) {
    SafeDocumentPath(path) && forall i | 0 <= i < |path| :: path[i] != 0
  }

  /** The parts of an authority, with what is observed present or absent together. */
  ghost predicate WellFormedAuthority(a: Authority, observed: bool) {
    && Readable(a.sessionId, 128)
    && IsSha256(a.rootSha) && IsSha256(a.rootTopologySha) && IsSha256(a.configurationSha) && IsSha256(a.populationSha)
    && (if observed
        then && a.workspaceResolutionSha.Some? && IsSha256(a.workspaceResolutionSha.value)
             && a.semanticInputsSha.Some? && IsSha256(a.semanticInputsSha.value)
        else a.workspaceResolutionSha.None? && a.semanticInputsSha.None?)
  }

  ghost predicate WellFormedAnalyses(analyses: seq<Analysis>) {
    && (forall a | a in analyses ::
         Readable(a.analysisId, 128) && Readable(a.schemaVersion, 256) && Readable(a.configurationId, 512))
    && (forall i, j | 0 <= i < j < |analyses| :: analyses[i].analysisId != analyses[j].analysisId)
  }

  /** A change to other contents, those of the attachment it names. */
  ghost predicate WellFormedChange(cfg: Config, c: SourceChange, attachments: seq<seq<byte>>) {
    && WellFormedPath(c.documentPath) && Readable(c.language, 64)
    && Readable(c.previousContentIdentity, 256) && Readable(c.contentIdentity, 256)
    && IsSha256(c.previousContentSha) && IsSha256(c.contentSha)
    && c.contentIdentity != c.previousContentIdentity && c.contentSha != c.previousContentSha
    && 0 <= c.attachmentIndex < |attachments| && cfg.sha256(attachments[c.attachmentIndex]) == c.contentSha
  }

  /** One attachment for each of one to 4096 changes, no path twice, and an authority that moves
      by one epoch to another population. */
  ghost predicate WellFormedEpoch(
    cfg: Config, sessionId: Text, previous: Authority, next: Authority, changes: seq<SourceChange>,
    attachments: seq<seq<byte>>) {
    && WellFormedAuthority(previous, true) && IsSha256(next.populationSha)
    && previous.sessionId == sessionId
    && next.populationSha != previous.populationSha
    && next == previous.(populationSha := next.populationSha, sourceEpoch := previous.sourceEpoch + 1)
    && next.sourceEpoch < U64_LIMIT
    && 1 <= |changes| == |attachments| <= 4096
    && (forall i | 0 <= i < |changes| :: WellFormedChange(cfg, changes[i], attachments))
    && (forall i, j | 0 <= i < j < |changes| ::
         changes[i].documentPath != changes[j].documentPath && changes[i].attachmentIndex != changes[j].attachmentIndex)
  }

  ghost predicate WellFormedBody(cfg: Config, f: Frame) {
    match f.body
    case Hello => true
    case CloseSession => true
    case OpenSession(repositoryRoot, executionRoot, executionPrefix, authority, sources, expectedInputs) =>
      && Readable(repositoryRoot, 4096) && Readable(executionRoot, 4096)
      && (executionPrefix != [] ==> WellFormedPath(executionPrefix))
      && WellFormedAuthority(authority, false) && authority.sessionId == f.sessionId
      && PopulationSha(cfg.sha256, sources) == Some(authority.populationSha)
      && (forall s | s in sources ::
           WellFormedPath(s.documentPath) && Readable(s.language, 64) && Readable(s.contentIdentity, 256))
      && expectedInputs != Some(false)
    case ReconfigureSession(previous, next, expectedInputs) =>
      && WellFormedAuthority(previous, true) && WellFormedAuthority(next, false)
      && previous.sessionId == f.sessionId
      && next.rootTopologySha != previous.rootTopologySha
      && next == previous.(rootTopologySha := next.rootTopologySha, workspaceResolutionSha := None,
                           semanticInputsSha := None, sourceEpoch := previous.sourceEpoch + 1)
      && next.sourceEpoch < U64_LIMIT
      && expectedInputs == Some(true)
    case ApplyEpoch(previous, next, changes) =>
      WellFormedEpoch(cfg, f.sessionId, previous, next, changes, f.attachments)
    case RefreshAffected(previous, next, changes, parentSnapshot, documents, analyses) =>
      && WellFormedEpoch(cfg, f.sessionId, previous, next, changes, f.attachments)
      && IsSha256(parentSnapshot)
      && 1 <= |documents| <= 4096 && Sorting.Distinct(documents) && (forall d | d in documents :: WellFormedPath(d))
      && WellFormedAnalyses(analyses)
    case CertifyFull(certified, analyses) =>
      && WellFormedAuthority(certified, true) && certified.sessionId == f.sessionId && WellFormedAnalyses(analyses)
  }

  ghost predicate WellFormed(cfg: Config, f: Frame) {
    && f.requestId != 0 && Readable(f.sessionId, 128) && f.providerWellFormed
    && (EpochOf(f.body).None? ==> f.attachments == [])
    && WellFormedBody(cfg, f)
  }

  lemma ReadableIff(text: Text, most: nat)
    ensures ValidText(text, most) <==> Readable(text, most)
  {
    if ControlFree(text) {
      forall i | 0 <= i < |text| ensures 0x20 <= text[i] as int && text[i] != 0x7F { assert text[i] in text; }
      forall i | 0 < i < |text| ensures text[i - 1] == 0xC2 ==> 0x80 > text[i] as int || 0xA0 <= text[i] as int {
        assert !(text[i - 1] == 0xC2 && 0x80 <= text[i - 1 + 1] < 0xA0);
      }
    }
    if Readable(text, most) {
      forall i | 0 <= i < |text| - 1 ensures !(text[i] == 0xC2 && 0x80 <= text[i + 1] < 0xA0) {
        assert text[i + 1 - 1] == 0xC2 ==> 0x80 > text[i + 1] as int || 0xA0 <= text[i + 1] as int;
      }
    }
  }

  lemma WellFormedPathIff(path: Text)
    ensures ValidDocumentPath(path) <==> WellFormedPath(path)
  {
    hide SafeDocumentPath;
  }

  lemma WellFormedAuthorityIff(a: Authority)
    ensures Resolved(a) <==> WellFormedAuthority(a, true)
    ensures ValidAuthority(a) && a.workspaceResolutionSha.None? && a.semanticInputsSha.None? <==>
      WellFormedAuthority(a, false)
  {
    hide ValidText, Readable, IsSha256;
    ReadableIff(a.sessionId, 128);
  }

  lemma WellFormedAnalysesIff(analyses: seq<Analysis>)
    ensures ValidAnalyses(analyses) <==> WellFormedAnalyses(analyses)
  {
    hide ValidText, Readable;
    forall a: Analysis
      ensures ValidAnalysis(a) <==>
        Readable(a.analysisId, 128) && Readable(a.schemaVersion, 256) && Readable(a.configurationId, 512)
    {
      ReadableIff(a.analysisId, 128);
      ReadableIff(a.schemaVersion, 256);
      ReadableIff(a.configurationId, 512);
    }
    hide ValidAnalysis;
  }

  lemma WellFormedEpochIff(
    cfg: Config, sessionId: Text, previous: Authority, next: Authority, changes: seq<SourceChange>,
    attachments: seq<seq<byte>>)
    ensures ValidTransition(cfg, sessionId, previous, next, changes, attachments) <==>
      WellFormedEpoch(cfg, sessionId, previous, next, changes, attachments)
  {
    hide ValidChange, WellFormedChange, ValidText, Readable, IsSha256, ValidDocumentPath, WellFormedPath;
    WellFormedAuthorityIff(previous);
    WellFormedAuthorityIff(next);
    forall i | 0 <= i < |changes|
      ensures ValidChange(cfg, changes[i], attachments) <==> WellFormedChange(cfg, changes[i], attachments)
    {
      WellFormedChangeIff(cfg, changes[i], attachments);
    }
  }

  lemma WellFormedChangeIff(cfg: Config, c: SourceChange, attachments: seq<seq<byte>>)
    ensures ValidChange(cfg, c, attachments) <==> WellFormedChange(cfg, c, attachments)
  {
    hide ValidText, Readable, IsSha256, ValidDocumentPath, WellFormedPath;
    WellFormedPathIff(c.documentPath);
    ReadableIff(c.language, 64);
    ReadableIff(c.previousContentIdentity, 256);
    ReadableIff(c.contentIdentity, 256);
  }

  lemma WellFormedOpenIff(cfg: Config, f: Frame)
    requires f.body.OpenSession?
    ensures ValidOpen(cfg, f.sessionId, f.body) <==> WellFormedBody(cfg, f)
  {
    hide ValidText, Readable, IsSha256, ValidDocumentPath, WellFormedPath, PopulationSha, WellFormedAuthority;
    var b := f.body;
    RootIff(b.repositoryRoot);
    RootIff(b.executionRoot);
    WellFormedPathIff(b.executionPrefix);
    WellFormedAuthorityIff(b.authority);
    forall s: SourceIdentity
      ensures CleanSource(s) <==>
        WellFormedPath(s.documentPath) && Readable(s.language, 64) && Readable(s.contentIdentity, 256)
    {
      WellFormedPathIff(s.documentPath);
      ReadableIff(s.language, 64);
      ReadableIff(s.contentIdentity, 256);
    }
    hide CleanSource, ValidAuthority, ValidRoot;
  }

  lemma RootIff(root: Text)
    ensures ValidRoot(root) <==> Readable(root, 4096)
  {
    hide ControlFree, Readable;
    ReadableIff(root, 4096);
  }

  /** The checks that both sides of the protocol share accept exactly the well-formed requests. */
  lemma WellFormedIff(cfg: Config, f: Frame)
    ensures ValidRequest(cfg, f) <==> WellFormed(cfg, f)
  {
    hide ValidText, Readable, IsSha256, ValidDocumentPath, WellFormedPath, ValidOpen, ValidTransition, WellFormedEpoch;
    hide ValidAnalyses, WellFormedAnalyses, ValidAuthority, WellFormedAuthority, Resolved;
    ReadableIff(f.sessionId, 128);
    match f.body
    case OpenSession(_, _, _, _, _, _) => WellFormedOpenIff(cfg, f);
    case ReconfigureSession(previous, next, _) =>
      WellFormedAuthorityIff(previous);
      WellFormedAuthorityIff(next);
    case ApplyEpoch(previous, next, changes) =>
      WellFormedEpochIff(cfg, f.sessionId, previous, next, changes, f.attachments);
    case RefreshAffected(previous, next, changes, _, documents, analyses) =>
      WellFormedEpochIff(cfg, f.sessionId, previous, next, changes, f.attachments);
      WellFormedAnalysesIff(analyses);
      forall d { WellFormedPathIff(d); }
    case CertifyFull(certified, analyses) =>
      WellFormedAuthorityIff(certified);
      WellFormedAnalysesIff(analyses);
    case _ =>
  }

  // ---- which are heard ----

  /** New, for this provider, with the runtime as it was and, for a greeting or anything that is
      done with an open session, its inputs as well; a goodbye is heard whatever has changed. */
  ghost predicate Heard(cfg: Config, s: ProviderState, f: Frame, w: World) {
    && WellFormed(cfg, f) && s.lastRequestId < f.requestId && f.expectedProvider == cfg.identity
    && (f.body.CloseSession? || w.runtimeBefore == Some(cfg.runtime))
    && (s.session.Some? ==>
         w.inputsUnchangedBefore || f.body.OpenSession? || f.body.ReconfigureSession? || f.body.CloseSession?)
  }

  lemma HeardOnly(cfg: Config, s: ProviderState, f: Frame, w: World)
    ensures Handle(cfg, s, f, w) ==
      if !WellFormed(cfg, f) then (s, Reply(Error(InvalidRequest), []))
      else if f.requestId <= s.lastRequestId then (s, Reply(Error(ReplayedRequest), []))
      else if !Heard(cfg, s, f, w) then (s.(lastRequestId := f.requestId), Reply(Error(RequestFailed), []))
      else HandleRequest(cfg, s.(lastRequestId := f.requestId), f, w)
  {
    hide ValidRequest, WellFormed, HandleApply, HandleRefresh, HandleCertify, HandleOpen;
    WellFormedIff(cfg, f);
  }

  // ---- opening ----

  /** What the provider checks, beyond the form of the request, before it opens a session. */
  ghost predicate Opens(cfg: Config, b: Body, w: World)
    requires b.OpenSession?
  {
    && w.canonicalRepository.Some? && cfg.sha256(w.canonicalRepository.value) == b.authority.rootSha
    && w.derivedPrefix == Some(b.executionPrefix)
    && b.authority.configurationSha == cfg.configurationSha
    && b.expectedInputs == None
    && w.loaded.Some? && w.loaded.value.semanticInputsSha.Some?
    && (forall s | s in b.sources :: s.language == cfg.language && exists file ::
         && RepositoryPath(b.executionPrefix, file) == s.documentPath
         && file in w.loaded.value.host && file != []
         && cfg.sha256(w.loaded.value.host[file]) == s.contentSha)
  }

  lemma LoadedIff(cfg: Config, s: RootSession, source: SourceIdentity)
    requires source.documentPath != []
    ensures LoadedSource(cfg, s, source) <==>
      source.language == cfg.language && exists file ::
        && RepositoryPath(s.executionPrefix, file) == source.documentPath
        && file in s.host && file != []
        && cfg.sha256(s.host[file]) == source.contentSha
  {
    hide RepositoryPath, ExecutionRelative;
    if LoadedSource(cfg, s, source) {
      CoordinatesInverse(s.executionPrefix, source.documentPath, HostFile(s, source.documentPath).value);
      RelativeNotEmpty(s.executionPrefix, source.documentPath);
    }
    if file :| RepositoryPath(s.executionPrefix, file) == source.documentPath && file in s.host && file != []
               && cfg.sha256(s.host[file]) == source.contentSha {
      CoordinatesInverse(s.executionPrefix, source.documentPath, file);
    }
  }

  lemma RelativeNotEmpty(prefix: Text, path: Text)
    requires path != []
    ensures ExecutionRelative(prefix, path) != Some([])
  {
  }

  /** What a session holds when it is opened: the announced authority completed by the digests of
      what was loaded, each in its own place, the host as loaded, and each source by its path. */
  ghost predicate OpensWith(b: Body, w: World, s: RootSession)
    requires b.OpenSession? && w.loaded.Some?
  {
    && s.authority.workspaceResolutionSha == Some(w.loaded.value.workspaceSha)
    && s.authority.semanticInputsSha == w.loaded.value.semanticInputsSha
    && s.authority.(workspaceResolutionSha := None, semanticInputsSha := None) == b.authority
    && s.executionPrefix == b.executionPrefix && s.host == w.loaded.value.host
    && (forall p :: p in s.sources <==> exists i | 0 <= i < |b.sources| :: b.sources[i].documentPath == p)
    && (forall i | 0 <= i < |b.sources| ::
         b.sources[i].documentPath in s.sources && s.sources[b.sources[i].documentPath] == b.sources[i])
  }

  lemma OpensIff(cfg: Config, f: Frame, w: World)
    requires f.body.OpenSession? && WellFormed(cfg, f)
    ensures OpenedSession(cfg, f.body, w).Some? <==> Opens(cfg, f.body, w)
    ensures Opens(cfg, f.body, w) ==> OpensWith(f.body, w, OpenedSession(cfg, f.body, w).value)
  {
    hide LoadedSource, PopulationSha, CleanSource, SafeDocumentPath, IsSha256, Readable, SourceMap;
    var b := f.body;
    WellFormedOpenIff(cfg, f);
    PopulationAcceptedIff(cfg.sha256, b.sources);
    SourceMapLists(b.sources);
    if w.loaded.Some? {
      var authority := b.authority.(workspaceResolutionSha := Some(w.loaded.value.workspaceSha),
                                    semanticInputsSha := w.loaded.value.semanticInputsSha);
      var s := RootSession(b.executionPrefix, w.loaded.value.host, authority, SourceMap(b.sources));
      forall source | source in b.sources
        ensures LoadedSource(cfg, s, source) <==>
          source.language == cfg.language && exists file ::
            && RepositoryPath(b.executionPrefix, file) == source.documentPath
            && file in w.loaded.value.host && file != []
            && cfg.sha256(w.loaded.value.host[file]) == source.contentSha
      {
        NotEmptyPath(source.documentPath);
        LoadedIff(cfg, s, source);
      }
    }
  }

  lemma NotEmptyPath(path: Text)
    ensures SafeDocumentPath(path) ==> path != []
  {
  }

  /** A session is opened exactly when there is none yet and every check passes. */
  lemma OpenedIff(cfg: Config, s: ProviderState, f: Frame, w: World)
    ensures var (s', r) := Handle(cfg, s, f, w);
            && (r.response.SessionOpened? <==>
                 Heard(cfg, s, f, w) && s.session.None? && f.body.OpenSession? && Opens(cfg, f.body, w))
            && (r.response.SessionOpened? ==>
                 && s'.session.Some? && OpensWith(f.body, w, s'.session.value)
                 && r.response.authority == s'.session.value.authority)
  {
    hide OpenedSession, Opens, OpensWith, AfterEpoch, Exported, PathListing, WellFormed;
    HeardOnly(cfg, s, f, w);
    if f.body.OpenSession? && WellFormed(cfg, f) { OpensIff(cfg, f, w); }
  }

  // ---- epochs ----

  /** What the provider checks, beyond the form of the request, before it moves a session on. */
  ghost predicate CarriesOut(cfg: Config, s: RootSession, e: Epoch, attachments: seq<seq<byte>>) {
    && s.authority == e.previous
    && (forall i | 0 <= i < |e.changes| :: Fits(cfg, s.sources, e.changes[i], attachments))
    && MapSha(cfg.sha256, Override(s.sources, e.changes)) == Some(e.next.populationSha)
  }

  ghost predicate Fits(cfg: Config, sources: Sources, c: SourceChange, attachments: seq<seq<byte>>) {
    && c.language == cfg.language && c.documentPath in sources
    && sources[c.documentPath].contentIdentity == c.previousContentIdentity
    && sources[c.documentPath].contentSha == c.previousContentSha
    && 0 <= c.attachmentIndex < |attachments| && cfg.isUtf8(attachments[c.attachmentIndex])
  }

  /** In a consistent session neither the host nor the cleanliness of texts can stand in the way. */
  lemma CarriesOutIff(cfg: Config, s: RootSession, e: Epoch, attachments: seq<seq<byte>>)
    requires Consistent(cfg, s)
    requires forall i | 0 <= i < |e.changes| :: ValidChange(cfg, e.changes[i], attachments)
    ensures s.authority == e.previous && AfterEpoch(cfg, s, e.next, e.changes, attachments).Some? <==>
      CarriesOut(cfg, s, e, attachments)
  {
    hide MapSha, ValidChange, CleanSource, Consistent, ReplaceableBy;
    forall i | 0 <= i < |e.changes|
      ensures ReplaceableBy(cfg, s, e.changes[i], attachments) <==> Fits(cfg, s.sources, e.changes[i], attachments)
    {
      HostNeverDrifts(cfg, s, e.changes[i], attachments);
    }
    CleanAlways(cfg, s);
    forall p | p in Override(s.sources, e.changes) ensures CleanSource(Override(s.sources, e.changes)[p]) {
      CleanOverride(cfg, s.sources, e.changes, attachments, p);
    }
    hide Override, Fits;
  }

  lemma CleanAlways(cfg: Config, s: RootSession)
    requires Consistent(cfg, s)
    ensures forall p | p in s.sources :: CleanSource(s.sources[p])
    ensures MapSha(cfg.sha256, s.sources).Some?
    ensures Keyed(s.sources)
  {
    hide MapSha, CleanSource, HostMatches;
  }

  lemma {:induction false} CleanOverride(
    cfg: Config, sources: Sources, changes: seq<SourceChange>, attachments: seq<seq<byte>>, p: Text)
    requires forall q | q in sources :: CleanSource(sources[q])
    requires forall i | 0 <= i < |changes| :: ValidChange(cfg, changes[i], attachments)
    requires p in Override(sources, changes)
    ensures CleanSource(Override(sources, changes)[p])
  {
    hide ValidText, ValidDocumentPath, IsSha256;
    if changes != [] {
      var n := |changes| - 1;
      assert ValidChange(cfg, changes[n], attachments);
      if changes[n].documentPath != p { CleanOverride(cfg, sources, changes[..n], attachments, p); }
    }
  }

  lemma EpochWellFormed(cfg: Config, f: Frame)
    requires WellFormed(cfg, f) && EpochOf(f.body).Some?
    ensures var e := EpochOf(f.body).value;
            && (forall i | 0 <= i < |e.changes| :: ValidChange(cfg, e.changes[i], f.attachments))
            && DistinctChanges(e.changes)
            && e.previous.sessionId == f.sessionId
  {
    WellFormedIff(cfg, f);
    hide WellFormed, ValidChange, DistinctChanges, Resolved;
  }

  /** An epoch is applied exactly when a session is open and every check passes; the answer
      announces the next authority, which the session then holds. */
  lemma AppliedIff(cfg: Config, s: ProviderState, f: Frame, w: World)
    requires Healthy(cfg, s)
    ensures var (s', r) := Handle(cfg, s, f, w);
            && (r.response.EpochApplied? <==>
                 && Heard(cfg, s, f, w) && f.body.ApplyEpoch? && s.session.Some?
                 && CarriesOut(cfg, s.session.value, EpochOf(f.body).value, f.attachments))
            && (r.response.EpochApplied? ==>
                 s'.session.Some? && r.response.authority == s'.session.value.authority == f.body.next)
  {
    hide Consistent, OpenedSession, AfterEpoch, Exported, PathListing, WellFormed, CarriesOut;
    HeardOnly(cfg, s, f, w);
    if WellFormed(cfg, f) && f.body.ApplyEpoch? && s.session.Some? { EpochCarriedOut(cfg, s.session.value, f); }
  }

  lemma EpochCarriedOut(cfg: Config, s: RootSession, f: Frame)
    requires Consistent(cfg, s) && WellFormed(cfg, f) && EpochOf(f.body).Some?
    ensures var e := EpochOf(f.body).value;
            var moved := AfterEpoch(cfg, s, e.next, e.changes, f.attachments);
            && (ExactSession(Some(s), f.sessionId, e.previous) && moved.Some? <==> CarriesOut(cfg, s, e, f.attachments))
            && (moved.Some? ==>
                 && moved.value.authority == e.next && moved.value.executionPrefix == s.executionPrefix
                 && moved.value.sources.Keys == s.sources.Keys
                 && Consistent(cfg, moved.value))
  {
    hide Consistent, CarriesOut, WellFormed, ValidChange;
    var e := EpochOf(f.body).value;
    EpochWellFormed(cfg, f);
    CarriesOutIff(cfg, s, e, f.attachments);
    if AfterEpoch(cfg, s, e.next, e.changes, f.attachments).Some? {
      EpochConsistent(cfg, s, e.next, e.changes, f.attachments);
    }
    hide CleanMapSha, ReplaceableBy, Override, HostAfter;
  }

  /** What an epoch leaves in the host: the attachment of the one change for the files it
      changes, and every other file as it was. */
  lemma EpochMoves(cfg: Config, s: RootSession, f: Frame, file: Text)
    requires Consistent(cfg, s) && WellFormed(cfg, f) && EpochOf(f.body).Some? && file in s.host && file != []
    requires var e := EpochOf(f.body).value; AfterEpoch(cfg, s, e.next, e.changes, f.attachments).Some?
    ensures var e := EpochOf(f.body).value;
            var s' := AfterEpoch(cfg, s, e.next, e.changes, f.attachments).value;
            var path := RepositoryPath(s.executionPrefix, file);
            && file in s'.host
            && (forall i | 0 <= i < |e.changes| && e.changes[i].documentPath == path ::
                 0 <= e.changes[i].attachmentIndex < |f.attachments|
                 && s'.host[file] == f.attachments[e.changes[i].attachmentIndex])
            && ((forall i | 0 <= i < |e.changes| :: e.changes[i].documentPath != path)
               ==> s'.host[file] == s.host[file])
  {
    hide Consistent, WellFormed, ValidChange, RepositoryPath, ExecutionRelative, CleanMapSha, Override;
    var e := EpochOf(f.body).value;
    EpochWellFormed(cfg, f);
    hide DistinctChanges;
    HostAfterAt(s, e.changes, f.attachments, file);
    forall i | 0 <= i < |e.changes| && e.changes[i].documentPath == RepositoryPath(s.executionPrefix, file)
      ensures forall j | i < j < |e.changes| :: e.changes[j].documentPath != RepositoryPath(s.executionPrefix, file)
      ensures 0 <= e.changes[i].attachmentIndex < |f.attachments|
    {
      OnlyChange(e.changes, i);
      assert ReplaceableBy(cfg, s, e.changes[i], f.attachments);
    }
  }

  lemma OnlyChange(changes: seq<SourceChange>, i: nat)
    requires DistinctChanges(changes) && i < |changes|
    ensures forall j | i < j < |changes| :: changes[j].documentPath != changes[i].documentPath
  {
  }

  lemma {:induction false} HostAfterAt(
    s: RootSession, changes: seq<SourceChange>, attachments: seq<seq<byte>>, file: Text)
    requires file in s.host && file != []
    requires forall i | 0 <= i < |changes| ::
      HostFile(s, changes[i].documentPath).Some? && 0 <= changes[i].attachmentIndex < |attachments|
    ensures file in HostAfter(s, changes, attachments)
    ensures forall i | 0 <= i < |changes| && changes[i].documentPath == RepositoryPath(s.executionPrefix, file) ::
      (forall j | i < j < |changes| :: changes[j].documentPath != RepositoryPath(s.executionPrefix, file)) ==>
        HostAfter(s, changes, attachments)[file] == attachments[changes[i].attachmentIndex]
    ensures (forall i | 0 <= i < |changes| :: changes[i].documentPath != RepositoryPath(s.executionPrefix, file)) ==>
      HostAfter(s, changes, attachments)[file] == s.host[file]
  {
    hide RepositoryPath, HostFile;
    if changes != [] {
      var n := |changes| - 1;
      HostAfterAt(s, changes[..n], attachments, file);
      HostFileIff(s, changes[n].documentPath, file);
    }
  }

  lemma HostFileIff(s: RootSession, path: Text, file: Text)
    requires file in s.host && file != []
    ensures HostFile(s, path) == Some(file) <==> path == RepositoryPath(s.executionPrefix, file)
  {
    hide RepositoryPath, ExecutionRelative;
    CoordinatesInverse(s.executionPrefix, path, file);
  }

  // ---- exports ----

  /** At most one document for each path, for requested paths only, each of which can be written. */
  ghost predicate Exports(prefix: Text, requested: set<Text>, emission: seq<Document>) {
    && (forall d | d in emission :: RepositoryPath(prefix, d.relativePath) in requested && d.encoded.Some?)
    && (forall i, j | 0 <= i < j < |emission| :: emission[i].relativePath != emission[j].relativePath)
  }

  lemma SameRelative(prefix: Text, a: Text, b: Text)
    ensures RepositoryPath(prefix, a) == RepositoryPath(prefix, b) <==> a == b
  {
    if prefix != [] && RepositoryPath(prefix, a) == RepositoryPath(prefix, b) {
      Split(prefix + [SLASH], a, prefix + [SLASH], b);
    }
  }

  /** Filing keeps every document under its path, and nothing else. */
  lemma {:induction false} FileEmissionIff(prefix: Text, emission: seq<Document>, requested: set<Text>)
    ensures FileEmission(prefix, emission, requested).Some? <==>
      && (forall d | d in emission :: RepositoryPath(prefix, d.relativePath) in requested)
      && (forall i, j | 0 <= i < j < |emission| :: emission[i].relativePath != emission[j].relativePath)
    ensures FileEmission(prefix, emission, requested).Some? ==>
      var filed := FileEmission(prefix, emission, requested).value;
      && (forall d | d in emission ::
           RepositoryPath(prefix, d.relativePath) in filed && filed[RepositoryPath(prefix, d.relativePath)] == d)
      && (forall p | p in filed :: filed[p] in emission && RepositoryPath(prefix, filed[p].relativePath) == p)
  {
    if emission != [] {
      var n := |emission| - 1;
      var last := emission[n];
      assert emission == emission[..n] + [last];
      FileEmissionIff(prefix, emission[..n], requested);
      forall d { SameRelative(prefix, d, last.relativePath); }
      hide RepositoryPath;
    }
  }

  lemma ExportsIff(cfg: Config, s: RootSession, documents: seq<Text>, emission: seq<Document>)
    requires Consistent(cfg, s)
    ensures Exported(cfg, s, documents, emission).Some? <==>
      && documents != [] && (forall p | p in documents :: p in s.sources)
      && Exports(s.executionPrefix, Elements(documents), emission)
  {
    hide FileEmission, ExportOf, RepositoryPath, HostFile, CleanMapSha;
    FileEmissionIff(s.executionPrefix, emission, Elements(documents));
    assert documents != [] ==> documents[0] in Elements(documents);
    forall p | p in s.sources ensures HostFile(s, p).Some? { assert LoadedSource(cfg, s, s.sources[p]); }
  }

  /** A refresh is answered exactly when its epoch is carried out, no analysis is asked for, the
      requested documents are sources that can be exported, and inputs and runtime stay. */
  lemma RefreshedIff(cfg: Config, s: ProviderState, f: Frame, w: World)
    requires Healthy(cfg, s)
    ensures var (s', r) := Handle(cfg, s, f, w);
            && (r.response.AffectedRefreshed? <==>
                 && Heard(cfg, s, f, w) && f.body.RefreshAffected? && s.session.Some? && f.body.analyses == []
                 && CarriesOut(cfg, s.session.value, EpochOf(f.body).value, f.attachments)
                 && (forall p | p in f.body.documents :: p in s.session.value.sources)
                 && Exports(s.session.value.executionPrefix, Elements(f.body.documents), w.emission)
                 && w.inputsUnchangedAfter && w.runtimeAfter == Some(cfg.runtime))
            && (r.response.AffectedRefreshed? ==>
                 && s'.session.Some? && r.response.authority == s'.session.value.authority == f.body.next
                 && r.response.parentSnapshot == f.body.parentSnapshot)
  {
    hide Consistent, OpenedSession, AfterEpoch, Exported, PathListing, WellFormed, CarriesOut, Exports, Elements;
    HeardOnly(cfg, s, f, w);
    if WellFormed(cfg, f) && f.body.RefreshAffected? && s.session.Some? {
      var session := s.session.value;
      EpochCarriedOut(cfg, session, f);
      DocumentsAskedFor(cfg, f);
      var moved := AfterEpoch(cfg, session, f.body.next, f.body.changes, f.attachments);
      if moved.Some? { ExportsIff(cfg, moved.value, f.body.documents, w.emission); }
    }
  }

  lemma DocumentsAskedFor(cfg: Config, f: Frame)
    requires WellFormed(cfg, f) && f.body.RefreshAffected?
    ensures f.body.documents != []
  {
  }

  /** A session is certified exactly when the request names its authority and asks for no
      analysis, and all its sources can be exported. */
  lemma CertifiedIff(cfg: Config, s: ProviderState, f: Frame, w: World)
    requires Healthy(cfg, s)
    ensures var (s', r) := Handle(cfg, s, f, w);
            && (r.response.FullCertification? <==>
                 && Heard(cfg, s, f, w) && f.body.CertifyFull? && s.session.Some? && f.body.analyses == []
                 && f.body.certified == s.session.value.authority
                 && Exports(s.session.value.executionPrefix, s.session.value.sources.Keys, w.emission))
            && (r.response.FullCertification? ==>
                 s'.session == s.session && r.response.authority == s'.session.value.authority)
  {
    hide Consistent, OpenedSession, AfterEpoch, Exported, PathListing, WellFormed, Exports;
    HeardOnly(cfg, s, f, w);
    if WellFormed(cfg, f) && f.body.CertifyFull? && s.session.Some? {
      CertifyExports(cfg, s.session.value, w.emission);
      CertifiedSession(cfg, f);
    }
  }

  lemma CertifiedSession(cfg: Config, f: Frame)
    requires WellFormed(cfg, f) && f.body.CertifyFull?
    ensures f.body.certified.sessionId == f.sessionId
  {
  }

  lemma CertifyExports(cfg: Config, s: RootSession, emission: seq<Document>)
    requires Consistent(cfg, s)
    ensures Exported(cfg, s, PathListing(s.sources.Keys), emission).Some? <==>
      Exports(s.executionPrefix, s.sources.Keys, emission)
  {
    hide Exported, PathListing, Exports, Consistent;
    var all := PathListing(s.sources.Keys);
    ExportsIff(cfg, s, all, emission);
    SomeSource(cfg, s);
    assert Elements(all) == s.sources.Keys;
  }

  lemma SomeSource(cfg: Config, s: RootSession)
    requires Consistent(cfg, s)
    ensures s.sources.Keys != {}
  {
    CleanAlways(cfg, s);
    if s.sources.Keys == {} { PopulationAcceptedIff(cfg.sha256, ListingOf(s.sources)); }
    hide Consistent, PopulationSha;
  }

  // ---- greetings, goodbyes and refusals ----

  /** Every other answer: a greeting, a goodbye, or a refusal that says whether the request was
      ill-formed, old or could not be served. Only exports carry attachments. */
  lemma AnsweredIff(cfg: Config, s: ProviderState, f: Frame, w: World)
    ensures var (s', r) := Handle(cfg, s, f, w);
            && (r.response.HelloReply? <==> Heard(cfg, s, f, w) && f.body.Hello?)
            && (r.response.SessionClosed? <==> Heard(cfg, s, f, w) && f.body.CloseSession?)
            && (r.response == Error(InvalidRequest) <==> !WellFormed(cfg, f))
            && (r.response == Error(ReplayedRequest) <==> WellFormed(cfg, f) && f.requestId <= s.lastRequestId)
            && s'.lastRequestId == (
                 if r.response == Error(InvalidRequest) || r.response == Error(ReplayedRequest)
                 then s.lastRequestId else f.requestId)
            && (!r.response.AffectedRefreshed? && !r.response.FullCertification? ==> r.attachments == [])
  {
    hide OpenedSession, AfterEpoch, Exported, PathListing, WellFormed;
    HeardOnly(cfg, s, f, w);
  }
}
