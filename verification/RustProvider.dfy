/** The Rust provider as it runs: loops over changes, attachments and documents, and a
    process whose session is replaced or moved, proved to compute what RustProtocol says. */
module RustProvider {
  import opened Wrappers
  import opened Bytes
  import opened ProviderProtocol
  import opened ProviderLoops
  import opened RustProtocol
  import RustRuns
  import Sorting

  // ---- validation of an epoch ----

  /** Distinct changes seen so far: their paths and their attachments. */
  ghost predicate Seen(changes: seq<SourceChange>, paths: set<Text>, claimed: set<int>) {
    && DistinctChanges(changes)
    && ClaimsDistinct(changes)
    && claimed == ClaimedBy(changes)
    && (forall p :: p in paths <==> exists i | 0 <= i < |changes| :: changes[i].documentPath == p)
  }

  lemma SeenNext(changes: seq<SourceChange>, c: SourceChange, paths: set<Text>, claimed: set<int>)
    requires Seen(changes, paths, claimed)
    ensures c.documentPath in paths || c.attachmentIndex in claimed ==> !DistinctChanges(changes + [c])
    ensures c.documentPath !in paths && c.attachmentIndex !in claimed ==>
              Seen(changes + [c], paths + {c.documentPath}, claimed + {c.attachmentIndex})
  {
    var more := changes + [c];
    ClaimedOneMore(changes, c);
    assert more[|changes|] == c;
    if c.attachmentIndex in claimed {
      var i :| 0 <= i < |changes| && changes[i].attachmentIndex == c.attachmentIndex;
      assert more[i] == changes[i];
    } else if c.documentPath in paths {
      var i :| 0 <= i < |changes| && changes[i].documentPath == c.documentPath;
      assert more[i] == changes[i];
    } else {
      forall p ensures p in paths + {c.documentPath} <==> exists i | 0 <= i < |more| :: more[i].documentPath == p {
        if p in paths {
          var i :| 0 <= i < |changes| && changes[i].documentPath == p;
          assert more[i].documentPath == p;
        }
      }
    }
  }

  lemma PrefixDistinct(changes: seq<SourceChange>, i: nat)
    requires i <= |changes| && !DistinctChanges(changes[..i])
    ensures !DistinctChanges(changes)
  {
    var a, b :| 0 <= a < b < i &&
      (changes[..i][a].documentPath == changes[..i][b].documentPath
        || changes[..i][a].attachmentIndex == changes[..i][b].attachmentIndex);
    assert changes[a] == changes[..i][a] && changes[b] == changes[..i][b];
  }

  /** The transition checks, with every path and every attachment claimed at most once. */
  method ValidateEpochTransition(
    cfg: Config, sessionId: Text, previous: Authority, next: Authority, changes: seq<SourceChange>,
    attachments: seq<seq<byte>>)
    returns (ok: bool)
    ensures ok == ValidTransition(cfg, sessionId, previous, next, changes, attachments)
  {
    hide ValidAuthorities, ValidChange;
    if !ValidAuthorities(sessionId, previous, next) || |changes| == 0
      || |changes| > MAX_DOCUMENT_PATHS { return false; }
    var paths: set<Text> := {};
    var claimed: set<int> := {};
    var i := 0;
    while i < |changes|
      invariant 0 <= i <= |changes|
      invariant forall k | 0 <= k < i :: ValidChange(cfg, changes[k], attachments)
      invariant Seen(changes[..i], paths, claimed)
    {
      var change := changes[i];
      if !ValidChange(cfg, change, attachments) { return false; }
      SeenNext(changes[..i], change, paths, claimed);
      assert changes[..i + 1] == changes[..i] + [change];
      hide Seen, DistinctChanges;
      if change.documentPath in paths || change.attachmentIndex in claimed {
        PrefixDistinct(changes, i + 1);
        return false;
      }
      paths := paths + {change.documentPath};
      claimed := claimed + {change.attachmentIndex};
      i := i + 1;
    }
    assert changes[..i] == changes;
    ClaimedSize(changes);
    ok := |claimed| == |attachments|;
  }

  // ---- the session ----

  ghost predicate Prepared(
    cfg: Config, s: RootSession, changes: seq<SourceChange>, attachments: seq<seq<byte>>,
    nextSources: Sources, replacements: seq<(Text, Text)>)
  {
    && (forall i | 0 <= i < |changes| :: ReplaceableBy(cfg, s, changes[i], attachments))
    && nextSources == Override(s.sources, changes)
    && |replacements| == |changes|
    && (forall i | 0 <= i < |changes| :: replacements[i] == ReplacementFor(s, changes[i], attachments))
  }

  /** Which host file a change rewrites, and to what. */
  function ReplacementFor(s: RootSession, c: SourceChange, attachments: seq<seq<byte>>): (Text, Text) {
    match HostFile(s, c.documentPath)
    case None => ([], [])
    case Some(file) => (file, if 0 <= c.attachmentIndex < |attachments| then attachments[c.attachmentIndex] else [])
  }

  lemma PreparedNext(
    cfg: Config, s: RootSession, changes: seq<SourceChange>, c: SourceChange, attachments: seq<seq<byte>>,
    nextSources: Sources, replacements: seq<(Text, Text)>)
    requires Prepared(cfg, s, changes, attachments, nextSources, replacements)
    requires ReplaceableBy(cfg, s, c, attachments)
    ensures Prepared(cfg, s, changes + [c], attachments,
                     nextSources[c.documentPath := NextSource(c)], replacements + [ReplacementFor(s, c, attachments)])
  {
    hide ReplaceableBy, ReplacementFor, NextSource;
    assert (changes + [c])[..|changes|] == changes;
  }

  lemma HostAfterNext(cfg: Config, s: RootSession, changes: seq<SourceChange>, i: nat, attachments: seq<seq<byte>>)
    requires i < |changes| && ReplaceableBy(cfg, s, changes[i], attachments)
    ensures var r := ReplacementFor(s, changes[i], attachments);
            HostAfter(s, changes[..i + 1], attachments) == HostAfter(s, changes[..i], attachments)[r.0 := r.1]
  {
    assert changes[..i + 1][..i] == changes[..i] && changes[..i + 1][i] == changes[i];
  }

  method PopulationOf(cfg: Config, sources: Sources, changes: seq<SourceChange>, nextSources: Sources)
    returns (sha: Option<Text>)
    requires Keyed(sources) && nextSources == Override(sources, changes)
    requires forall c | c in changes :: c.documentPath in sources
    ensures sha == CleanMapSha(cfg.sha256, nextSources)
  {
    OverrideKeyed(sources, changes);
    var population := ListSources(nextSources);
    CleanShaByListing(cfg.sha256, nextSources, population);
    sha := CleanPopulationSha(cfg.sha256, population);
  }

  lemma ChangedPathsKnown(cfg: Config, s: RootSession, changes: seq<SourceChange>, attachments: seq<seq<byte>>)
    requires forall i | 0 <= i < |changes| :: ReplaceableBy(cfg, s, changes[i], attachments)
    ensures forall c | c in changes :: c.documentPath in s.sources
  {
  }

  class Session {
    const executionPrefix: Text
    var host: map<Text, Text>
    var authority: Authority
    var sources: Sources

    constructor (s: RootSession)
      ensures State() == s
    {
      executionPrefix := s.executionPrefix;
      host := s.host;
      authority := s.authority;
      sources := s.sources;
    }

    function State(): RootSession
      reads this
    {
      RootSession(executionPrefix, host, authority, sources)
    }

    /** The replacements of an epoch; None when one of its changes does not fit. */
    method PrepareEpoch(cfg: Config, changes: seq<SourceChange>, attachments: seq<seq<byte>>)
      returns (prepared: Option<(Sources, seq<(Text, Text)>)>)
      ensures prepared.Some? <==> forall i | 0 <= i < |changes| :: ReplaceableBy(cfg, State(), changes[i], attachments)
      ensures prepared.Some? ==> Prepared(cfg, State(), changes, attachments, prepared.value.0, prepared.value.1)
    {
      var nextSources := sources;
      var replacements: seq<(Text, Text)> := [];
      var i := 0;
      while i < |changes|
        invariant 0 <= i <= |changes|
        invariant forall k | 0 <= k < i :: ReplaceableBy(cfg, State(), changes[k], attachments)
        invariant Prepared(cfg, State(), changes[..i], attachments, nextSources, replacements)
      {
        hide ReplaceableBy, Prepared;
        var change := changes[i];
        if !ReplaceableBy(cfg, State(), change, attachments) { return None; }
        PreparedNext(cfg, State(), changes[..i], change, attachments, nextSources, replacements);
        assert changes[..i + 1] == changes[..i] + [change];
        replacements := replacements + [ReplacementFor(State(), change, attachments)];
        nextSources := nextSources[change.documentPath := NextSource(change)];
        i := i + 1;
      }
      assert changes[..i] == changes;
      prepared := Some((nextSources, replacements));
    }

    /** All of the epoch, or nothing. */
    method ApplyEpoch(
      cfg: Config, next: Authority, changes: seq<SourceChange>, attachments: seq<seq<byte>>) returns (ok: bool)
      requires Keyed(sources)
      modifies this
      ensures ok == AfterEpoch(cfg, old(State()), next, changes, attachments).Some?
      ensures State() == if ok then AfterEpoch(cfg, old(State()), next, changes, attachments).value else old(State())
    {
      hide ReplaceableBy, CleanMapSha, Keyed;
      ghost var before := State();
      var prepared := PrepareEpoch(cfg, changes, attachments);
      if prepared.None? { return false; }
      var (nextSources, replacements) := prepared.value;
      ChangedPathsKnown(cfg, State(), changes, attachments);
      var populationSha := PopulationOf(cfg, sources, changes, nextSources);
      if populationSha != Some(next.populationSha) { return false; }
      var i := 0;
      while i < |replacements|
        invariant 0 <= i <= |replacements|
        invariant State() == before.(host := HostAfter(before, changes[..i], attachments))
      {
        HostAfterNext(cfg, before, changes, i, attachments);
        host := host[replacements[i].0 := replacements[i].1];
        i := i + 1;
      }
      assert changes[..i] == changes;
      sources := nextSources;
      authority := next;
      ok := true;
    }

    /** Whether every path is a source of the session with a file in the host. */
    method Exportable(paths: seq<Text>) returns (ok: bool)
      ensures ok <==> forall p | p in paths :: p in sources && HostFile(State(), p).Some?
    {
      hide HostFile;
      var i := 0;
      while i < |paths|
        invariant 0 <= i <= |paths|
        invariant forall k | 0 <= k < i :: paths[k] in sources && HostFile(State(), paths[k]).Some?
      {
        if paths[i] !in sources || HostFile(State(), paths[i]).None? { return false; }
        i := i + 1;
      }
      ok := true;
    }

    method ExportDocuments(cfg: Config, documents: seq<Text>, emission: seq<Document>) returns (answer: Option<Export>)
      ensures answer == Exported(cfg, State(), documents, emission)
    {
      hide HostFile, FileEmission, ExportOf, EmittedBytes;
      var requested := Elements(documents);
      if requested == {} { return None; }
      var paths := SortedPaths(requested);
      var ok := Exportable(paths);
      hide OrderedPaths, Elements;
      if !ok { return None; }
      var filed := CollectDocuments(executionPrefix, emission, requested);
      if filed.None? { return None; }
      FiledWithin(executionPrefix, emission, requested);
      answer := BuildOutcomes(cfg, sources, filed.value, paths);
    }
  }

  /** A set of paths in path order, as a BTreeSet yields it. */
  method SortedPaths(paths: set<Text>) returns (list: seq<Text>)
    ensures list == OrderedPaths(paths)
  {
    PathOrderTotal();
    list := [];
    var pending := paths;
    while pending != {}
      invariant pending <= paths
      invariant |list| + |pending| == |paths|
      invariant forall p :: p in list <==> p in paths - pending
      decreases |pending|
    {
      var p :| p in pending;
      pending := pending - {p};
      list := list + [p];
    }
    OnceEach(list, paths);
    OnceEach(PathListing(paths), paths);
    Sorting.SortPermutation(PATH_ORDER, list, PathListing(paths));
    list := Sorting.Sort(PATH_ORDER, list);
  }

  method CollectDocuments(
    prefix: Text, emission: seq<Document>, requested: set<Text>) returns (documents: Option<map<Text, Document>>)
    ensures documents == FileEmission(prefix, emission, requested)
  {
    var filed: map<Text, Document> := map[];
    var i := 0;
    while i < |emission|
      invariant 0 <= i <= |emission|
      invariant FileEmission(prefix, emission[..i], requested) == Some(filed)
    {
      assert emission[..i + 1][..i] == emission[..i];
      var path := RepositoryPath(prefix, emission[i].relativePath);
      if path !in requested || path in filed {
        RefusedStays(prefix, emission, requested, i + 1);
        return None;
      }
      filed := filed[path := emission[i]];
      i := i + 1;
    }
    assert emission[..i] == emission;
    documents := Some(filed);
  }

  lemma {:induction false} RefusedStays(prefix: Text, emission: seq<Document>, requested: set<Text>, i: nat)
    requires i <= |emission| && FileEmission(prefix, emission[..i], requested).None?
    ensures FileEmission(prefix, emission, requested).None?
    decreases |emission|
  {
    if i == |emission| {
      assert emission[..i] == emission;
    } else {
      assert emission[..|emission| - 1][..i] == emission[..i];
      RefusedStays(prefix, emission[..|emission| - 1], requested, i);
    }
  }

  lemma {:induction false} FiledWithin(prefix: Text, emission: seq<Document>, requested: set<Text>)
    requires FileEmission(prefix, emission, requested).Some?
    ensures FileEmission(prefix, emission, requested).value.Keys <= requested
  {
    if emission != [] {
      FiledWithin(prefix, emission[..|emission| - 1], requested);
    }
  }

  method BuildOutcomes(
    cfg: Config, sources: Sources, documents: map<Text, Document>, paths: seq<Text>) returns (built: Option<Export>)
    requires forall p | p in paths :: p in sources
    requires forall p | p in documents :: p in paths
    ensures built.Some? <==> forall p | p in documents :: documents[p].encoded.Some?
    ensures built.Some? ==> built.value == ExportOf(cfg.sha256, sources, EmittedBytes(documents), paths)
  {
    var outcomes: seq<DocumentOutcome> := [];
    var attachments: seq<seq<byte>> := [];
    var i := 0;
    while i < |paths|
      invariant 0 <= i <= |paths|
      invariant forall k | 0 <= k < i && paths[k] in documents :: documents[paths[k]].encoded.Some?
      invariant Export(outcomes, attachments) == ExportOf(cfg.sha256, sources, EmittedBytes(documents), paths[..i])
    {
      var path := paths[i];
      assert paths[..i + 1][..i] == paths[..i] && paths[..i + 1][i] == path;
      var identity := sources[path].contentIdentity;
      if path !in documents {
        outcomes := outcomes + [Omitted(path, identity)];
      } else {
        var encoded := documents[path].encoded;
        if encoded.None? { return None; }
        outcomes := outcomes + [Present(path, identity, cfg.sha256(encoded.value), |attachments|)];
        attachments := attachments + [encoded.value];
      }
      i := i + 1;
    }
    assert paths[..i] == paths;
    built := Some(Export(outcomes, attachments));
  }

  // ---- opening ----

  /** The loaded sources by path; None when one is not loaded as declared. */
  method ValidateLoadedSources(
    cfg: Config, s: RootSession, sources: seq<SourceIdentity>) returns (byPath: Option<Sources>)
    ensures byPath.Some?
      <==> DistinctPaths(sources) && forall source | source in sources :: LoadedSource(cfg, s, source)
    ensures byPath.Some? ==> byPath.value == SourceMap(sources)
  {
    hide LoadedSource;
    var filed: Sources := map[];
    var i := 0;
    while i < |sources|
      invariant 0 <= i <= |sources|
      invariant DistinctPaths(sources[..i])
      invariant forall k | 0 <= k < i :: LoadedSource(cfg, s, sources[k])
      invariant filed == SourceMap(sources[..i])
    {
      var source := sources[i];
      if !LoadedSource(cfg, s, source) { return None; }
      assert sources[..i + 1] == sources[..i] + [source];
      SourceMapLists(sources[..i]);
      NewSource(sources, i, filed);
      hide Lists, DistinctPaths;
      if source.documentPath in filed { return None; }
      filed := filed[source.documentPath := source];
      i := i + 1;
    }
    assert sources[..i] == sources;
    byPath := Some(filed);
  }

  method OpenRootSession(cfg: Config, b: Body, w: World) returns (session: Session?)
    requires b.OpenSession?
    ensures session != null <==> OpenedSession(cfg, b, w).Some?
    ensures session != null ==> fresh(session) && session.State() == OpenedSession(cfg, b, w).value
  {
    hide CleanPopulationSha, LoadedSource, SourceMap, DistinctPaths;
    if w.canonicalRepository.None? || w.derivedPrefix != Some(b.executionPrefix) { return null; }
    if cfg.sha256(w.canonicalRepository.value) != b.authority.rootSha { return null; }
    if cfg.configurationSha != b.authority.configurationSha { return null; }
    if b.authority.workspaceResolutionSha.Some? || b.authority.semanticInputsSha.Some? { return null; }
    if b.expectedInputs.Some? || w.loaded.None? || w.loaded.value.semanticInputsSha.None? { return null; }
    var root := w.loaded.value;
    var authority := b.authority.(workspaceResolutionSha := Some(root.workspaceSha),
      semanticInputsSha := root.semanticInputsSha);
    if CleanPopulationSha(cfg.sha256, b.sources) != Some(authority.populationSha) { return null; }
    var loading := RootSession(b.executionPrefix, root.host, authority, SourceMap(b.sources));
    var sources := ValidateLoadedSources(cfg, loading, b.sources);
    if sources.None? { return null; }
    session := new Session(RootSession(b.executionPrefix, root.host, authority, sources.value));
  }

  // ---- the process ----

  class Provider {
    var session: Session?
    var lastRequestId: int

    constructor ()
      ensures State() == FRESH
    {
      session := null;
      lastRequestId := 0;
    }

    ghost function Footprint(): set<object>
      reads this
    {
      if session == null then {this} else {this, session}
    }

    function State(): ProviderState
      reads this, session
    {
      ProviderState(lastRequestId, if session == null then None else Some(session.State()))
    }

    ghost predicate Valid(cfg: Config)
      reads this, session
    {
      RustRuns.Healthy(cfg, State())
    }

    method HandleApply(cfg: Config, f: Frame) returns (reply: Reply)
      requires Valid(cfg) && f.body.ApplyEpoch?
      modifies Footprint()
      ensures (State(), reply) == RustProtocol.HandleApply(cfg, old(State()), f)
      ensures Footprint() == old(Footprint())
    {
      hide AfterEpoch;
      if !ExactSession(State().session, f.sessionId, f.body.previous) { return FAILED; }
      var ok := session.ApplyEpoch(cfg, f.body.next, f.body.changes, f.attachments);
      if !ok { return FAILED; }
      reply := Reply(EpochApplied(f.body.next), []);
    }

    method HandleRefresh(cfg: Config, f: Frame, w: World) returns (reply: Reply)
      requires Valid(cfg) && f.body.RefreshAffected?
      modifies Footprint()
      ensures (State(), reply) == RustProtocol.HandleRefresh(cfg, old(State()), f, w)
      ensures Footprint() == old(Footprint())
    {
      hide AfterEpoch, Exported;
      if f.body.analyses != [] || !ExactSession(State().session, f.sessionId, f.body.previous) { return FAILED; }
      var ok := session.ApplyEpoch(cfg, f.body.next, f.body.changes, f.attachments);
      if !ok { return FAILED; }
      var answer := session.ExportDocuments(cfg, f.body.documents, w.emission);
      if answer.None? || !w.inputsUnchangedAfter || w.runtimeAfter != Some(cfg.runtime) { return FAILED; }
      reply := Reply(AffectedRefreshed(f.body.next, f.body.parentSnapshot, answer.value.outcomes),
        answer.value.attachments);
    }

    method HandleCertify(cfg: Config, f: Frame, w: World) returns (reply: Reply)
      requires f.body.CertifyFull?
      ensures (State(), reply) == RustProtocol.HandleCertify(cfg, old(State()), f, w)
    {
      hide Exported;
      if f.body.analyses != [] || !ExactSession(State().session, f.sessionId, f.body.certified) { return FAILED; }
      var documents := SortedPaths(session.sources.Keys);
      var answer := session.ExportDocuments(cfg, documents, w.emission);
      SameRequest(cfg, session.State(), documents, PathListing(session.sources.Keys), w.emission);
      if answer.None? { return FAILED; }
      reply := Reply(FullCertification(f.body.certified, answer.value.outcomes), answer.value.attachments);
    }

    method HandleOpen(cfg: Config, f: Frame, w: World) returns (reply: Reply)
      requires f.body.OpenSession?
      modifies this
      ensures (State(), reply) == RustProtocol.HandleOpen(cfg, old(State()), f, w)
      ensures fresh(Footprint() - old(Footprint()))
    {
      hide OpenedSession;
      if session != null { return FAILED; }
      var admitted := OpenRootSession(cfg, f.body, w);
      if admitted == null { return FAILED; }
      session := admitted;
      reply := Reply(SessionOpened(session.authority), []);
    }

    method HandleRequest(cfg: Config, f: Frame, w: World) returns (reply: Reply)
      requires Valid(cfg)
      modifies Footprint()
      ensures (State(), reply) == RustProtocol.HandleRequest(cfg, old(State()), f, w)
      ensures fresh(Footprint() - old(Footprint()))
    {
      hide RustProtocol.HandleOpen, RustProtocol.HandleApply, RustProtocol.HandleRefresh, RustProtocol.HandleCertify;
      if f.expectedProvider != cfg.identity { return FAILED; }
      if !f.body.CloseSession? && w.runtimeBefore != Some(cfg.runtime) { return FAILED; }
      if ReverifiesInputs(f.body) && session != null && !w.inputsUnchangedBefore { return FAILED; }
      match f.body
      case Hello => reply := Reply(HelloReply, []);
      case OpenSession(_, _, _, _, _, _) => reply := HandleOpen(cfg, f, w);
      case ReconfigureSession(_, _, _) => reply := FAILED;
      case ApplyEpoch(_, _, _) => reply := HandleApply(cfg, f);
      case RefreshAffected(_, _, _, _, _, _) => reply := HandleRefresh(cfg, f, w);
      case CertifyFull(_, _) => reply := HandleCertify(cfg, f, w);
      case CloseSession => reply := Reply(SessionClosed, []);
    }

    /** One request, as prescribed; whatever it answers, the process stays valid. */
    method Handle(cfg: Config, f: Frame, w: World) returns (reply: Reply)
      requires Valid(cfg)
      modifies Footprint()
      ensures (State(), reply) == RustProtocol.Handle(cfg, old(State()), f, w)
      ensures Valid(cfg)
      ensures fresh(Footprint() - old(Footprint()))
    {
      hide RustRuns.Consistent, RustProtocol.HandleRequest, RustRuns.Moves, ValidRequest;
      RustRuns.RequestKeeps(cfg, State(), f, w);
      var valid := IsValidRequest(cfg, f);
      if !valid { return Reply(Error(InvalidRequest), []); }
      if f.requestId <= lastRequestId { return Reply(Error(ReplayedRequest), []); }
      lastRequestId := f.requestId;
      reply := HandleRequest(cfg, f, w);
    }
  }

  lemma SameRequest(cfg: Config, s: RootSession, a: seq<Text>, b: seq<Text>, emission: seq<Document>)
    requires forall p :: p in a <==> p in b
    ensures Exported(cfg, s, a, emission) == Exported(cfg, s, b, emission)
  {
    assert Elements(a) == Elements(b);
  }

  /** The analyses one by one, each id at most once. */
  method ValidateAnalyses(analyses: seq<Analysis>) returns (ok: bool)
    ensures ok == ValidAnalyses(analyses)
  {
    var ids: set<Text> := {};
    var i := 0;
    while i < |analyses|
      invariant 0 <= i <= |analyses|
      invariant forall id :: id in ids <==> exists k | 0 <= k < i :: analyses[k].analysisId == id
      invariant ValidAnalyses(analyses[..i])
    {
      hide ValidAnalysis;
      var a := analyses[i];
      assert a in analyses && analyses[..i + 1] == analyses[..i] + [a];
      if !ValidAnalysis(a) || a.analysisId in ids { return false; }
      ids := ids + {a.analysisId};
      i := i + 1;
    }
    assert analyses[..i] == analyses;
    ok := true;
  }

  method IsValidRequest(cfg: Config, f: Frame) returns (ok: bool)
    ensures ok == ValidRequest(cfg, f)
  {
    hide ValidTransition, ValidSelection, ValidOpen, Resolved;
    if f.requestId == 0 || !ValidText(f.sessionId, 128) || !f.providerWellFormed { return false; }
    match f.body
    case ApplyEpoch(previous, next, changes) =>
      ok := ValidateEpochTransition(cfg, f.sessionId, previous, next, changes, f.attachments);
    case RefreshAffected(previous, next, changes, parent, documents, analyses) =>
      ok := ValidateEpochTransition(cfg, f.sessionId, previous, next, changes, f.attachments);
      var named := ValidateAnalyses(analyses);
      ok := ok && ValidSelection(parent, documents) && named;
    case CertifyFull(certified, analyses) =>
      ok := ValidateAnalyses(analyses);
      ok := ok && Resolved(certified) && certified.sessionId == f.sessionId && f.attachments == [];
    case _ =>
      ok := ValidBody(cfg, f);
  }
}
