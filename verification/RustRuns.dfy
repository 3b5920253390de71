/** What holds over every run of one Rust provider process, errors included. */
module RustRuns {
  import opened Wrappers
  import opened Bytes
  import opened ProviderProtocol
  import opened RustProtocol
  import ProviderLoops
  import Sorting

  // ---- the invariant of an open session ----

  /** Every source is loaded in the host with exactly the text whose digest it records. */
  ghost predicate HostMatches(cfg: Config, s: RootSession) {
    forall p | p in s.sources :: LoadedSource(cfg, s, s.sources[p])
  }

  ghost predicate Consistent(cfg: Config, s: RootSession) {
    && Keyed(s.sources)
    && CleanMapSha(cfg.sha256, s.sources) == Some(s.authority.populationSha)
    && HostMatches(cfg, s)
  }

  ghost predicate Healthy(cfg: Config, s: ProviderState) {
    s.session.Some? ==> Consistent(cfg, s.session.value)
  }

  // ---- opening establishes it ----

  lemma OpenConsistent(cfg: Config, b: Body, w: World)
    requires b.OpenSession? && OpenedSession(cfg, b, w).Some?
    ensures Consistent(cfg, OpenedSession(cfg, b, w).value)
    ensures OpenedSession(cfg, b, w).value.authority.sessionId == b.authority.sessionId
  {
    SourceMapLists(b.sources);
    CleanShaByListing(cfg.sha256, SourceMap(b.sources), b.sources);
    var s := OpenedSession(cfg, b, w).value;
    hide CleanPopulationSha, CleanMapSha, LoadedSource;
    forall p | p in s.sources ensures LoadedSource(cfg, s, s.sources[p]) {
      assert s.sources[p] in b.sources;
    }
  }

  // ---- an applied epoch keeps it ----

  /** No two repository paths live in one host file. */
  lemma HostFileInjective(s: RootSession, p: Text, q: Text)
    requires HostFile(s, p).Some? && HostFile(s, p) == HostFile(s, q)
    ensures p == q
  {
    CoordinatesInverse(s.executionPrefix, p, HostFile(s, p).value);
    CoordinatesInverse(s.executionPrefix, q, HostFile(s, q).value);
  }

  lemma OneReplaced(cfg: Config, s: RootSession, text: Text, next: SourceIdentity)
    requires Keyed(s.sources) && HostMatches(cfg, s) && next.documentPath in s.sources
    requires next.language == cfg.language && cfg.sha256(text) == next.contentSha
    ensures HostFile(s, next.documentPath).Some?
    ensures var s' := s.(host := s.host[HostFile(s, next.documentPath).value := text],
                         sources := s.sources[next.documentPath := next]);
            HostMatches(cfg, s') && s'.host.Keys == s.host.Keys
  {
    var path := next.documentPath;
    assert LoadedSource(cfg, s, s.sources[path]);
    var s' := s.(host := s.host[HostFile(s, path).value := text], sources := s.sources[path := next]);
    assert s'.host.Keys == s.host.Keys;
    forall p | p in s'.sources ensures LoadedSource(cfg, s', s'.sources[p]) {
      assert LoadedSource(cfg, s, s.sources[p]);
      if p != path && HostFile(s, p) == HostFile(s, path) { HostFileInjective(s, p, path); }
    }
  }

  lemma {:induction false} ChangesReplaced(
    cfg: Config, s: RootSession, changes: seq<SourceChange>, attachments: seq<seq<byte>>)
    requires Keyed(s.sources) && HostMatches(cfg, s)
    requires forall i | 0 <= i < |changes| ::
      ReplaceableBy(cfg, s, changes[i], attachments) && ValidChange(cfg, changes[i], attachments)
    ensures var s' := s.(host := HostAfter(s, changes, attachments), sources := Override(s.sources, changes));
            Keyed(s'.sources) && HostMatches(cfg, s') && s'.host.Keys == s.host.Keys
              && s'.sources.Keys == s.sources.Keys
  {
    if changes != [] {
      var n := |changes| - 1;
      var c := changes[n];
      assert ReplaceableBy(cfg, s, c, attachments) && ValidChange(cfg, c, attachments);
      ReplacementFits(cfg, s, c, attachments);
      hide ReplaceableBy, ValidChange, HostMatches, NextSource;
      ChangesReplaced(cfg, s, changes[..n], attachments);
      var front := s.(host := HostAfter(s, changes[..n], attachments), sources := Override(s.sources, changes[..n]));
      OneReplaced(cfg, front, attachments[c.attachmentIndex], NextSource(c));
      assert NextSource(c).documentPath == c.documentPath by { NextKeepsPath(c); }
      SameHostFile(s, front, c.documentPath);
      hide HostFile;
    }
  }

  lemma NextKeepsPath(c: SourceChange)
    ensures NextSource(c).documentPath == c.documentPath
  {
  }

  lemma SameHostFile(s: RootSession, t: RootSession, path: Text)
    requires s.executionPrefix == t.executionPrefix && s.host.Keys == t.host.Keys
    ensures HostFile(s, path) == HostFile(t, path)
  {
  }

  lemma ReplacementFits(cfg: Config, s: RootSession, c: SourceChange, attachments: seq<seq<byte>>)
    requires ReplaceableBy(cfg, s, c, attachments) && ValidChange(cfg, c, attachments)
    ensures 0 <= c.attachmentIndex < |attachments|
    ensures cfg.sha256(attachments[c.attachmentIndex]) == NextSource(c).contentSha
    ensures NextSource(c).language == cfg.language && NextSource(c).documentPath == c.documentPath
    ensures c.documentPath in s.sources && HostFile(s, c.documentPath).Some?
  {
  }

  /** An epoch is applied in full, in order, or not at all; applied, it keeps the session
      consistent, its source domain and its host files. */
  lemma EpochConsistent(
    cfg: Config, s: RootSession, next: Authority, changes: seq<SourceChange>, attachments: seq<seq<byte>>)
    requires Consistent(cfg, s)
    requires forall i | 0 <= i < |changes| :: ValidChange(cfg, changes[i], attachments)
    requires AfterEpoch(cfg, s, next, changes, attachments).Some?
    ensures var s' := AfterEpoch(cfg, s, next, changes, attachments).value;
            && Consistent(cfg, s')
            && s'.authority == next
            && s'.sources == Override(s.sources, changes)
            && s'.sources.Keys == s.sources.Keys && s'.host.Keys == s.host.Keys
  {
    ChangesReplaced(cfg, s, changes, attachments);
    hide CleanMapSha, LoadedSource, ReplaceableBy, ValidChange;
    var s' := AfterEpoch(cfg, s, next, changes, attachments).value;
    var t := s.(host := HostAfter(s, changes, attachments), sources := Override(s.sources, changes));
    AuthorityIrrelevant(cfg, t, s');
  }

  lemma AuthorityIrrelevant(cfg: Config, s: RootSession, t: RootSession)
    requires HostMatches(cfg, s) && t == s.(authority := t.authority)
    ensures HostMatches(cfg, t)
  {
    forall p | p in t.sources ensures LoadedSource(cfg, t, t.sources[p]) {
      assert LoadedSource(cfg, s, s.sources[p]);
    }
  }

  /** In a consistent session the host never turns out to have drifted: a change fits as soon
      as it names the recorded source, in the provider's language, with UTF-8 text. */
  lemma HostNeverDrifts(cfg: Config, s: RootSession, c: SourceChange, attachments: seq<seq<byte>>)
    requires Consistent(cfg, s)
    ensures ReplaceableBy(cfg, s, c, attachments) <==>
      && c.language == cfg.language
      && c.documentPath in s.sources
      && s.sources[c.documentPath].contentIdentity == c.previousContentIdentity
      && s.sources[c.documentPath].contentSha == c.previousContentSha
      && 0 <= c.attachmentIndex < |attachments|
      && cfg.isUtf8(attachments[c.attachmentIndex])
  {
    hide CleanMapSha;
    if c.documentPath in s.sources {
      assert LoadedSource(cfg, s, s.sources[c.documentPath]);
    }
  }

  // ---- one request ----

  /** The epoch a request carries, if it carries one. */
  datatype Epoch = Epoch(previous: Authority, next: Authority, changes: seq<SourceChange>)

  function EpochOf(b: Body): Option<Epoch> {
    match b
    case ApplyEpoch(previous, next, changes) => Some(Epoch(previous, next, changes))
    case RefreshAffected(previous, next, changes, _, _, _) => Some(Epoch(previous, next, changes))
    case _ => None
  }

  /** The session after a request: unchanged, newly opened, or one whole epoch later. */
  ghost predicate Moves(cfg: Config, before: Option<RootSession>, after: Option<RootSession>, f: Frame) {
    || after == before
    || (before.None? && f.body.OpenSession?)
    || MovesOneEpoch(cfg, before, after, f)
  }

  ghost predicate MovesOneEpoch(cfg: Config, before: Option<RootSession>, after: Option<RootSession>, f: Frame) {
    && before.Some? && after.Some? && EpochOf(f.body).Some?
    && var e := EpochOf(f.body).value;
    && before.value.authority == e.previous
    && after == AfterEpoch(cfg, before.value, e.next, e.changes, f.attachments)
    && after.value.authority == e.next
    && after.value.sources.Keys == before.value.sources.Keys
    && e.next == e.previous.(populationSha := e.next.populationSha, sourceEpoch := e.previous.sourceEpoch + 1)
    && e.next.populationSha != e.previous.populationSha
  }

  lemma EpochKeeps(cfg: Config, s: RootSession, f: Frame)
    requires Consistent(cfg, s) && ValidBody(cfg, f) && EpochOf(f.body).Some?
    requires s.authority == EpochOf(f.body).value.previous
    ensures var e := EpochOf(f.body).value;
            var moved := AfterEpoch(cfg, s, e.next, e.changes, f.attachments);
            moved.Some? ==> Consistent(cfg, moved.value) && MovesOneEpoch(cfg, Some(s), moved, f)
  {
    var e := EpochOf(f.body).value;
    assert ValidTransition(cfg, f.sessionId, e.previous, e.next, e.changes, f.attachments);
    hide Resolved, ValidChange, DistinctChanges, Consistent;
    if AfterEpoch(cfg, s, e.next, e.changes, f.attachments).Some? {
      EpochConsistent(cfg, s, e.next, e.changes, f.attachments);
      hide AfterEpoch;
    }
  }

  /** Whatever a request answers, error or not, it leaves a consistent session that is the old
      one, a newly opened one or the old one moved by the whole of the requested epoch. */
  lemma RequestKeeps(cfg: Config, s: ProviderState, f: Frame, w: World)
    requires Healthy(cfg, s)
    ensures var (s', _) := Handle(cfg, s, f, w);
            Healthy(cfg, s') && Moves(cfg, s.session, s'.session, f)
  {
    hide Consistent, AfterEpoch, Exported, OpenedSession, ValidBody, MovesOneEpoch;
    if ValidBody(cfg, f) {
      if EpochOf(f.body).Some? && s.session.Some? && s.session.value.authority == EpochOf(f.body).value.previous {
        EpochKeeps(cfg, s.session.value, f);
      }
      if f.body.OpenSession? && OpenedSession(cfg, f.body, w).Some? {
        OpenConsistent(cfg, f.body, w);
      }
    }
  }

  /** A refresh that gets as far as its epoch. */
  predicate ReachesEpoch(cfg: Config, s: ProviderState, f: Frame, w: World) {
    && f.body.RefreshAffected? && ValidRequest(cfg, f) && f.requestId > s.lastRequestId
    && f.expectedProvider == cfg.identity && w.runtimeBefore == Some(cfg.runtime) && w.inputsUnchangedBefore
    && f.body.analyses == [] && ExactSession(s.session, f.sessionId, f.body.previous)
  }

  /** After a refused refresh the session is at the previous or at the next authority, never
      in between; it has moved exactly when the epoch could be applied, so that only the
      export or the observations after it can have failed. */
  lemma RefusedRefresh(cfg: Config, s: ProviderState, f: Frame, w: World)
    requires Healthy(cfg, s) && f.body.RefreshAffected? && Handle(cfg, s, f, w).1.response.Error?
    ensures var (s', _) := Handle(cfg, s, f, w);
            if ReachesEpoch(cfg, s, f, w)
              && AfterEpoch(cfg, s.session.value, f.body.next, f.body.changes, f.attachments).Some?
            then s'.session.Some? && s'.session.value.authority == f.body.next != s.session.value.authority
                 && s'.session.value.sources == Override(s.session.value.sources, f.body.changes)
            else s'.session == s.session
  {
    hide Consistent, AfterEpoch, Exported, OpenedSession, MovesOneEpoch, Override;
    if ReachesEpoch(cfg, s, f, w) {
      EpochKeeps(cfg, s.session.value, f);
      var moved := AfterEpoch(cfg, s.session.value, f.body.next, f.body.changes, f.attachments);
      if moved.Some? {
        AppliedEpoch(cfg, s.session.value, f);
        MovedApart(cfg, s.session, moved, f);
      }
    }
  }

  lemma AppliedEpoch(cfg: Config, s: RootSession, f: Frame)
    requires EpochOf(f.body).Some?
    ensures var e := EpochOf(f.body).value;
            var moved := AfterEpoch(cfg, s, e.next, e.changes, f.attachments);
            moved.Some? ==> moved.value.sources == Override(s.sources, e.changes)
  {
  }

  lemma MovedApart(cfg: Config, before: Option<RootSession>, after: Option<RootSession>, f: Frame)
    requires MovesOneEpoch(cfg, before, after, f)
    ensures after.value.authority ==
      EpochOf(f.body).value.next != EpochOf(f.body).value.previous == before.value.authority
    ensures after != before
  {
  }

  /** Repeating a refresh that moved the session is refused and changes nothing, because the
      authority it moves on from is no longer held. */
  lemma RepeatedRefreshRefused(cfg: Config, s: ProviderState, f: Frame, w: World, again: Frame, w': World)
    requires Healthy(cfg, s) && f.body.RefreshAffected? && again.body == f.body
    requires Handle(cfg, s, f, w).0.session != s.session
    ensures var s' := Handle(cfg, s, f, w).0;
            var (s'', r) := Handle(cfg, s', again, w');
            r.response.Error? && s''.session == s'.session
  {
    hide Consistent, AfterEpoch, Exported, OpenedSession, MovesOneEpoch;
    EpochKeeps(cfg, s.session.value, f);
    MovedApart(cfg, s.session, Handle(cfg, s, f, w).0.session, f);
  }

  // ---- runs ----

  datatype Exchange = Exchange(frame: Frame, world: World, reply: Reply)

  ghost predicate StepsBy(cfg: Config, s: ProviderState, s': ProviderState, x: Exchange) {
    Handle(cfg, s, x.frame, x.world) == (s', x.reply)
  }

  /** A process from its start on; errors do not end it. The real one stops after it has closed
      its session; here it may go on, so what follows holds of every run and of some more. */
  ghost predicate IsRun(cfg: Config, states: seq<ProviderState>, xs: seq<Exchange>) {
    && |states| == |xs| + 1
    && states[0] == FRESH
    && (forall i | 0 <= i < |xs| :: StepsBy(cfg, states[i], states[i + 1], xs[i]))
  }

  /** In every reachable state the population digest matches the sources and the host. */
  lemma {:induction false} RunsStayConsistent(cfg: Config, states: seq<ProviderState>, xs: seq<Exchange>, i: nat)
    requires IsRun(cfg, states, xs) && i < |states|
    ensures Healthy(cfg, states[i])
  {
    if i > 0 {
      hide Consistent, Handle, Moves;
      RunsStayConsistent(cfg, states, xs, i - 1);
      assert StepsBy(cfg, states[i - 1], states[i], xs[i - 1]);
      RequestKeeps(cfg, states[i - 1], xs[i - 1].frame, xs[i - 1].world);
    }
  }

  lemma RunMoves(cfg: Config, states: seq<ProviderState>, xs: seq<Exchange>, i: nat)
    requires IsRun(cfg, states, xs) && i < |xs|
    ensures Moves(cfg, states[i].session, states[i + 1].session, xs[i].frame)
  {
    hide Consistent, Handle, Moves;
    RunsStayConsistent(cfg, states, xs, i);
    assert StepsBy(cfg, states[i], states[i + 1], xs[i]);
    RequestKeeps(cfg, states[i], xs[i].frame, xs[i].world);
  }

  /** How many steps between two states changed the session. */
  ghost function MovesBetween(states: seq<ProviderState>, i: int, j: int): (n: nat)
    requires 0 <= i <= j < |states|
    decreases j
  {
    if i == j then 0
    else MovesBetween(states, i, j - 1) + if states[j - 1].session == states[j].session then 0 else 1
  }

  /** Once a session is open it stays open over the same sources domain, and each move takes
      its authority to the next epoch, changing nothing else of it but the digest. */
  lemma {:induction false} RunLineage(cfg: Config, states: seq<ProviderState>, xs: seq<Exchange>, i: nat, j: nat)
    requires IsRun(cfg, states, xs) && i <= j < |states| && states[i].session.Some?
    ensures states[j].session.Some?
    ensures states[j].session.value.sources.Keys == states[i].session.value.sources.Keys
    ensures states[j].session.value.authority == states[i].session.value.authority.(
              populationSha := states[j].session.value.authority.populationSha,
              sourceEpoch := states[i].session.value.authority.sourceEpoch + MovesBetween(states, i, j))
    ensures MovesBetween(states, i, j) == 0 ==> states[j].session == states[i].session
    decreases j
  {
    if i < j {
      hide Consistent, Handle, AfterEpoch;
      RunLineage(cfg, states, xs, i, j - 1);
      RunMoves(cfg, states, xs, j - 1);
    }
  }

  function NamedAuthority(b: Body): Option<Authority> {
    if b.CertifyFull? then Some(b.certified)
    else if EpochOf(b).Some? then Some(EpochOf(b).value.previous)
    else None
  }

  /** An authority once left behind is never served again, whatever is sent. */
  lemma SupersededAuthorityNeverServed(cfg: Config, states: seq<ProviderState>, xs: seq<Exchange>, i: nat, j: nat)
    requires IsRun(cfg, states, xs) && i <= j < |xs| && states[i].session.Some?
    requires MovesBetween(states, i, j) > 0
    requires NamedAuthority(xs[j].frame.body) == Some(states[i].session.value.authority)
    ensures xs[j].reply.response.Error? && states[j + 1].session == states[j].session
  {
    hide Consistent, Handle;
    RunLineage(cfg, states, xs, i, j);
    assert StepsBy(cfg, states[j], states[j + 1], xs[j]);
    ForeignAuthorityRefused(cfg, states[j], xs[j].frame, xs[j].world);
  }

  lemma ForeignAuthorityRefused(cfg: Config, s: ProviderState, f: Frame, w: World)
    requires NamedAuthority(f.body).Some?
    requires s.session.None? || s.session.value.authority != NamedAuthority(f.body).value
    ensures var (s', r) := Handle(cfg, s, f, w); r.response.Error? && s'.session == s.session
  {
    hide AfterEpoch, Exported, OpenedSession, ValidRequest;
  }

  // ---- exports ----

  lemma OrderedPathsDistinct(paths: set<Text>)
    ensures Sorting.Sorted(PATH_ORDER, OrderedPaths(paths))
    ensures forall i, j | 0 <= i < j < |OrderedPaths(paths)| :: OrderedPaths(paths)[i] != OrderedPaths(paths)[j]
  {
    PathOrderTotal();
    Sorting.SortSorts(PATH_ORDER, PathListing(paths));
    AllDistinct(OrderedPaths(paths), paths);
  }

  /** A list as long as the set of its elements repeats none. */
  lemma {:induction false} AllDistinct(list: seq<Text>, elements: set<Text>)
    requires |list| == |elements| && forall p :: p in list <==> p in elements
    ensures forall i, j | 0 <= i < j < |list| :: list[i] != list[j]
  {
    ProviderLoops.OnceEach(list, elements);
    forall i, j | 0 <= i < j < |list| ensures list[i] != list[j] {
      assert list == list[..j] + [list[j]] + list[j + 1..];
      assert multiset(list) == multiset(list[..j]) + multiset{list[j]} + multiset(list[j + 1..]);
      assert multiset(elements)[list[j]] == 1;
      assert list[j] !in list[..j] && list[..j][i] == list[i];
    }
  }

  lemma ExportAnswers(cfg: Config, s: RootSession, documents: seq<Text>, emission: seq<Document>)
    requires Exported(cfg, s, documents, emission).Some?
    ensures var e := Exported(cfg, s, documents, emission).value;
            var filed := FileEmission(s.executionPrefix, emission, Elements(documents));
            filed.Some? && AnswersPaths(cfg.sha256, s.sources, Elements(documents), EmittedBytes(filed.value), e)
  {
    var requested := Elements(documents);
    hide ExportOf, FileEmission, HostFile, EmittedBytes, AnswersPaths;
    var paths := OrderedPaths(requested);
    assert forall p | p in paths :: p in s.sources;
    assert Elements(paths) == requested;
    hide OrderedPaths, Elements;
    OrderedPathsDistinct(requested);
    ExportOfAnswers(cfg.sha256, s.sources, EmittedBytes(FileEmission(s.executionPrefix, emission, requested).value),
      paths);
  }

  /** Every served export answers what was asked: a refresh the set of requested documents
      over the sources its epoch leads to, a certification every source of the session. */
  lemma ServedExportsAnswer(cfg: Config, s: ProviderState, f: Frame, w: World)
    ensures var (s', r) := Handle(cfg, s, f, w);
            && (r.response.AffectedRefreshed? ==>
                 && f.body.RefreshAffected? && s'.session.Some?
                 && ServesExport(cfg, s'.session.value, Elements(f.body.documents), w,
                    Export(r.response.outcomes, r.attachments)))
            && (r.response.FullCertification? ==>
                 && s'.session.Some?
                 && ServesExport(cfg, s'.session.value, s'.session.value.sources.Keys, w,
                    Export(r.response.outcomes, r.attachments)))
  {
    hide AfterEpoch, Exported, OpenedSession, PathListing, ValidRequest, AnswersPaths, FileEmission, EmittedBytes;
    var (s', r) := Handle(cfg, s, f, w);
    if r.response.AffectedRefreshed? {
      ExportAnswers(cfg, s'.session.value, f.body.documents, w.emission);
    } else if r.response.FullCertification? {
      var all := PathListing(s'.session.value.sources.Keys);
      ExportAnswers(cfg, s'.session.value, all, w.emission);
      assert Elements(all) == s'.session.value.sources.Keys;
    }
  }

  ghost predicate ServesExport(cfg: Config, s: RootSession, requested: set<Text>, w: World, e: Export) {
    var filed := FileEmission(s.executionPrefix, w.emission, requested);
    filed.Some? && AnswersPaths(cfg.sha256, s.sources, requested, EmittedBytes(filed.value), e)
  }
}
