/** What the semantic providers share: authorities, sources and the population digest. */
module ProviderProtocol {
  import opened Wrappers
  import opened Bytes
  import opened Splitting
  import Sorting
  import Sets
  import Hex

  type Text = seq<byte>

  datatype Authority = Authority(
    sessionId: Text,
    rootSha: Text,
    rootTopologySha: Text,
    configurationSha: Text,
    workspaceResolutionSha: Option<Text>,
    semanticInputsSha: Option<Text>,
    populationSha: Text,
    sourceEpoch: int)

  datatype SourceIdentity = SourceIdentity(
    documentPath: Blob,
    language: Blob,
    contentIdentity: Blob,
    contentSha: Blob)

  const MAX_DOCUMENT_PATHS := 4096

  /** One and only one non-wrapping authority step between two 64-bit epochs. */
  predicate IsExactSuccessorEpoch(previous: int, next: int) {
    next != 0 && next - 1 == previous
  }

  predicate IsSha256(value: Text) {
    |value| == 64 && forall c | c in value :: 48 <= c as int < 58 || 97 <= c as int < 103
  }

  /** The digests are what 32 bytes are written as in hexadecimal. */
  lemma Sha256Iff(value: Text)
    ensures IsSha256(value) <==> exists bytes: seq<byte> :: |bytes| == 32 && value == Hex.Encode(bytes)
  {
    if IsSha256(value) {
      Hex.DigitsDecode(value);
      Hex.CanonicalIff(value);
      assert |Hex.Encode(Hex.Decode(value).value)| == 2 * |Hex.Decode(value).value|;
    }
    if bytes: seq<byte> :| |bytes| == 32 && value == Hex.Encode(bytes) {
      Hex.RoundTrip(bytes);
      Hex.CanonicalIff(value);
    }
  }

  // ---- document paths ----

  const SLASH: byte := 47
  const BACKSLASH: byte := 92
  const DOT: byte := 46

  predicate SafeDocumentPath(path: Text) {
    && path != [] && BACKSLASH !in path && path[0] != SLASH
    && forall part | part in SplitOn(path, SLASH) :: part != [] && part != [DOT] && part != [DOT, DOT]
  }

  /** A path is safe exactly when it is relative, without backslashes, and nothing between two of
      its slashes is empty, a dot or two dots. */
  lemma SafePathIff(path: Text)
    ensures SafeDocumentPath(path) <==>
      && path != [] && BACKSLASH !in path
      && forall before, part, after | Between(path, SLASH, before, part, after) ::
           part != [] && part != [DOT] && part != [DOT, DOT]
  {
    forall part { PieceIff(path, SLASH, part); }
    if path != [] && path[0] == SLASH {
      assert path == [] + [] + path;
      assert Between(path, SLASH, [], [], path);
    }
    hide SplitOn;
  }

  // ---- the source population ----

  const POPULATION_SCHEMA: Blob := Ascii("h00/semantic-provider/source-population/v1") + [0]

  const SOURCE_ORDER: (SourceIdentity, SourceIdentity) -> bool :=
    (a: SourceIdentity, b: SourceIdentity) => BytesLeq(a.documentPath, b.documentPath)

  predicate ValidSource(s: SourceIdentity) {
    SafeDocumentPath(s.documentPath) && s.language != [] && s.contentIdentity != [] && IsSha256(s.contentSha)
  }

  function SourceFields(sources: seq<SourceIdentity>): seq<Blob> {
    if sources == [] then []
    else
      var s := sources[0];
      [s.documentPath, s.language, s.contentIdentity, s.contentSha] + SourceFields(sources[1..])
  }

  function PopulationPreimage(ordered: seq<SourceIdentity>): seq<byte> {
    Field(POPULATION_SCHEMA) + Fields(SourceFields(ordered))
  }

  /** Valid sources in path order, no path twice. */
  predicate ValidPopulation(ordered: seq<SourceIdentity>) {
    && 1 <= |ordered| <= MAX_DOCUMENT_PATHS
    && (forall s | s in ordered :: ValidSource(s))
    && (forall i | 0 <= i < |ordered| - 1 :: ordered[i].documentPath != ordered[i + 1].documentPath)
  }

  /** The digest of a source population, refused for an invalid one. */
  function PopulationSha(sha256: seq<byte> -> Text, sources: seq<SourceIdentity>): Option<Text> {
    var ordered := Sorting.Sort(SOURCE_ORDER, sources);
    if ValidPopulation(ordered) then Some(sha256(PopulationPreimage(ordered))) else None
  }

  lemma SourceOrderPreorder()
    ensures Sorting.TotalPreorder(SOURCE_ORDER)
  {
    forall a: SourceIdentity, b: SourceIdentity, c: SourceIdentity
      ensures SOURCE_ORDER(a, b) || SOURCE_ORDER(b, a)
      ensures SOURCE_ORDER(a, b) && SOURCE_ORDER(b, c) ==> SOURCE_ORDER(a, c)
    {
      BytesLeqLaws(a.documentPath, b.documentPath, c.documentPath);
    }
  }

  /** No path names two sources. */
  ghost predicate DistinctPaths(sources: seq<SourceIdentity>) {
    forall i, j | 0 <= i < j < |sources| :: sources[i].documentPath != sources[j].documentPath
  }

  lemma NeighboursDistinct(ordered: seq<SourceIdentity>)
    requires Sorting.Sorted(SOURCE_ORDER, ordered)
    requires forall i | 0 <= i < |ordered| - 1 :: ordered[i].documentPath != ordered[i + 1].documentPath
    ensures DistinctPaths(ordered)
  {
    forall i, j | 0 <= i < j < |ordered| ensures ordered[i].documentPath != ordered[j].documentPath {
      if ordered[i].documentPath == ordered[j].documentPath {
        assert SOURCE_ORDER(ordered[i], ordered[i + 1]);
        assert i + 1 == j || SOURCE_ORDER(ordered[i + 1], ordered[j]);
        BytesLeqLaws(ordered[i].documentPath, ordered[i + 1].documentPath, ordered[i].documentPath);
      }
    }
  }

  lemma DistinctNoTies(sources: seq<SourceIdentity>)
    requires DistinctPaths(sources)
    ensures Sorting.NoTies(SOURCE_ORDER, sources)
  {
    forall a, b | a in sources && b in sources && SOURCE_ORDER(a, b) && SOURCE_ORDER(b, a) ensures a == b {
      BytesLeqAntisymmetric(a.documentPath, b.documentPath);
      var i :| 0 <= i < |sources| && sources[i] == a;
      var j :| 0 <= j < |sources| && sources[j] == b;
      assert i == j;
    }
  }

  lemma SortedPopulation(sources: seq<SourceIdentity>)
    ensures var ordered := Sorting.Sort(SOURCE_ORDER, sources);
            Sorting.Sorted(SOURCE_ORDER, ordered) && multiset(ordered) == multiset(sources)
  {
    SourceOrderPreorder();
    Sorting.SortSorts(SOURCE_ORDER, sources);
  }

  lemma AcceptedPopulationSorted(sources: seq<SourceIdentity>)
    requires ValidPopulation(Sorting.Sort(SOURCE_ORDER, sources))
    ensures var ordered := Sorting.Sort(SOURCE_ORDER, sources);
            Sorting.Sorted(SOURCE_ORDER, ordered) && Sorting.NoTies(SOURCE_ORDER, ordered)
  {
    SortedPopulation(sources);
    NeighboursDistinct(Sorting.Sort(SOURCE_ORDER, sources));
    DistinctNoTies(Sorting.Sort(SOURCE_ORDER, sources));
  }

  lemma TwiceListed(s: seq<SourceIdentity>, i: nat, j: nat)
    requires i < j < |s| && s[i] == s[j]
    ensures multiset(s)[s[i]] >= 2
  {
    assert s == s[..j] + s[j..];
    assert s[..j][i] == s[i] && s[j..][0] == s[i];
    assert multiset(s) == multiset(s[..j]) + multiset(s[j..]);
  }

  lemma DistinctRearranged(s: seq<SourceIdentity>, t: seq<SourceIdentity>)
    requires multiset(s) == multiset(t) && DistinctPaths(s)
    ensures DistinctPaths(t)
  {
    forall i, j | 0 <= i < j < |t| ensures t[i].documentPath != t[j].documentPath {
      if t[i].documentPath == t[j].documentPath {
        assert t[i] in multiset(s) && t[j] in multiset(s);
        var k :| 0 <= k < |s| && s[k] == t[i];
        var l :| 0 <= l < |s| && s[l] == t[j];
        assert k == l;
        TwiceListed(t, i, j);
        DistinctCount(s, t[i]);
      }
    }
  }

  /** A digest is given exactly for one to 4096 sources on distinct safe paths, each with a
      language, an identity and a digest. */
  lemma PopulationAcceptedIff(sha256: seq<byte> -> Text, sources: seq<SourceIdentity>)
    ensures PopulationSha(sha256, sources).Some? <==>
      && 1 <= |sources| <= 4096
      && DistinctPaths(sources)
      && forall s | s in sources :: SafeDocumentPath(s.documentPath)
           && s.language != [] && s.contentIdentity != [] && IsSha256(s.contentSha)
  {
    var ordered := Sorting.Sort(SOURCE_ORDER, sources);
    SortedPopulation(sources);
    Sorting.SameElements(ordered, sources);
    hide SafeDocumentPath, Sorting.Sort, Sorting.Sorted, IsSha256;
    if ValidPopulation(ordered) {
      NeighboursDistinct(ordered);
      DistinctRearranged(ordered, sources);
    }
    if DistinctPaths(sources) { DistinctRearranged(sources, ordered); }
  }

  /** The digest is a function of the population, not of the order it is listed in. */
  lemma PopulationOrderFree(sha256: seq<byte> -> Text, s: seq<SourceIdentity>, t: seq<SourceIdentity>)
    requires multiset(s) == multiset(t)
    ensures PopulationSha(sha256, s) == PopulationSha(sha256, t)
  {
    hide ValidPopulation, PopulationPreimage;
    if ValidPopulation(Sorting.Sort(SOURCE_ORDER, s)) { SameOrderedPopulation(s, t); }
    if ValidPopulation(Sorting.Sort(SOURCE_ORDER, t)) { SameOrderedPopulation(t, s); }
  }

  lemma SameOrderedPopulation(s: seq<SourceIdentity>, t: seq<SourceIdentity>)
    requires multiset(s) == multiset(t)
    requires ValidPopulation(Sorting.Sort(SOURCE_ORDER, s))
    ensures Sorting.Sort(SOURCE_ORDER, s) == Sorting.Sort(SOURCE_ORDER, t)
  {
    AcceptedPopulationSorted(s);
    SourceOrderPreorder();
    SortedPopulation(t);
    hide Sorting.Sorted, Sorting.NoTies, Sorting.TotalPreorder, Sorting.Sort, SOURCE_ORDER;
    Sorting.SortedUnique(SOURCE_ORDER, Sorting.Sort(SOURCE_ORDER, s), Sorting.Sort(SOURCE_ORDER, t));
  }

  lemma {:induction false} SourceFieldsInjective(s: seq<SourceIdentity>, t: seq<SourceIdentity>)
    requires SourceFields(s) == SourceFields(t)
    ensures s == t
  {
    if s != [] && t != [] {
      var a := [s[0].documentPath, s[0].language, s[0].contentIdentity, s[0].contentSha];
      var b := [t[0].documentPath, t[0].language, t[0].contentIdentity, t[0].contentSha];
      Split(a, SourceFields(s[1..]), b, SourceFields(t[1..]));
      SourceFieldsInjective(s[1..], t[1..]);
      assert a[0] == b[0] && a[1] == b[1] && a[2] == b[2] && a[3] == b[3];
      assert s == [s[0]] + s[1..] && t == [t[0]] + t[1..];
    }
  }

  /** Without collisions the digest determines the population. */
  lemma PopulationDigestIdentifies(sha256: seq<byte> -> Text, s: seq<SourceIdentity>, t: seq<SourceIdentity>)
    requires forall a, b :: sha256(a) == sha256(b) ==> a == b
    requires PopulationSha(sha256, s).Some?
    ensures PopulationSha(sha256, s) == PopulationSha(sha256, t) <==> multiset(s) == multiset(t)
  {
    var os, ot := Sorting.Sort(SOURCE_ORDER, s), Sorting.Sort(SOURCE_ORDER, t);
    if PopulationSha(sha256, s) == PopulationSha(sha256, t) {
      hide ValidPopulation, Fields, Field, Sorting.Sort;
      assert PopulationPreimage(os) == PopulationPreimage(ot);
      FieldCancel(POPULATION_SCHEMA, Fields(SourceFields(os)), POPULATION_SCHEMA, Fields(SourceFields(ot)));
      FieldsInjective(SourceFields(os), SourceFields(ot));
      SourceFieldsInjective(os, ot);
    }
    if multiset(s) == multiset(t) {
      PopulationOrderFree(sha256, s, t);
    }
  }

  // ---- populations held as a map ----

  type Sources = map<Text, SourceIdentity>

  /** Every source is filed under its own path. */
  ghost predicate Keyed(m: Sources) {
    forall path | path in m :: m[path].documentPath == path
  }

  /** `list` holds each source of the map once, in some order. */
  ghost predicate Lists(list: seq<SourceIdentity>, m: Sources) {
    && DistinctPaths(list)
    && (forall i | 0 <= i < |list| :: list[i].documentPath in m && m[list[i].documentPath] == list[i])
    && (forall path | path in m :: m[path] in list)
  }

  ghost function ListingOf(m: Sources): (r: seq<SourceIdentity>)
    decreases |m.Keys|
  {
    if m.Keys == {} then []
    else
      var key := Sets.Pick(m.Keys);
      assert (m - {key}).Keys == m.Keys - {key};
      [m[key]] + ListingOf(m - {key})
  }

  lemma {:induction false} ListingLists(m: Sources)
    requires Keyed(m)
    ensures Lists(ListingOf(m), m)
    decreases |m.Keys|
  {
    if m.Keys != {} {
      var key := Sets.Pick(m.Keys);
      assert (m - {key}).Keys == m.Keys - {key};
      hide Lists;
      ListingLists(m - {key});
      OneMoreListed(m, key, ListingOf(m - {key}));
    }
  }

  lemma OneMoreListed(m: Sources, key: Text, list: seq<SourceIdentity>)
    requires key in m && Keyed(m) && Lists(list, m - {key})
    ensures Lists([m[key]] + list, m)
  {
    var longer := [m[key]] + list;
    forall i | 0 <= i < |longer|
      ensures longer[i].documentPath in m && m[longer[i].documentPath] == longer[i]
      ensures i > 0 ==> longer[i].documentPath != key
    {
      if i > 0 { assert longer[i] == list[i - 1]; }
    }
    forall path | path in m ensures m[path] in longer {
      if path != key { assert (m - {key})[path] in list; }
    }
    assert longer[0] == m[key];
  }

  lemma DistinctCount(list: seq<SourceIdentity>, s: SourceIdentity)
    requires DistinctPaths(list)
    ensures multiset(list)[s] == if s in list then 1 else 0
  {
    if s in list {
      var i :| 0 <= i < |list| && list[i] == s;
      assert list == list[..i] + ([list[i]] + list[i + 1..]);
      assert multiset(list) == multiset(list[..i]) + multiset{s} + multiset(list[i + 1..]);
      assert s !in list[..i] && s !in list[i + 1..];
    }
  }

  /** All listings of one map are rearrangements of each other. */
  lemma ListingsPermute(s: seq<SourceIdentity>, t: seq<SourceIdentity>, m: Sources)
    requires Lists(s, m) && Lists(t, m)
    ensures multiset(s) == multiset(t)
  {
    forall x: SourceIdentity ensures multiset(s)[x] == multiset(t)[x] {
      DistinctCount(s, x);
      DistinctCount(t, x);
    }
  }

  /** The digest of a population held as a map; any listing of it gives the same one. */
  ghost function MapSha(sha256: seq<byte> -> Text, m: Sources): Option<Text> {
    PopulationSha(sha256, ListingOf(m))
  }

  lemma MapShaByListing(sha256: seq<byte> -> Text, m: Sources, list: seq<SourceIdentity>)
    requires Keyed(m) && Lists(list, m)
    ensures PopulationSha(sha256, list) == MapSha(sha256, m)
  {
    ListingLists(m);
    ListingsPermute(list, ListingOf(m), m);
    PopulationOrderFree(sha256, list, ListingOf(m));
  }

  // ---- lists of sources and paths ----

  /** The sources by path; a later one of the same path would replace an earlier one. */
  function SourceMap(sources: seq<SourceIdentity>): Sources {
    if sources == [] then map[]
    else SourceMap(sources[..|sources| - 1])[sources[|sources| - 1].documentPath := sources[|sources| - 1]]
  }

  lemma ListsOneMore(front: seq<SourceIdentity>, last: SourceIdentity, m: Sources)
    requires DistinctPaths(front + [last])
    requires Keyed(m) && Lists(front, m)
    ensures Lists(front + [last], m[last.documentPath := last])
  {
    var all, m' := front + [last], m[last.documentPath := last];
    forall i | 0 <= i < |all| ensures all[i].documentPath in m' && m'[all[i].documentPath] == all[i] {
      if i < |front| { assert all[i] == front[i] && all[|front|] == last; }
    }
    forall p | p in m' ensures m'[p] in all {
      if p == last.documentPath { assert all[|front|] == last; } else { assert m[p] in front; }
    }
  }

  lemma {:induction false} SourceMapLists(sources: seq<SourceIdentity>)
    requires DistinctPaths(sources)
    ensures Keyed(SourceMap(sources))
    ensures Lists(sources, SourceMap(sources))
  {
    if sources != [] {
      var n := |sources| - 1;
      assert sources == sources[..n] + [sources[n]];
      SourceMapLists(sources[..n]);
      hide Lists;
      ListsOneMore(sources[..n], sources[n], SourceMap(sources[..n]));
    }
  }

  lemma NewSource(list: seq<SourceIdentity>, i: nat, m: Sources)
    requires i < |list| && DistinctPaths(list[..i]) && Lists(list[..i], m) && Keyed(m)
    ensures list[i].documentPath in m ==> !DistinctPaths(list)
    ensures list[i].documentPath !in m ==> DistinctPaths(list[..i + 1])
  {
    var front, more := list[..i], list[..i + 1];
    if list[i].documentPath in m {
      assert m[list[i].documentPath] in front;
      var k :| 0 <= k < i && front[k] == m[list[i].documentPath];
      assert list[k].documentPath == list[i].documentPath;
    } else {
      forall a, b | 0 <= a < b < |more| ensures more[a].documentPath != more[b].documentPath {
        assert more[a] == front[a];
        if b < i { assert more[b] == front[b]; }
      }
    }
  }

  lemma {:induction false} SourceMapSize(list: seq<SourceIdentity>)
    requires DistinctPaths(list)
    ensures |SourceMap(list)| == |list|
  {
    if list != [] {
      var n := |list| - 1;
      SourceMapSize(list[..n]);
      SourceMapLists(list[..n]);
      NewSource(list, n, SourceMap(list[..n]));
      assert list[..n + 1] == list;
    }
  }

  /** Some list of a set of paths. */
  ghost function PathListing(paths: set<Text>): (r: seq<Text>)
    ensures |r| == |paths|
    ensures forall p :: p in r <==> p in paths
    decreases |paths|
  {
    if paths == {} then []
    else
      var p :| p in paths;
      [p] + PathListing(paths - {p})
  }

  // ---- source changes ----

  datatype SourceChange = SourceChange(
    isReplace: bool,
    documentPath: Blob,
    language: Blob,
    previousContentIdentity: Text,
    previousContentSha: Text,
    contentIdentity: Blob,
    contentSha: Blob,
    attachmentIndex: int)

  function NextSource(change: SourceChange): SourceIdentity {
    SourceIdentity(change.documentPath, change.language, change.contentIdentity, change.contentSha)
  }

  /** The changes applied in order; a later change of a path replaces an earlier one. */
  function Override(sources: Sources, changes: seq<SourceChange>): Sources {
    if changes == [] then sources
    else
      var last := changes[|changes| - 1];
      Override(sources, changes[..|changes| - 1])[last.documentPath := NextSource(last)]
  }

  lemma {:induction false} OverrideKeyed(sources: Sources, changes: seq<SourceChange>)
    requires Keyed(sources)
    requires forall c | c in changes :: c.documentPath in sources
    ensures Keyed(Override(sources, changes))
    ensures Override(sources, changes).Keys == sources.Keys
  {
    if changes != [] {
      OverrideKeyed(sources, changes[..|changes| - 1]);
      assert changes[|changes| - 1] in changes;
    }
  }

  /** What an epoch says of a path is what its last change of it says. */
  lemma {:induction false} OverrideAt(sources: Sources, changes: seq<SourceChange>, i: nat)
    requires i < |changes|
    requires forall j | i < j < |changes| :: changes[j].documentPath != changes[i].documentPath
    ensures var c := changes[i];
            && c.documentPath in Override(sources, changes)
            && var s := Override(sources, changes)[c.documentPath];
               && s.documentPath == c.documentPath && s.language == c.language
               && s.contentIdentity == c.contentIdentity && s.contentSha == c.contentSha
    decreases |changes|
  {
    if i < |changes| - 1 { OverrideAt(sources, changes[..|changes| - 1], i); }
  }

  lemma {:induction false} OverrideElsewhere(sources: Sources, changes: seq<SourceChange>, path: Text)
    requires forall i | 0 <= i < |changes| :: changes[i].documentPath != path
    ensures path in Override(sources, changes) <==> path in sources
    ensures path in sources ==> Override(sources, changes)[path] == sources[path]
  {
    if changes != [] { OverrideElsewhere(sources, changes[..|changes| - 1], path); }
  }

  // ---- the attachments of an epoch ----

  predicate ClaimsDistinct(changes: seq<SourceChange>) {
    forall i, j | 0 <= i < j < |changes| :: changes[i].attachmentIndex != changes[j].attachmentIndex
  }

  ghost function ClaimedBy(changes: seq<SourceChange>): set<int> {
    set i | 0 <= i < |changes| :: changes[i].attachmentIndex
  }

  ghost function UpTo(n: nat): (r: set<int>)
    ensures |r| == n
    ensures forall k :: k in r <==> 0 <= k < n
  {
    if n == 0 then {} else UpTo(n - 1) + {n - 1}
  }

  lemma ClaimedOneMore(changes: seq<SourceChange>, c: SourceChange)
    ensures ClaimedBy(changes + [c]) == ClaimedBy(changes) + {c.attachmentIndex}
  {
    var more := changes + [c];
    forall x | x in ClaimedBy(changes) ensures x in ClaimedBy(more) {
      var i :| 0 <= i < |changes| && changes[i].attachmentIndex == x;
      assert more[i].attachmentIndex == x;
    }
    assert more[|changes|].attachmentIndex == c.attachmentIndex;
  }

  lemma {:induction false} ClaimedSize(changes: seq<SourceChange>)
    requires ClaimsDistinct(changes)
    ensures |ClaimedBy(changes)| == |changes|
  {
    if changes != [] {
      var n := |changes| - 1;
      ClaimedSize(changes[..n]);
      ClaimedOneMore(changes[..n], changes[n]);
      assert changes == changes[..n] + [changes[n]];
      assert changes[n].attachmentIndex !in ClaimedBy(changes[..n]);
    }
  }

  lemma SubsetSameSize(a: set<int>, b: set<int>)
    requires a <= b && |a| == |b|
    ensures a == b
  {
    Sets.SplitSize(a, b - a, b);
    assert b - a == {};
  }

  // ---- exported documents ----

  datatype DocumentOutcome =
    | Present(documentPath: Text, contentIdentity: Blob, canonicalSha: Text, attachmentIndex: int)
    | Omitted(documentPath: Text, contentIdentity: Blob)

  datatype Export = Export(outcomes: seq<DocumentOutcome>, attachments: seq<seq<byte>>)

  const PATH_ORDER: (Text, Text) -> bool := (a: Text, b: Text) => BytesLeq(a, b)

  lemma PathOrderTotal()
    ensures Sorting.TotalOrder(PATH_ORDER)
  {
    forall a: Text, b: Text, c: Text
      ensures PATH_ORDER(a, b) || PATH_ORDER(b, a)
      ensures PATH_ORDER(a, b) && PATH_ORDER(b, a) ==> a == b
      ensures PATH_ORDER(a, b) && PATH_ORDER(b, c) ==> PATH_ORDER(a, c)
    {
      BytesLeqLaws(a, b, c);
    }
  }

  /** What an export answers for a list of paths, given the bytes emitted for each path
      that produced a document: outcomes in list order, present ones numbered in turn. */
  function ExportOf(
    sha256: seq<byte> -> Text, sources: Sources, emitted: Text -> Option<seq<byte>>, paths: seq<Text>): Export
    requires forall p | p in paths :: p in sources
  {
    if paths == [] then Export([], [])
    else
      var path := paths[|paths| - 1];
      assert path in paths;
      var front := ExportOf(sha256, sources, emitted, paths[..|paths| - 1]);
      var identity := sources[path].contentIdentity;
      match emitted(path)
      case None => Export(front.outcomes + [Omitted(path, identity)], front.attachments)
      case Some(bytes) =>
        Export(front.outcomes + [Present(path, identity, sha256(bytes), |front.attachments|)],
          front.attachments + [bytes])
  }

  /** The outcomes that carry an attachment. */
  function PresentIndices(outcomes: seq<DocumentOutcome>): seq<int> {
    if outcomes == [] then []
    else
      var last := outcomes[|outcomes| - 1];
      PresentIndices(outcomes[..|outcomes| - 1]) + (if last.Present? then [last.attachmentIndex] else [])
  }

  /** The outcome of one path: its own identity, and its own document if it produced one. */
  ghost predicate Answers(
    sha256: seq<byte> -> Text, sources: Sources, emitted: Text -> Option<seq<byte>>,
    path: Text, outcome: DocumentOutcome, attachments: seq<seq<byte>>)
  {
    && path in sources
    && outcome.documentPath == path
    && outcome.contentIdentity == sources[path].contentIdentity
    && (outcome.Present? <==> emitted(path).Some?)
    && (outcome.Present? ==>
         && 0 <= outcome.attachmentIndex < |attachments|
         && attachments[outcome.attachmentIndex] == emitted(path).value
         && outcome.canonicalSha == sha256(emitted(path).value))
  }

  /** One outcome per path, in its place; present exactly for the paths that produced a
      document, numbered 0, 1, 2, ... in order, so that each attachment is claimed by
      exactly one outcome, the one that carries its digest. */
  lemma {:induction false} ExportOutcomes(
    sha256: seq<byte> -> Text, sources: Sources, emitted: Text -> Option<seq<byte>>, paths: seq<Text>)
    requires forall p | p in paths :: p in sources
    ensures var e := ExportOf(sha256, sources, emitted, paths);
            && |e.outcomes| == |paths|
            && (forall i | 0 <= i < |paths| ::
               Answers(sha256, sources, emitted, paths[i], e.outcomes[i], e.attachments))
            && PresentIndices(e.outcomes) == seq(|e.attachments|, k => k)
  {
    if paths != [] {
      var n := |paths| - 1;
      var front := ExportOf(sha256, sources, emitted, paths[..n]);
      ExportOutcomes(sha256, sources, emitted, paths[..n]);
      var outcome, more := LastOutcome(sha256, sources, emitted, paths);
      hide ExportOf, PresentIndices, Answers;
      PresentIndicesSnoc(front.outcomes, outcome);
      NumberedNext(|front.attachments|);
      assert paths == paths[..n] + [paths[n]];
      AnswersSnoc(sha256, sources, emitted, paths[..n], paths[n], front.outcomes, outcome, front.attachments, more);
    }
  }

  lemma NumberedNext(n: nat)
    ensures seq(n + 1, k => k) == seq(n, k => k) + [n]
  {
  }

  lemma AnswersSnoc(
    sha256: seq<byte> -> Text, sources: Sources, emitted: Text -> Option<seq<byte>>,
    paths: seq<Text>, path: Text, outcomes: seq<DocumentOutcome>, outcome: DocumentOutcome, attachments: seq<seq<byte>>,
    more: seq<seq<byte>>)
    requires |outcomes| == |paths|
    requires forall i | 0 <= i < |paths| :: Answers(sha256, sources, emitted, paths[i], outcomes[i], attachments)
    requires Answers(sha256, sources, emitted, path, outcome, attachments + more)
    ensures forall i | 0 <= i < |paths + [path]| ::
      Answers(sha256, sources, emitted, (paths + [path])[i], (outcomes + [outcome])[i], attachments + more)
  {
    forall i | 0 <= i < |paths| ensures Answers(sha256, sources, emitted, paths[i], outcomes[i], attachments + more) {
      StillAnswers(sha256, sources, emitted, paths[i], outcomes[i], attachments, more);
    }
    hide Answers;
  }

  /** What the last path adds to an export. */
  lemma LastOutcome(sha256: seq<byte> -> Text, sources: Sources, emitted: Text -> Option<seq<byte>>, paths: seq<Text>)
    returns (outcome: DocumentOutcome, more: seq<seq<byte>>)
    requires paths != [] && forall p | p in paths :: p in sources
    ensures var front := ExportOf(sha256, sources, emitted, paths[..|paths| - 1]);
            && ExportOf(sha256, sources, emitted, paths) == Export(front.outcomes + [outcome], front.attachments + more)
            && Answers(sha256, sources, emitted, paths[|paths| - 1], outcome, front.attachments + more)
            && (if outcome.Present? then |more| == 1 && outcome.attachmentIndex == |front.attachments| else more == [])
  {
    var path := paths[|paths| - 1];
    assert path in paths;
    var front := ExportOf(sha256, sources, emitted, paths[..|paths| - 1]);
    match emitted(path)
    case None =>
      outcome, more := Omitted(path, sources[path].contentIdentity), [];
      assert front.attachments + more == front.attachments;
    case Some(bytes) =>
      outcome, more := Present(path, sources[path].contentIdentity, sha256(bytes), |front.attachments|), [bytes];
  }

  lemma PresentIndicesSnoc(outcomes: seq<DocumentOutcome>, outcome: DocumentOutcome)
    ensures PresentIndices(outcomes + [outcome])
         == PresentIndices(outcomes) + if outcome.Present? then [outcome.attachmentIndex] else []
  {
    assert (outcomes + [outcome])[..|outcomes|] == outcomes;
  }

  lemma StillAnswers(
    sha256: seq<byte> -> Text, sources: Sources, emitted: Text -> Option<seq<byte>>,
    path: Text, outcome: DocumentOutcome, attachments: seq<seq<byte>>, more: seq<seq<byte>>)
    requires Answers(sha256, sources, emitted, path, outcome, attachments)
    ensures Answers(sha256, sources, emitted, path, outcome, attachments + more)
  {
  }

  // ---- what an export answers ----

  function Elements(paths: seq<Text>): set<Text> {
    set p | p in paths
  }

  function PathsOf(outcomes: seq<DocumentOutcome>): set<Text> {
    set o | o in outcomes :: o.documentPath
  }

  /** One outcome for each of distinct paths, in path order. */
  ghost predicate StrictlyOrdered(outcomes: seq<DocumentOutcome>) {
    forall i, j | 0 <= i < j < |outcomes| ::
      PATH_ORDER(outcomes[i].documentPath, outcomes[j].documentPath)
        && outcomes[i].documentPath != outcomes[j].documentPath
  }

  /** An export answers exactly the requested paths: one outcome each, in path order, with the
      identity of that source; the present ones numbered 0, 1, 2, ... so that every attachment
      is claimed by exactly one outcome, the one that records its digest. */
  ghost predicate AnswersPaths(
    sha256: seq<byte> -> Text, sources: Sources, requested: set<Text>, emitted: Text -> Option<seq<byte>>, e: Export)
  {
    && StrictlyOrdered(e.outcomes)
    && PathsOf(e.outcomes) == requested
    && (forall i | 0 <= i < |e.outcomes| ::
         Answers(sha256, sources, emitted, e.outcomes[i].documentPath, e.outcomes[i], e.attachments))
    && PresentIndices(e.outcomes) == seq(|e.attachments|, k => k)
  }

  lemma OrderedOutcomes(paths: seq<Text>, outcomes: seq<DocumentOutcome>)
    requires Sorting.Sorted(PATH_ORDER, paths)
    requires forall i, j | 0 <= i < j < |paths| :: paths[i] != paths[j]
    requires |outcomes| == |paths| && forall i | 0 <= i < |paths| :: outcomes[i].documentPath == paths[i]
    ensures StrictlyOrdered(outcomes)
    ensures PathsOf(outcomes) == Elements(paths)
  {
    hide BytesLeq, PATH_ORDER;
    forall p | p in paths ensures p in PathsOf(outcomes) {
      var i :| 0 <= i < |paths| && paths[i] == p;
      assert outcomes[i] in outcomes;
    }
  }

  lemma ExportOfAnswers(
    sha256: seq<byte> -> Text, sources: Sources, emitted: Text -> Option<seq<byte>>, paths: seq<Text>)
    requires Sorting.Sorted(PATH_ORDER, paths)
    requires forall i, j | 0 <= i < j < |paths| :: paths[i] != paths[j]
    requires forall p | p in paths :: p in sources
    ensures var e := ExportOf(sha256, sources, emitted, paths);
            |e.outcomes| == |paths| && AnswersPaths(sha256, sources, Elements(paths), emitted, e)
  {
    hide ExportOf, PresentIndices, BytesLeq, PATH_ORDER, StrictlyOrdered, Sorting.Sorted;
    ExportOutcomes(sha256, sources, emitted, paths);
    var e := ExportOf(sha256, sources, emitted, paths);
    forall i | 0 <= i < |paths| ensures e.outcomes[i].documentPath == paths[i] {
      assert Answers(sha256, sources, emitted, paths[i], e.outcomes[i], e.attachments);
    }
    hide Answers;
    OrderedOutcomes(paths, e.outcomes);
  }
}
