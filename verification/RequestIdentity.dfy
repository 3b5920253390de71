/** The identity a cursor is bound to: a digest of every request field but the paging controls. */
module RequestIdentity {
  import opened Wrappers
  import opened Bytes

  type Text = Blob

  const REQUEST_DOMAIN: seq<byte> := Ascii("h00-code-intel-request-v1") + [0]

  function RequestPreimage(operation: Text, fields: seq<Text>): seq<byte> {
    REQUEST_DOMAIN + (FieldLE(operation) + FieldsLE(fields))
  }

  /** Feed the fields to a hasher one after another, as the digest is computed. */
  method RequestDigest(sha256: seq<byte> -> seq<byte>, operation: Text, fields: seq<Text>) returns (digest: seq<byte>)
    ensures digest == sha256(RequestPreimage(operation, fields))
  {
    hide FieldLE;
    var hasher := REQUEST_DOMAIN + FieldLE(operation);
    for i := 0 to |fields|
      invariant hasher + FieldsLE(fields[i..]) == RequestPreimage(operation, fields)
    {
      assert fields[i..][1..] == fields[i + 1..];
      hasher := hasher + FieldLE(fields[i]);
    }
    assert hasher + [] == hasher;
    digest := sha256(hasher);
  }

  /** Operation and field list can both be read back from the preimage. */
  lemma RequestPreimageInjective(operation: Text, fields: seq<Text>, operation': Text, fields': seq<Text>)
    requires RequestPreimage(operation, fields) == RequestPreimage(operation', fields')
    ensures operation == operation' && fields == fields'
  {
    hide FieldLE, FieldsLE;
    Split(REQUEST_DOMAIN, FieldLE(operation) + FieldsLE(fields), REQUEST_DOMAIN,
      FieldLE(operation') + FieldsLE(fields'));
    FieldLECancel(operation, FieldsLE(fields), operation', FieldsLE(fields'));
    FieldsLEInjective(fields, fields');
  }

  // ---- Find ----

  datatype FindMode = Auto | Name | Path

  datatype FindRequest = FindRequest(
    query: Text,
    mode: FindMode,
    kind: Option<Text>,
    definitionsOnly: bool,
    limit: int,
    cursor: Option<seq<byte>>)

  datatype InvalidField = Query | Kind | Limit | CursorField

  const MAX_FIND_QUERY_BYTES := 4096
  const MAX_FIND_KIND_BYTES := 256
  const MAX_FIND_PAGE_SIZE := 100
  const MAX_FIND_CURSOR_BYTES := 8192

  /** `blank` is whether trimming leaves nothing; `isPathQuery` and `scopeSelector` are
      the query classifier and the normalizer of path selectors. */
  datatype Resolver = Resolver(
    blank: Text -> bool,
    isPathQuery: Text -> bool,
    scopeSelector: Text -> Option<Text>)

  function ValidateFindRequest(env: Resolver, r: FindRequest): Option<InvalidField> {
    if env.blank(r.query) then Some(Query)
    else if |r.query| > MAX_FIND_QUERY_BYTES then Some(Query)
    else if r.kind.Some? && env.blank(r.kind.value) then Some(Kind)
    else if r.kind.Some? && |r.kind.value| > MAX_FIND_KIND_BYTES then Some(Kind)
    else if !(1 <= r.limit <= MAX_FIND_PAGE_SIZE) then Some(Limit)
    else if r.cursor.Some? && |r.cursor.value| > MAX_FIND_CURSOR_BYTES then Some(CursorField)
    else None
  }

  /** A request is refused for the first field that is out of bounds: a query that is blank or
      longer than 4096 bytes, a kind that is blank or longer than 256, a page size that is not
      between 1 and 100, a cursor longer than 8192. */
  lemma ValidFindIff(env: Resolver, r: FindRequest)
    ensures var fault := ValidateFindRequest(env, r);
            var query := !env.blank(r.query) && |r.query| <= 4096;
            var kind := r.kind.Some? ==> !env.blank(r.kind.value) && |r.kind.value| <= 256;
            var limit := 1 <= r.limit <= 100;
            var cursor := r.cursor.Some? ==> |r.cursor.value| <= 8192;
            && (fault == None <==> query && kind && limit && cursor)
            && (fault == Some(Query) <==> !query)
            && (fault == Some(Kind) <==> query && !kind)
            && (fault == Some(Limit) <==> query && kind && !limit)
            && (fault == Some(CursorField) <==> query && kind && limit && !cursor)
  {
  }

  /** The query after mode detection and path normalization. */
  datatype ResolvedFind = ResolvedFind(query: Text, path: bool, kind: Option<Text>, definitionsOnly: bool)

  function ResolveFind(env: Resolver, r: FindRequest): Option<ResolvedFind> {
    var path := match r.mode
      case Auto => env.isPathQuery(r.query)
      case Name => false
      case Path => true;
    if path then
      var selector := env.scopeSelector(r.query);
      if selector.None? then None else Some(ResolvedFind(selector.value, true, r.kind, r.definitionsOnly))
    else Some(ResolvedFind(r.query, false, r.kind, r.definitionsOnly))
  }

  /** A query is taken for a path when the request says so, or when it leaves it open and the query
      looks like one; a path that selects nothing resolves to nothing. */
  lemma ResolvedIff(env: Resolver, r: FindRequest)
    ensures var path := r.mode == Path || (r.mode == Auto && env.isPathQuery(r.query));
            var resolved := ResolveFind(env, r);
            && (resolved.None? <==> path && env.scopeSelector(r.query).None?)
            && (resolved.Some? ==>
                 && resolved.value.path == path
                 && Some(resolved.value.query) == (if path then env.scopeSelector(r.query) else Some(r.query))
                 && resolved.value.kind == r.kind && resolved.value.definitionsOnly == r.definitionsOnly)
  {
  }

  function FindFields(r: ResolvedFind): seq<Text> {
    [r.query,
     if r.path then Ascii("path") else Ascii("name"),
     if r.kind.Some? then r.kind.value else [],
     if r.definitionsOnly then Ascii("definitions_only") else Ascii("all_structural_rows")]
  }

  lemma LiteralsDiffer()
    ensures Ascii("path") != Ascii("name")
    ensures Ascii("definitions_only") != Ascii("all_structural_rows")
  {
    assert Ascii("path")[0] != Ascii("name")[0];
  }

  /** Two valid Find requests share an identity exactly when they resolve to the same
      query, mode, kind and definitions flag, whatever their paging controls. */
  lemma FindIdentityIff(env: Resolver, a: FindRequest, b: FindRequest)
    requires env.blank([])
    requires ValidateFindRequest(env, a).None? && ValidateFindRequest(env, b).None?
    requires ResolveFind(env, a).Some? && ResolveFind(env, b).Some?
    ensures RequestPreimage(Ascii("find"), FindFields(ResolveFind(env, a).value))
         == RequestPreimage(Ascii("find"), FindFields(ResolveFind(env, b).value))
        <==> ResolveFind(env, a) == ResolveFind(env, b)
  {
    var ra, rb := ResolveFind(env, a).value, ResolveFind(env, b).value;
    var fa, fb := FindFields(ra), FindFields(rb);
    hide RequestPreimage;
    if RequestPreimage(Ascii("find"), fa) == RequestPreimage(Ascii("find"), fb) {
      RequestPreimageInjective(Ascii("find"), fa, Ascii("find"), fb);
      LiteralsDiffer();
      assert fa[0] == fb[0] && fa[1] == fb[1] && fa[2] == fb[2] && fa[3] == fb[3];
    }
  }

  /** The validation of the kind matters: an absent kind and an empty one are written alike. */
  lemma EmptyKindWouldCollide(query: Text)
    ensures var absent := ResolvedFind(query, false, None, false);
            var empty := ResolvedFind(query, false, Some([]), false);
            absent != empty && FindFields(absent) == FindFields(empty)
  {
  }

  // ---- Assess ----

  /** Which sections were asked for; the set is written in its sorted order. */
  datatype Sections = Sections(blastRadius: bool, callers: bool, tests: bool, risk: bool)

  function SectionNames(s: Sections): seq<seq<byte>> {
    (if s.blastRadius then [Ascii("blast_radius")] else [])
    + (if s.callers then [Ascii("callers")] else [])
    + (if s.tests then [Ascii("tests")] else [])
    + (if s.risk then [Ascii("risk")] else [])
  }

  const COMMA: byte := 44

  function Join(names: seq<seq<byte>>): seq<byte> {
    if names == [] then []
    else if |names| == 1 then names[0]
    else names[0] + ([COMMA] + Join(names[1..]))
  }

  ghost predicate NoComma(names: seq<seq<byte>>) {
    forall n | n in names :: COMMA !in n
  }

  ghost predicate FirstComma(s: seq<byte>, i: nat) {
    i < |s| && s[i] == COMMA && forall k | 0 <= k < i :: s[k] != COMMA
  }

  lemma CommaAfter(a: seq<byte>, x: seq<byte>)
    requires COMMA !in a
    ensures FirstComma(a + ([COMMA] + x), |a|)
  {
  }

  lemma FirstPartCancel(a: seq<byte>, x: seq<byte>, b: seq<byte>, y: seq<byte>)
    requires COMMA !in a && COMMA !in b
    requires a + ([COMMA] + x) == b + ([COMMA] + y)
    ensures a == b && x == y
  {
    CommaAfter(a, x);
    CommaAfter(b, y);
    Split(a, [COMMA] + x, b, [COMMA] + y);
    Split([COMMA], x, [COMMA], y);
  }

  lemma LongJoinHasComma(names: seq<seq<byte>>)
    ensures |names| > 1 ==> COMMA in Join(names)
  {
    if |names| > 1 { assert Join(names)[|names[0]|] == COMMA; }
  }

  /** Names without commas can be read back from their comma-separated list. */
  lemma {:induction false} JoinInjective(xs: seq<seq<byte>>, ys: seq<seq<byte>>)
    requires xs != [] && ys != [] && NoComma(xs) && NoComma(ys)
    requires Join(xs) == Join(ys)
    ensures xs == ys
  {
    LongJoinHasComma(xs);
    LongJoinHasComma(ys);
    assert xs[0] in xs && ys[0] in ys;
    if |xs| > 1 && |ys| > 1 {
      FirstPartCancel(xs[0], Join(xs[1..]), ys[0], Join(ys[1..]));
      JoinInjective(xs[1..], ys[1..]);
      assert xs == [xs[0]] + xs[1..] && ys == [ys[0]] + ys[1..];
    }
  }

  lemma {:induction false} JoinLength(names: seq<seq<byte>>)
    requires forall n | n in names :: |n| <= 12
    ensures |Join(names)| <= 13 * |names|
  {
    if |names| > 1 { JoinLength(names[1..]); }
  }

  lemma SectionLiterals()
    ensures NoComma([Ascii("blast_radius"), Ascii("callers"), Ascii("tests"), Ascii("risk")])
  {
  }

  lemma SectionNamesShape(s: Sections)
    ensures NoComma(SectionNames(s))
    ensures |SectionNames(s)| <= 4 && forall n | n in SectionNames(s) :: |n| <= 12
    ensures s.blastRadius <==> Ascii("blast_radius") in SectionNames(s)
    ensures s.callers <==> Ascii("callers") in SectionNames(s)
    ensures s.tests <==> Ascii("tests") in SectionNames(s)
    ensures s.risk <==> Ascii("risk") in SectionNames(s)
    ensures SectionNames(s) == [] <==> s == Sections(false, false, false, false)
  {
    SectionLiterals();
  }

  function SectionText(s: Sections): Text {
    SectionNamesShape(s);
    JoinLength(SectionNames(s));
    Join(SectionNames(s))
  }

  function Decimal(n: nat): (r: seq<byte>)
    ensures r != []
  {
    var last := [(48 + n % 10) as byte];
    if n < 10 then last else Decimal(n / 10) + last
  }

  lemma {:induction false} DecimalInjective(m: nat, n: nat)
    requires Decimal(m) == Decimal(n)
    ensures m == n
  {
    var dm, dn := Decimal(m), Decimal(n);
    assert dm[|dm| - 1] == dn[|dn| - 1];
    if m >= 10 && n >= 10 {
      assert Decimal(m / 10) == dm[..|dm| - 1] && Decimal(n / 10) == dn[..|dn| - 1];
      DecimalInjective(m / 10, n / 10);
    }
  }

  datatype Filter = Live | All | Dead | TestOnly

  function FilterText(f: Filter): Text {
    match f
    case Live => Ascii("live")
    case All => Ascii("all")
    case Dead => Ascii("dead")
    case TestOnly => Ascii("test_only")
  }

  lemma FilterTextInjective(f: Filter, f': Filter)
    requires FilterText(f) == FilterText(f')
    ensures f == f'
  {
    assert Ascii("live")[0] != Ascii("dead")[0];
  }

  const MAX_ASSESS_DEPTH := 10

  datatype AssessIdentity = AssessIdentity(
    symbolId: Text,
    file: Option<Text>,
    sections: Sections,
    maxDepth: nat,
    filter: Filter)

  /** What request validation guarantees of the fields that enter the identity. */
  predicate ValidAssess(r: AssessIdentity) {
    && (r.file.Some? ==> r.file.value != [])
    && r.sections != Sections(false, false, false, false)
    && 1 <= r.maxDepth <= MAX_ASSESS_DEPTH
  }

  function DepthText(n: nat): Text
    requires n <= MAX_ASSESS_DEPTH
  {
    assert n >= 10 ==> |Decimal(n / 10)| == 1;
    Decimal(n)
  }

  function AssessFields(r: AssessIdentity): seq<Text>
    requires ValidAssess(r)
  {
    [r.symbolId, if r.file.Some? then r.file.value else [],
      SectionText(r.sections), DepthText(r.maxDepth), FilterText(r.filter)]
  }

  /** Two valid Assess requests for resolved symbols share an identity exactly when they
      ask the same question. */
  lemma AssessIdentityIff(a: AssessIdentity, b: AssessIdentity)
    requires ValidAssess(a) && ValidAssess(b)
    ensures RequestPreimage(Ascii("assess"), AssessFields(a)) == RequestPreimage(Ascii("assess"), AssessFields(b))
      <==> a == b
  {
    var fa, fb := AssessFields(a), AssessFields(b);
    hide RequestPreimage;
    if RequestPreimage(Ascii("assess"), fa) == RequestPreimage(Ascii("assess"), fb) {
      RequestPreimageInjective(Ascii("assess"), fa, Ascii("assess"), fb);
      assert fa[0] == fb[0] && fa[1] == fb[1] && fa[2] == fb[2] && fa[3] == fb[3] && fa[4] == fb[4];
      SectionsEqual(a.sections, b.sections);
      DecimalInjective(a.maxDepth, b.maxDepth);
      FilterTextInjective(a.filter, b.filter);
    }
  }

  lemma SectionsEqual(a: Sections, b: Sections)
    requires SectionText(a) == SectionText(b)
    requires a != Sections(false, false, false, false) && b != Sections(false, false, false, false)
    ensures a == b
  {
    SectionNamesShape(a);
    SectionNamesShape(b);
    hide SectionNames;
    JoinInjective(SectionNames(a), SectionNames(b));
  }
}
