/** Normalization cannot tell where the sources were: the same document written against other
    roots normalizes to the identical output. */
module SbomRelocation {
  import opened Wrappers
  import Bytes
  import opened JsonTrees
  import opened SbomNormalize
  import opened SbomIsomorphism

  const SCHEME := "file:///"

  // ---- where the first local URI of a text starts ----

  function FirstAt(s: string): (r: Option<nat>)
    ensures r.Some? ==> r.value <= |s| && SCHEME <= s[r.value..]
    ensures r.Some? <==> Contains(s, SCHEME)
  {
    if SCHEME <= s then Some(0)
    else if s == [] then None
    else
      match FirstAt(s[1..])
      case None => None
      case Some(i) =>
        assert s[i + 1..] == s[1..][i..];
        Some(i + 1)
  }

  lemma NoStraddle(before: string, tail: string)
    requires before != [] && !(SCHEME <= before) && SCHEME <= tail
    ensures !(SCHEME <= before + tail)
  {
    var m := |before|;
    if m >= 8 {
      assert (before + tail)[..8] == before[..8];
    } else {
      assert (before + tail)[m] == tail[0] == 'f';
      assert SCHEME[m] != 'f';
    }
  }

  lemma {:induction false} FirstAfter(before: string, tail: string)
    requires FirstAt(before).None? && SCHEME <= tail
    ensures FirstAt(before + tail) == Some(|before|)
  {
    if before == [] {
      assert before + tail == tail;
    } else {
      NoStraddle(before, tail);
      assert (before + tail)[1..] == before[1..] + tail;
      FirstAfter(before[1..], tail);
    }
  }

  lemma {:induction false} NoneInPrefix(s: string, n: nat)
    requires FirstAt(s).None? && n <= |s|
    ensures FirstAt(s[..n]).None?
  {
    if n == 0 {
      assert s[..n] == "";
      hide FirstAt, Contains;
      NoneInEmpty();
    } else {
      NoneUnfolds(s);
      hide FirstAt, Contains;
      NoneInPrefix(s[1..], n - 1);
      NoneInFront(s, n);
    }
  }

  lemma NoneInEmpty()
    ensures FirstAt("").None?
  {
  }

  lemma NoneInFront(s: string, n: nat)
    requires 0 < n <= |s| && FirstAt(s).None? && FirstAt(s[1..][..n - 1]).None?
    ensures FirstAt(s[..n]).None?
  {
    NoneUnfolds(s);
    NoneUnfolds(s[..n]);
    hide FirstAt;
    assert s[..n][1..] == s[1..][..n - 1];
    assert SCHEME <= s[..n] ==> SCHEME <= s;
  }

  lemma NoneUnfolds(s: string)
    requires s != []
    ensures FirstAt(s).None? <==> !(SCHEME <= s) && FirstAt(s[1..]).None?
  {
    hide Contains;
  }

  lemma {:induction false} NoneInSuffix(s: string, n: nat)
    requires FirstAt(s).None? && n <= |s|
    ensures FirstAt(s[n..]).None?
  {
    if n == 0 {
      assert s[n..] == s;
    } else {
      assert s[n..] == s[1..][n - 1..];
      NoneInSuffix(s[1..], n - 1);
    }
  }

  lemma NoJoinedStraddle(x: string, y: string)
    requires x != [] && !(SCHEME <= x) && y != [] && y[0] !in SCHEME
    ensures !(SCHEME <= x + y)
  {
    if |x| >= 8 {
      assert (x + y)[..8] == x[..8];
    } else {
      assert (x + y)[|x|] == y[0];
      assert SCHEME[|x|] in SCHEME;
    }
  }

  /** Two texts without a local URI have none when joined at a character no URI scheme has. */
  lemma {:induction false} NoneInJoin(x: string, y: string)
    requires FirstAt(x).None? && FirstAt(y).None? && y != [] && y[0] !in SCHEME
    ensures FirstAt(x + y).None?
  {
    if x == [] {
      assert x + y == y;
    } else {
      NoJoinedStraddle(x, y);
      assert (x + y)[1..] == x[1..] + y;
      NoneInJoin(x[1..], y);
    }
  }

  lemma {:induction false} RootMentionsScheme(s: string, uri: string)
    requires SCHEME <= uri && Contains(s, uri)
    ensures Contains(s, SCHEME)
  {
    if uri <= s {
      assert s[..8] == uri[..8];
    } else {
      RootMentionsScheme(s[1..], uri);
    }
  }

  // ---- texts that name at most one root ----

  datatype Template = Plain(text: string) | Rooted(before: string, root: nat, after: string)

  function Write(roots: seq<Root>, t: Template): string {
    match t
    case Plain(text) => text
    case Rooted(before, root, after) => before + (if root < |roots| then roots[root].uri else "") + after
  }

  /** A root stands first and at the end of a path segment; nothing else is a local URI. */
  predicate WellPlaced(n: nat, t: Template) {
    match t
    case Plain(text) => FirstAt(text).None?
    case Rooted(before, root, after) => root < n && FirstAt(before).None? && (after == "" || after[0] == '/')
  }

  /** Every root is an absolute local URI, in which `#` and `?` are escaped. */
  predicate LocalUris(roots: seq<Root>) {
    forall r | r in roots :: SCHEME <= r.uri && '#' !in r.uri && '?' !in r.uri
  }

  predicate Admissible(roots: seq<Root>) {
    ValidRoots(roots) && LocalUris(roots)
  }

  lemma UriLeads(roots: seq<Root>, i: nat, rest: string)
    requires LocalUris(roots) && i < |roots|
    ensures SCHEME <= roots[i].uri + rest
  {
    assert roots[i] in roots;
    assert (roots[i].uri + rest)[..8] == roots[i].uri[..8];
  }

  lemma WrittenFirst(roots: seq<Root>, t: Template)
    requires LocalUris(roots) && WellPlaced(|roots|, t)
    ensures FirstAt(Write(roots, t)) == if t.Rooted? then Some(|t.before|) else None
  {
    if t.Rooted? {
      UriLeads(roots, t.root, t.after);
      FirstAfter(t.before, roots[t.root].uri + t.after);
      hide FirstAt;
      Regrouped(t.before, roots[t.root].uri, t.after);
    }
  }

  lemma Regrouped(a: string, b: string, c: string)
    ensures a + b + c == a + (b + c)
  {
  }

  lemma ShorterUriOverlaps(u: string, a: string, v: string, b: string)
    requires |u| < |v| && (a == "" || a[0] == '/') && u + a == v + b
    ensures Overlaps(v, u)
  {
    assert v == (u + a)[..|v|];
    assert v[|u|] == (u + a)[|u|] == a[0];
    assert v[..|u| + 1] == (u + a)[..|u| + 1] == u + "/";
  }

  lemma NoneOverlap(roots: seq<Root>, i: nat, j: nat)
    requires ValidRoots(roots) && i < |roots| && j < |roots| && i != j
    ensures !Overlaps(roots[i].uri, roots[j].uri)
  {
    if i < j { assert !Overlaps(roots[j].uri, roots[i].uri); }
  }

  lemma UriCancel(roots: seq<Root>, i: nat, a: string, j: nat, b: string)
    requires ValidRoots(roots) && i < |roots| && j < |roots|
    requires (a == "" || a[0] == '/') && (b == "" || b[0] == '/') && roots[i].uri + a == roots[j].uri + b
    ensures i == j && a == b
  {
    var u, v := roots[i].uri, roots[j].uri;
    if i != j {
      NoneOverlap(roots, i, j);
      NoneOverlap(roots, j, i);
    }
    if |u| < |v| {
      ShorterUriOverlaps(u, a, v, b);
    } else if |v| < |u| {
      ShorterUriOverlaps(v, b, u, a);
    }
    if |u| == |v| { Bytes.Split(u, a, v, b); }
  }

  lemma RootedCancel(roots: seq<Root>, s: Template, t: Template)
    requires ValidRoots(roots) && WellPlaced(|roots|, s) && WellPlaced(|roots|, t) && s.Rooted? && t.Rooted?
    requires |s.before| == |t.before| && Write(roots, s) == Write(roots, t)
    ensures s == t
  {
    var u, v := roots[s.root].uri, roots[t.root].uri;
    hide ValidRoots, FirstAt;
    assert Write(roots, s) == s.before + (u + s.after) && Write(roots, t) == t.before + (v + t.after);
    Bytes.Split(s.before, u + s.after, t.before, v + t.after);
    UriCancel(roots, s.root, s.after, t.root, t.after);
  }

  /** Different templates are written differently, against any admissible roots. */
  lemma SameTemplate(roots: seq<Root>, s: Template, t: Template)
    requires Admissible(roots) && WellPlaced(|roots|, s) && WellPlaced(|roots|, t)
    requires Write(roots, s) == Write(roots, t)
    ensures s == t
  {
    WrittenFirst(roots, s);
    WrittenFirst(roots, t);
    hide ValidRoots, FirstAt, LocalUris;
    if s.Rooted? { RootedCancel(roots, s, t); }
  }

  // ---- which root a written reference lies under ----

  predicate LocalReference(t: Template) {
    t.Rooted? && t.before == "path+" && t.after != ""
  }

  lemma PathPrefixHasNone()
    ensures FirstAt("path+").None?
  {
    assert "path+"[1..] == "ath+" && "ath+"[1..] == "th+" && "th+"[1..] == "h+" && "h+"[1..] == "+";
  }

  lemma PrefixWritten(roots: seq<Root>, k: nat, t: Template)
    requires Admissible(roots) && WellPlaced(|roots|, t) && k < |roots|
    ensures Prefix(roots[k]) <= Write(roots, t) <==> LocalReference(t) && t.root == k
  {
    var w, p := Write(roots, t), Prefix(roots[k]);
    if p <= w {
      var rest := w[|p|..];
      var same := Rooted("path+", k, "/" + rest);
      assert w == p + rest == Write(roots, same);
      PathPrefixHasNone();
      SameTemplate(roots, t, same);
    }
    if LocalReference(t) && t.root == k {
      assert w[..|p|] == p;
    }
  }

  lemma {:induction false} RootOfWritten(roots: seq<Root>, t: Template, m: nat)
    requires Admissible(roots) && WellPlaced(|roots|, t) && m <= |roots|
    ensures RootOf(roots[m..], Write(roots, t)) == if LocalReference(t) && t.root >= m then Some(roots[t.root])
      else None
    decreases |roots| - m
  {
    if m < |roots| {
      PrefixWritten(roots, m, t);
      assert roots[m..][0] == roots[m] && roots[m..][1..] == roots[m + 1..];
      RootOfWritten(roots, t, m + 1);
    }
  }

  // ---- cutting texts ----

  lemma {:induction false} LastInJoin(x: string, y: string, c: char)
    ensures LastIndexOf(x + y, c) ==
      match LastIndexOf(y, c) case Some(i) => Some(|x| + i) case None => LastIndexOf(x, c)
    decreases |y|
  {
    if y == [] {
      assert LastIndexOf(y, c).None?;
      hide LastIndexOf;
      assert x + y == x;
    } else {
      hide LastIndexOf;
      LastInJoin(x, y[..|y| - 1], c);
      LastIndexUnfolds(y, c);
      LastIndexUnfolds(x + y, c);
      JoinedEnds(x, y);
    }
  }

  lemma JoinedEnds(x: string, y: string)
    requires y != []
    ensures |x + y| == |x| + |y| && (x + y)[|x + y| - 1] == y[|y| - 1]
    ensures (x + y)[..|x + y| - 1] == x + y[..|y| - 1]
  {
  }

  lemma LastIndexUnfolds(s: string, c: char)
    requires s != []
    ensures LastIndexOf(s, c) == if s[|s| - 1] == c then Some(|s| - 1) else LastIndexOf(s[..|s| - 1], c)
  {
  }

  /** What is left of a template before its last `#`. */
  function Cut(t: Template): Template {
    match t
    case Plain(text) => Plain(RightPartition(text, '#').before)
    case Rooted(before, root, after) =>
      if '#' in after then Rooted(before, root, RightPartition(after, '#').before)
      else Plain(RightPartition(before, '#').before)
  }

  lemma CutPlaced(n: nat, t: Template)
    requires WellPlaced(n, t)
    ensures WellPlaced(n, Cut(t))
  {
    var text := if t.Plain? then t.text else t.before;
    var i := LastIndexOf(text, '#');
    if i.Some? { NoneInPrefix(text, i.value); }
  }

  lemma TakeInto(x: string, y: string, n: nat)
    requires n <= |y|
    ensures (x + y)[..|x| + n] == x + y[..n]
  {
  }

  lemma TakeWithin(x: string, y: string, n: nat)
    requires n <= |x|
    ensures (x + y)[..n] == x[..n]
  {
  }

  lemma CutWritten(roots: seq<Root>, t: Template)
    requires LocalUris(roots) && WellPlaced(|roots|, t)
    ensures RightPartition(Write(roots, t), '#').before == Write(roots, Cut(t))
  {
    if t.Rooted? {
      assert roots[t.root] in roots;
      hide RightPartition, FirstAt;
      CutJoined(t.before, roots[t.root].uri, t.after, '#');
    }
  }

  lemma CutJoined(before: string, uri: string, after: string, c: char)
    requires c !in uri
    ensures RightPartition(before + uri + after, c).before ==
      if c in after then before + uri + RightPartition(after, c).before else RightPartition(before, c).before
  {
    hide LastIndexOf;
    LastInJoin(before + uri, after, c);
    LastInJoin(before, uri, c);
    if LastIndexOf(after, c).Some? {
      TakeInto(before + uri, after, LastIndexOf(after, c).value);
    } else if LastIndexOf(before, c).Some? {
      TakeWithin(before, uri, LastIndexOf(before, c).value);
      TakeWithin(before + uri, after, LastIndexOf(before, c).value);
    }
  }

  /** Whether two references agree up to their last `#` does not depend on the roots. */
  lemma CutAgrees(r1: seq<Root>, r2: seq<Root>, t: Template, source: Template)
    requires Admissible(r1) && Admissible(r2) && |r1| == |r2|
    requires WellPlaced(|r1|, t) && WellPlaced(|r1|, source)
    ensures RightPartition(Write(r1, t), '#').before == Write(r1, source)
      <==> RightPartition(Write(r2, t), '#').before == Write(r2, source)
  {
    CutWritten(r1, t);
    CutWritten(r2, t);
    CutPlaced(|r1|, t);
    if Write(r1, Cut(t)) == Write(r1, source) { SameTemplate(r1, Cut(t), source); }
    if Write(r2, Cut(t)) == Write(r2, source) { SameTemplate(r2, Cut(t), source); }
  }

  // ---- package URLs ----

  lemma {:induction false} FirstIndex(x: string, c: char, y: string)
    requires c !in x
    ensures IndexOf(x + ([c] + y), c) == Some(|x|)
  {
    if x == [] {
      assert x + ([c] + y) == [c] + y;
    } else {
      assert (x + ([c] + y))[1..] == x[1..] + ([c] + y);
      FirstIndex(x[1..], c, y);
    }
  }

  /** Cutting what was joined at a separator that the first part does not have. */
  lemma PartitionIs(x: string, c: char, found: bool, y: string)
    requires c !in x && (!found ==> y == "")
    ensures Partition(x + (if found then [c] + y else ""), c) == Parts(x, found, y)
  {
    if found {
      FirstIndex(x, c, y);
      var s := x + ([c] + y);
      assert s[..|x|] == x && s[|x| + 1..] == y;
    } else {
      assert x + "" == x;
    }
  }

  lemma PartitionJoins(s: string, c: char)
    ensures var p := Partition(s, c);
            c !in p.before && s == p.before + (if p.found then [c] + p.after else "") && (!p.found ==> p.after == "")
  {
  }

  function JoinPurl(name: string, qualifiers: string, found: bool, subpath: string): string {
    name + (['?'] + qualifiers) + if found then ['#'] + subpath else ""
  }

  lemma NoHash(name: string, qualifiers: string)
    requires '#' !in name && '#' !in qualifiers
    ensures '#' !in name + (['?'] + qualifiers)
  {
  }

  /** A package URL put together from its parts comes apart into them again. */
  lemma PurlParts(name: string, qualifiers: string, found: bool, subpath: string)
    requires '?' !in name && '#' !in name && '#' !in qualifiers && (!found ==> subpath == "")
    ensures CanonicalPurl(JoinPurl(name, qualifiers, found, subpath))
      == (if found then name + "#" + subpath else name, true, qualifiers)
  {
    NoHash(name, qualifiers);
    PartitionIs(name + (['?'] + qualifiers), '#', found, subpath);
    PartitionIs(name, '?', true, qualifiers);
    hide Partition;
  }

  lemma PurlShape(purl: string) returns (name: string, qualifiers: string, found: bool, subpath: string)
    requires CanonicalPurl(purl).1
    ensures '?' !in name && '#' !in name && '#' !in qualifiers && (!found ==> subpath == "")
    ensures purl == JoinPurl(name, qualifiers, found, subpath)
    ensures CanonicalPurl(purl) == (if found then name + "#" + subpath else name, true, qualifiers)
  {
    var outer := Partition(purl, '#');
    var inner := Partition(outer.before, '?');
    PartitionJoins(purl, '#');
    PartitionJoins(outer.before, '?');
    hide Partition;
    name, qualifiers, found, subpath := inner.before, inner.after, outer.found, outer.after;
    PartsWithout(name, ['?'] + qualifiers, '#');
    PartsWithout(['?'], qualifiers, '#');
  }

  lemma PartsWithout(x: string, y: string, c: char)
    requires c !in x + y
    ensures c !in x && c !in y
  {
    assert forall k | 0 <= k < |x| :: (x + y)[k] == x[k];
    assert forall k | 0 <= k < |y| :: (x + y)[|x| + k] == y[k];
  }

  lemma PrefixBefore(p: string, x: string, y: string)
    requires y != [] && y[0] !in p && p <= x + y
    ensures p <= x
  {
    assert (x + y)[|x|] == y[0];
    assert forall k | 0 <= k < |p| :: p[k] in p && p[k] == (x + y)[k];
  }

  // ---- one local component ----

  const CARGO := "pkg:cargo/"
  const QUERY := "?download_url="

  lemma QueryHasNone()
    ensures FirstAt(QUERY).None?
  {
    hide FirstAt;
    ShortTextHasNone(QUERY);
  }

  /** No `f` seven places before a slash, no local URI. */
  lemma {:induction false} ShortTextHasNone(s: string)
    requires forall i | 0 <= i < |s| - 7 :: !(s[i] == 'f' && s[i + 7] == '/')
    ensures FirstAt(s).None?
  {
    if s != [] {
      assert SCHEME[0] == 'f' && SCHEME[7] == '/';
      ShortTextHasNone(s[1..]);
    }
  }

  function Expected(root: Root, path: string): string {
    "download_url=" + root.uri + "/" + path
  }

  const AT_ROOT := "download_url=file://."

  lemma NotInScheme()
    ensures '?' !in SCHEME && '#' !in SCHEME
    ensures QUERY != [] && QUERY[0] == '?'
  {
  }

  lemma QualifiedWritten(roots: seq<Root>, i: nat, path: string, name: string, found: bool, subpath: string)
    requires i < |roots|
    ensures Write(roots, Rooted(name + QUERY, i, "/" + path + if found then ['#'] + subpath else ""))
         == JoinPurl(name, Expected(roots[i], path), found, subpath)
  {
    var tail := if found then ['#'] + subpath else "";
    assert ['?'] + Expected(roots[i], path) == QUERY + roots[i].uri + ("/" + path);
    assert name + (QUERY + roots[i].uri + ("/" + path)) + tail == (name + QUERY) + roots[i].uri + ("/" + path + tail);
  }

  /** A package URL whose qualifiers point below a root is written with that root just there. */
  lemma QualifiedTemplate(
    roots: seq<Root>, t: Template, i: nat, path: string, name: string, found: bool, subpath: string)
    requires Admissible(roots) && i < |roots| && WellPlaced(|roots|, t) && FirstAt(name).None?
    requires Write(roots, t) == JoinPurl(name, Expected(roots[i], path), found, subpath)
    ensures t == Rooted(name + QUERY, i, "/" + path + if found then ['#'] + subpath else "")
  {
    QueryHasNone();
    NotInScheme();
    hide FirstAt, ValidRoots, LocalUris, QUERY, SCHEME, Write, JoinPurl, Expected;
    NoneInJoin(name, QUERY);
    QualifiedWritten(roots, i, path, name, found, subpath);
    SameTemplate(roots, t, Rooted(name + QUERY, i, "/" + path + if found then ['#'] + subpath else ""));
  }

  lemma AtRootHasNone(name: string, found: bool, subpath: string)
    requires FirstAt(name).None? && (found ==> FirstAt(['#'] + subpath).None?)
    ensures FirstAt(JoinPurl(name, AT_ROOT, found, subpath)).None?
  {
    AtRootQuery();
    NotInScheme();
    hide *;
    JoinHasNone(name, ['?'] + AT_ROOT, found, ['#'] + subpath);
    JoinPurlParts(name, AT_ROOT, found, subpath);
  }

  lemma AtRootQuery()
    ensures FirstAt(['?'] + AT_ROOT).None?
  {
    hide FirstAt;
    ShortTextHasNone(['?'] + AT_ROOT);
  }

  lemma JoinPurlParts(name: string, qualifiers: string, found: bool, subpath: string)
    ensures JoinPurl(name, qualifiers, found, subpath) ==
      if found then name + (['?'] + qualifiers) + (['#'] + subpath) else name + (['?'] + qualifiers)
  {
    var head := name + (['?'] + qualifiers);
    assert head + "" == head;
  }

  lemma JoinHasNone(x: string, y: string, found: bool, z: string)
    requires FirstAt(x).None? && FirstAt(y).None? && y != [] && y[0] !in SCHEME
    requires z != [] && z[0] !in SCHEME && (found ==> FirstAt(z).None?)
    ensures FirstAt(if found then x + y + z else x + y).None?
  {
    hide *;
    NoneInJoin(x, y);
    if found { NoneInJoin(x + y, z); }
  }

  lemma CargoKept(name: string, a: string, b: string, found: bool, subpath: string)
    requires CARGO <= JoinPurl(name, a, found, subpath)
    ensures CARGO <= JoinPurl(name, b, found, subpath)
  {
    var tail := if found then ['#'] + subpath else "";
    assert JoinPurl(name, a, found, subpath) == name + ((['?'] + a) + tail);
    PrefixBefore(CARGO, name, (['?'] + a) + tail);
    assert JoinPurl(name, b, found, subpath)[..10] == name[..10];
  }

  lemma CanonicalParts(name: string, found: bool, subpath: string)
    requires FirstAt(if found then name + "#" + subpath else name).None?
    ensures FirstAt(name).None? && (found ==> FirstAt(['#'] + subpath).None?)
  {
    if found {
      var c := name + "#" + subpath;
      NoneInPrefix(c, |name|);
      NoneInSuffix(c, |name|);
      assert c[..|name|] == name && c[|name|..] == ['#'] + subpath;
    }
  }

  /** What a package URL says does not depend on where its root is. */
  lemma PurlRelocates(r1: seq<Root>, r2: seq<Root>, t: Template, i: nat, path: string)
    requires Admissible(r1) && Admissible(r2) && |r1| == |r2| && i < |r1| && WellPlaced(|r1|, t)
    requires CARGO <= Write(r1, t)
    requires var (canonical, qualified, qualifiers) := CanonicalPurl(Write(r1, t));
             qualified && FirstAt(canonical).None? && (qualifiers == Expected(r1[i], path) || qualifiers == AT_ROOT)
    ensures CARGO <= Write(r2, t)
    ensures var (canonical, qualified, qualifiers) := CanonicalPurl(Write(r2, t));
            && canonical == CanonicalPurl(Write(r1, t)).0 && qualified
            && (CanonicalPurl(Write(r1, t)).2 == Expected(r1[i], path) ==> qualifiers == Expected(r2[i], path))
            && (CanonicalPurl(Write(r1, t)).2 == AT_ROOT ==> qualifiers == AT_ROOT)
  {
    var name, qualifiers, found, subpath := PurlShape(Write(r1, t));
    CanonicalParts(name, found, subpath);
    hide CanonicalPurl, FirstAt, ValidRoots;
    if qualifiers == Expected(r1[i], path) {
      QualifiedTemplate(r1, t, i, path, name, found, subpath);
      QualifiedWritten(r2, i, path, name, found, subpath);
      ExpectedNoHash(r1, r2, i, path);
      CargoKept(name, qualifiers, Expected(r2[i], path), found, subpath);
      PurlParts(name, Expected(r2[i], path), found, subpath);
      AtRootDiffers(r1, i, path);
    } else {
      AtRootHasNone(name, found, subpath);
      WrittenFirst(r1, t);
    }
  }

  lemma ExpectedNoHash(r1: seq<Root>, r2: seq<Root>, i: nat, path: string)
    requires LocalUris(r2) && i < |r1| && i < |r2| && '#' !in Expected(r1[i], path)
    ensures '#' !in Expected(r2[i], path)
  {
    PartsWithout("download_url=" + r1[i].uri + "/", path, '#');
    assert r2[i] in r2;
  }

  lemma AtRootDiffers(roots: seq<Root>, i: nat, path: string)
    requires LocalUris(roots) && i < |roots|
    ensures Expected(roots[i], path) != AT_ROOT
  {
    assert roots[i] in roots;
    var e := Expected(roots[i], path);
    assert e[20] == roots[i].uri[7] == SCHEME[7];
    assert AT_ROOT[20] == '.';
  }

  /** The same labels, in the same order, at places of their own. */
  predicate SameLabels(r1: seq<Root>, r2: seq<Root>) {
    |r1| == |r2| && forall i | 0 <= i < |r1| :: r1[i].name == r2[i].name
  }

  lemma ReferenceTail(roots: seq<Root>, t: Template)
    requires LocalReference(t) && t.root < |roots| && t.after[0] == '/'
    ensures var p := Prefix(roots[t.root]);
            p <= Write(roots, t) && Write(roots, t)[|p|..] == t.after[1..]
  {
    var p, w := Prefix(roots[t.root]), Write(roots, t);
    assert w == p + t.after[1..];
  }

  /** Everything a claim on a reference with the given tail depends on. */
  ghost predicate Claimable(root: Root, atSource: bool, tail: string, purl: string) {
    var source := RightPartition(tail, '#');
    && source.found && ValidSourcePath(source.before) && CARGO <= purl
    && CanonicalPurl(purl).1
    && (CanonicalPurl(purl).2 == Expected(root, source.before) || (atSource && CanonicalPurl(purl).2 == AT_ROOT))
  }

  lemma ClaimIff(root: Root, metadataSource: string, bomRef: string, tail: string, purl: string)
    requires Prefix(root) <= bomRef && bomRef[|Prefix(root)|..] == tail
    ensures var l := Claim(root, metadataSource, bomRef, Some(Str(purl)));
            && (l.Ok? <==> Claimable(root, RightPartition(bomRef, '#').before == metadataSource, tail, purl))
            && (l.Ok? ==>
                  l.value == Local(bomRef, purl, CanonicalPurl(purl).0,
                    PlaceOf(root, RightPartition(tail, '#').before)))
  {
    hide RightPartition, ValidSourcePath, CanonicalPurl, Prefix;
    assert CARGO == "pkg:cargo/" && AT_ROOT == "download_url=file://.";
  }

  lemma ClaimRelocates(r1: seq<Root>, r2: seq<Root>, source: Template, t: Template, p: Template)
    requires Admissible(r1) && Admissible(r2) && SameLabels(r1, r2)
    requires WellPlaced(|r1|, source) && WellPlaced(|r1|, t) && WellPlaced(|r1|, p) && LocalReference(t)
    requires var l := Claim(r1[t.root], Write(r1, source), Write(r1, t), Some(Str(Write(r1, p))));
             l.Ok? && FirstAt(l.value.canonical).None?
    ensures var l := Claim(r1[t.root], Write(r1, source), Write(r1, t), Some(Str(Write(r1, p)))).value;
            Claim(r2[t.root], Write(r2, source), Write(r2, t), Some(Str(Write(r2, p)))) ==
            Ok(Local(Write(r2, t), Write(r2, p), l.canonical, l.sourcePath))
  {
    var tail := t.after[1..];
    ReferenceTail(r1, t);
    ReferenceTail(r2, t);
    CutAgrees(r1, r2, t, source);
    hide FirstAt, ValidRoots, LocalUris, Write, RightPartition, CanonicalPurl, ValidSourcePath, Claim, Prefix, Expected;
    ClaimIff(r1[t.root], Write(r1, source), Write(r1, t), tail, Write(r1, p));
    ClaimIff(r2[t.root], Write(r2, source), Write(r2, t), tail, Write(r2, p));
    PurlRelocates(r1, r2, p, t.root, RightPartition(tail, '#').before);
  }

  function Written(roots: seq<Root>): Template -> string {
    (t: Template) => Write(roots, t)
  }

  /** The texts a component is recognised by are well placed. */
  predicate ComponentPlaced(n: nat, c: Json<Template>) {
    (match Get(c, "bom-ref") case Some(Str(t)) => WellPlaced(n, t) case _ => true)
    && (match Get(c, "purl") case Some(Str(t)) => WellPlaced(n, t) case _ => true)
  }

  /** Two claims on one component, read off the same two templates. */
  ghost predicate SameLocal(r1: seq<Root>, r2: seq<Root>, t: Template, p: Template, l1: Local, l2: Local) {
    && WellPlaced(|r1|, t) && WellPlaced(|r1|, p)
    && l1.bomRef == Write(r1, t) && l2.bomRef == Write(r2, t)
    && l1.purl == Write(r1, p) && l2.purl == Write(r2, p)
    && l1.canonical == l2.canonical && l1.sourcePath == l2.sourcePath
  }

  lemma LocalRelocates(r1: seq<Root>, r2: seq<Root>, source: Template, c: Json<Template>)
    requires Admissible(r1) && Admissible(r2) && SameLabels(r1, r2)
    requires WellPlaced(|r1|, source) && ComponentPlaced(|r1|, c)
    requires var x := LocalComponent(r1, Write(r1, source), MapStrings(Written(r1), c));
             x.Ok? && (x.value.Some? ==> FirstAt(x.value.value.canonical).None?)
    ensures var x1 := LocalComponent(r1, Write(r1, source), MapStrings(Written(r1), c));
            var x2 := LocalComponent(r2, Write(r2, source), MapStrings(Written(r2), c));
            && x2.Ok? && (x2.value.None? <==> x1.value.None?)
            && (x1.value.Some? ==> exists t, p :: SameLocal(r1, r2, t, p, x1.value.value, x2.value.value))
  {
    TextMapped(Written(r1), c, "bom-ref");
    TextMapped(Written(r2), c, "bom-ref");
    hide MapStrings, Get, FirstAt, ValidRoots, LocalUris, Claim, Written;
    match Get(c, "bom-ref")
    case Some(Str(t)) =>
      RootOfWritten(r1, t, 0);
      RootOfWritten(r2, t, 0);
      assert r1[0..] == r1 && r2[0..] == r2;
      WrittenIs(r1, t);
      WrittenIs(r2, t);
      hide Write, RootOf;
      if LocalReference(t) {
        var p := ClaimedTogether(r1, r2, source, c, t);
        var x1 := LocalComponent(r1, Write(r1, source), MapStrings(Written(r1), c));
        var x2 := LocalComponent(r2, Write(r2, source), MapStrings(Written(r2), c));
        assert SameLocal(r1, r2, t, p, x1.value.value, x2.value.value);
      }
    case _ =>
  }

  lemma WrittenIs(roots: seq<Root>, t: Template)
    ensures Written(roots)(t) == Write(roots, t)
  {
  }

  lemma TextMapped<S, T>(f: S -> T, c: Json<S>, key: string)
    ensures var (a, b) := (Get(c, key), Get(MapStrings(f, c), key));
            && ((a.Some? && a.value.Str?) <==> (b.Some? && b.value.Str?))
            && (a.Some? && a.value.Str? ==> b.value.text == f(a.value.text))
  {
    GetMapped(f, c, key);
  }

  lemma PurlTemplate(r1: seq<Root>, r2: seq<Root>, n: nat, c: Json<Template>) returns (p: Template)
    requires ComponentPlaced(n, c)
    requires Get(MapStrings(Written(r1), c), "purl").Some? && Get(MapStrings(Written(r1), c), "purl").value.Str?
    ensures WellPlaced(n, p)
    ensures Get(MapStrings(Written(r1), c), "purl") == Some(Str(Write(r1, p)))
    ensures Get(MapStrings(Written(r2), c), "purl") == Some(Str(Write(r2, p)))
  {
    TextMapped(Written(r1), c, "purl");
    TextMapped(Written(r2), c, "purl");
    hide MapStrings, Written, Write, WellPlaced, Get;
    p := Get(c, "purl").value.text;
    WrittenIs(r1, p);
    WrittenIs(r2, p);
  }

  /** An accepted claim of a component at the one place is accepted at the other. */
  lemma ClaimedTogether(
    r1: seq<Root>, r2: seq<Root>, source: Template, c: Json<Template>, t: Template) returns (p: Template)
    requires Admissible(r1) && Admissible(r2) && SameLabels(r1, r2)
    requires WellPlaced(|r1|, source) && ComponentPlaced(|r1|, c) && WellPlaced(|r1|, t) && LocalReference(t)
    requires var l := Claim(r1[t.root], Write(r1, source), Write(r1, t), Get(MapStrings(Written(r1), c), "purl"));
             l.Ok? && FirstAt(l.value.canonical).None?
    ensures var l1 := Claim(r1[t.root], Write(r1, source), Write(r1, t), Get(MapStrings(Written(r1), c), "purl"));
            var l2 := Claim(r2[t.root], Write(r2, source), Write(r2, t), Get(MapStrings(Written(r2), c), "purl"));
            l2.Ok? && SameLocal(r1, r2, t, p, l1.value, l2.value)
  {
    ClaimNames(r1[t.root], Write(r1, source), Write(r1, t), Get(MapStrings(Written(r1), c), "purl"));
    p := PurlTemplate(r1, r2, |r1|, c);
    hide *;
    assert t.root < |r1| && |r1| == |r2| by { LabelsAndRoot(r1, r2, t); }
    ClaimRelocates(r1, r2, source, t, p);
    BothLocals(r1, r2, source, t, p);
  }

  lemma LabelsAndRoot(r1: seq<Root>, r2: seq<Root>, t: Template)
    requires SameLabels(r1, r2) && WellPlaced(|r1|, t) && LocalReference(t)
    ensures t.Rooted? && t.root < |r1| && |r1| == |r2|
  {
  }

  lemma BothLocals(r1: seq<Root>, r2: seq<Root>, source: Template, t: Template, p: Template)
    requires |r1| == |r2| && t.Rooted? && t.root < |r1| && WellPlaced(|r1|, t) && WellPlaced(|r1|, p)
    requires var l := Claim(r1[t.root], Write(r1, source), Write(r1, t), Some(Str(Write(r1, p))));
             l.Ok? && l.value.bomRef == Write(r1, t) && l.value.purl == Write(r1, p)
    requires var l := Claim(r1[t.root], Write(r1, source), Write(r1, t), Some(Str(Write(r1, p)))).value;
             Claim(r2[t.root], Write(r2, source), Write(r2, t), Some(Str(Write(r2, p)))) ==
             Ok(Local(Write(r2, t), Write(r2, p), l.canonical, l.sourcePath))
    ensures var l1 := Claim(r1[t.root], Write(r1, source), Write(r1, t), Some(Str(Write(r1, p))));
            var l2 := Claim(r2[t.root], Write(r2, source), Write(r2, t), Some(Str(Write(r2, p))));
            SameLocal(r1, r2, t, p, l1.value, l2.value)
  {
    hide Claim, Write, WellPlaced;
  }

  lemma ClaimNames(root: Root, metadataSource: string, bomRef: string, purl: Option<Document>)
    requires Claim(root, metadataSource, bomRef, purl).Ok?
    ensures var l := Claim(root, metadataSource, bomRef, purl).value;
            l.bomRef == bomRef && purl == Some(Str(l.purl))
  {
  }
}
