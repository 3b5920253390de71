/** The digest that identifies one build of the indexer. */
module IndexerIdentity {
  import opened Bytes
  import opened PathComponents
  import Sorting
  import Sets

  /** A build feature and its value, or a source file and its contents. */
  datatype Entry = Entry(key: Blob, value: Blob)

  const IDENTITY_DOMAIN: seq<byte> := Ascii("h00/indexer-identity/v1") + [0]

  function EntryBytes(e: Entry): seq<byte> {
    FieldLE(e.key) + FieldLE(e.value)
  }

  function EntriesBytes(es: seq<Entry>): seq<byte> {
    if es == [] then [] else EntryBytes(es[0]) + EntriesBytes(es[1..])
  }

  // ---- the two orders ----

  predicate FeatureLeq(a: Entry, b: Entry) {
    if a.key != b.key then BytesLeq(a.key, b.key) else BytesLeq(a.value, b.value)
  }

  const FEATURE_ORDER: (Entry, Entry) -> bool := (a: Entry, b: Entry) => FeatureLeq(a, b)

  /** Features stand in the byte order of their keys, then of their values. */
  lemma FeaturesInOrder(features: seq<Entry>, i: nat, j: nat)
    requires i < j < |SortedFeatures(features)|
    ensures var (a, b) := (SortedFeatures(features)[i], SortedFeatures(features)[j]);
            && (a.key == b.key || Precedes(a.key, b.key))
            && (a.key == b.key ==> a.value == b.value || Precedes(a.value, b.value))
  {
    hide Sorting.Sort, Precedes, BytesLeq;
    FeatureOrderTotal();
    Sorting.SortSorts(FEATURE_ORDER, features);
    var a, b := SortedFeatures(features)[i], SortedFeatures(features)[j];
    assert FEATURE_ORDER(a, b);
    BytesLeqIff(a.key, b.key);
    BytesLeqIff(a.value, b.value);
  }

  /** Files stand in the order of their paths. */
  lemma FilesInOrder(files: seq<Entry>, i: nat, j: nat)
    requires i < j < |SortedFiles(files)|
    ensures var (a, b) := (Components(SortedFiles(files)[i].key), Components(SortedFiles(files)[j].key));
            a == b || PathPrecedes(a, b)
  {
    hide Sorting.Sort, PathPrecedes, PathLeq, Components;
    FileOrderPreorder();
    Sorting.SortSorts(FILE_ORDER, files);
    var a, b := SortedFiles(files)[i], SortedFiles(files)[j];
    assert FILE_ORDER(a, b);
    PathLeqIff(Components(a.key), Components(b.key));
  }

  /** Files are ordered by path alone, component by component; files of equal paths keep the
      order they came in. */
  const FILE_ORDER: (Entry, Entry) -> bool := (a: Entry, b: Entry) => PathLeq(Components(a.key), Components(b.key))

  lemma FeatureOrderTotal()
    ensures Sorting.TotalOrder(FEATURE_ORDER)
  {
    forall a: Entry, b: Entry, c: Entry
      ensures FEATURE_ORDER(a, b) || FEATURE_ORDER(b, a)
      ensures FEATURE_ORDER(a, b) && FEATURE_ORDER(b, a) ==> a == b
      ensures FEATURE_ORDER(a, b) && FEATURE_ORDER(b, c) ==> FEATURE_ORDER(a, c)
    {
      BytesLeqLaws(a.key, b.key, c.key);
      BytesLeqLaws(a.value, b.value, c.value);
      hide BytesLeq;
    }
  }

  lemma FileOrderPreorder()
    ensures Sorting.TotalPreorder(FILE_ORDER)
  {
    var leq := FILE_ORDER;
    hide PathLeq, Components;
    forall a: Entry, b: Entry ensures leq(a, b) || leq(b, a) {
      PathLeqTotal(Components(a.key), Components(b.key));
    }
    forall a: Entry, b: Entry, c: Entry | leq(a, b) && leq(b, c) ensures leq(a, c) {
      PathLeqTransitive(Components(a.key), Components(b.key), Components(c.key));
    }
  }

  // ---- the identity ----

  function SortedFeatures(features: seq<Entry>): seq<Entry> { Sorting.Sort(FEATURE_ORDER, features) }

  function SortedFiles(files: seq<Entry>): seq<Entry> { Sorting.Sort(FILE_ORDER, files) }

  function Preimage(target: Blob, features: seq<Entry>, files: seq<Entry>): seq<byte> {
    IDENTITY_DOMAIN
      + (EntryBytes(Entry(Ascii("TARGET"), target)) + EntriesBytes(SortedFeatures(features) + SortedFiles(files)))
  }

  lemma {:induction false} EntriesAppend(a: seq<Entry>, b: seq<Entry>)
    ensures EntriesBytes(a + b) == EntriesBytes(a) + EntriesBytes(b)
  {
    if a == [] {
      assert a + b == b;
    } else {
      assert (a + b)[1..] == a[1..] + b;
      EntriesAppend(a[1..], b);
    }
  }

  lemma EntriesSnoc(es: seq<Entry>, i: nat)
    requires i < |es|
    ensures EntriesBytes(es[..i + 1]) == EntriesBytes(es[..i]) + EntryBytes(es[i])
  {
    assert es[..i + 1] == es[..i] + [es[i]];
    EntriesAppend(es[..i], [es[i]]);
    assert [es[i]][1..] == [];
  }

  /** Sort both populations and feed them to the hasher, target first. */
  method Calculate(
    sha256: seq<byte> -> seq<byte>, target: Blob, features: seq<Entry>, files: seq<Entry>) returns (digest: seq<byte>)
    ensures digest == sha256(Preimage(target, features, files))
  {
    hide EntryBytes, EntriesBytes, Sorting.Sort;
    var hasher := IDENTITY_DOMAIN + EntryBytes(Entry(Ascii("TARGET"), target));
    ghost var header := hasher;
    var sortedFeatures := Sorting.Sort(FEATURE_ORDER, features);
    assert EntriesBytes(sortedFeatures[..0]) == [] by { NoEntries(sortedFeatures); }
    for i := 0 to |sortedFeatures|
      invariant hasher == header + EntriesBytes(sortedFeatures[..i])
    {
      EntriesSnoc(sortedFeatures, i);
      hasher := hasher + EntryBytes(sortedFeatures[i]);
    }
    assert sortedFeatures[..|sortedFeatures|] == sortedFeatures;
    ghost var withFeatures := hasher;
    var sortedFiles := Sorting.Sort(FILE_ORDER, files);
    assert EntriesBytes(sortedFiles[..0]) == [] by { NoEntries(sortedFiles); }
    for i := 0 to |sortedFiles|
      invariant hasher == withFeatures + EntriesBytes(sortedFiles[..i])
    {
      EntriesSnoc(sortedFiles, i);
      hasher := hasher + EntryBytes(sortedFiles[i]);
    }
    assert sortedFiles[..|sortedFiles|] == sortedFiles;
    EntriesAppend(sortedFeatures, sortedFiles);
    assert hasher == IDENTITY_DOMAIN
      + (EntryBytes(Entry(Ascii("TARGET"), target)) + (EntriesBytes(sortedFeatures) + EntriesBytes(sortedFiles)));
    digest := sha256(hasher);
  }

  lemma NoEntries(es: seq<Entry>)
    ensures EntriesBytes(es[..0]) == []
  {
  }

  // ---- what the identity separates ----

  lemma EntryCancel(e: Entry, x: seq<byte>, f: Entry, y: seq<byte>)
    requires EntryBytes(e) + x == EntryBytes(f) + y
    ensures e == f && x == y
  {
    hide FieldLE;
    assert EntryBytes(e) + x == FieldLE(e.key) + (FieldLE(e.value) + x);
    assert EntryBytes(f) + y == FieldLE(f.key) + (FieldLE(f.value) + y);
    FieldLECancel(e.key, FieldLE(e.value) + x, f.key, FieldLE(f.value) + y);
    FieldLECancel(e.value, x, f.value, y);
  }

  lemma {:induction false} EntriesInjective(es: seq<Entry>, fs: seq<Entry>)
    requires EntriesBytes(es) == EntriesBytes(fs)
    ensures es == fs
  {
    hide EntryBytes;
    if es != [] && fs != [] {
      EntryCancel(es[0], EntriesBytes(es[1..]), fs[0], EntriesBytes(fs[1..]));
      EntriesInjective(es[1..], fs[1..]);
      assert es == [es[0]] + es[1..] && fs == [fs[0]] + fs[1..];
    } else if es != [] {
      EntryNotEmpty(es[0]);
    } else if fs != [] {
      EntryNotEmpty(fs[0]);
    }
  }

  lemma EntryNotEmpty(e: Entry)
    ensures EntryBytes(e) != []
  {
  }

  /** Exactly what the digest tells apart: the target, and features and files taken
      together as one list. */
  lemma IdentityIff(
    target: Blob, features: seq<Entry>, files: seq<Entry>, target': Blob, features': seq<Entry>, files': seq<Entry>)
    ensures Preimage(target, features, files) == Preimage(target', features', files') <==>
      target == target' &&
      SortedFeatures(features) + SortedFiles(files) == SortedFeatures(features') + SortedFiles(files')
  {
    hide EntryBytes, EntriesBytes;
    if Preimage(target, features, files) == Preimage(target', features', files') {
      var all, all' := SortedFeatures(features) + SortedFiles(files), SortedFeatures(features') + SortedFiles(files');
      var t, t' := Entry(Ascii("TARGET"), target), Entry(Ascii("TARGET"), target');
      Split(IDENTITY_DOMAIN, EntryBytes(t) + EntriesBytes(all), IDENTITY_DOMAIN, EntryBytes(t') + EntriesBytes(all'));
      EntryCancel(t, EntriesBytes(all), t', EntriesBytes(all'));
      EntriesInjective(all, all');
    }
  }

  const FEATURE_PREFIX: seq<byte> := Ascii("CARGO_FEATURE_")

  predicate IsFeatureKey(key: seq<byte>) {
    FEATURE_PREFIX <= key
  }

  /** Features are named by Cargo's environment prefix and files are not. */
  ghost predicate Separable(features: seq<Entry>, files: seq<Entry>) {
    && (forall e | e in features :: IsFeatureKey(e.key))
    && (forall e | e in files :: !IsFeatureKey(e.key))
  }

  /** With the two populations named apart, the digest separates each of them: features
      as a collection and files in path order. */
  lemma SeparableIdentityIff(
    target: Blob, features: seq<Entry>, files: seq<Entry>, target': Blob, features': seq<Entry>, files': seq<Entry>)
    requires Separable(features, files) && Separable(features', files')
    ensures Preimage(target, features, files) == Preimage(target', features', files') <==>
      && target == target'
      && multiset(features) == multiset(features')
      && SortedFiles(files) == SortedFiles(files')
  {
    IdentityIff(target, features, files, target', features', files');
    FeatureOrderTotal();
    hide Preimage;
    var f, f', s, s' := SortedFeatures(features), SortedFeatures(features'), SortedFiles(files), SortedFiles(files');
    Sorting.SameElements(f, features);
    Sorting.SameElements(f', features');
    Sorting.SameElements(s, files);
    Sorting.SameElements(s', files');
    if f + s == f' + s' {
      BoundaryEqual(f, s, f', s');
    }
    if multiset(features) == multiset(features') {
      Sorting.SortPermutation(FEATURE_ORDER, features, features');
    }
  }

  lemma BoundaryEqual(f: seq<Entry>, s: seq<Entry>, f': seq<Entry>, s': seq<Entry>)
    requires f + s == f' + s'
    requires Separable(f, s) && Separable(f', s')
    ensures f == f' && s == s'
  {
    BoundaryUnique(f + s, |f|, |f'|);
    Split(f, s, f', s');
  }

  lemma BoundaryUnique(all: seq<Entry>, n: nat, m: nat)
    requires FeaturesUpTo(all, n) && FeaturesUpTo(all, m)
    ensures n == m
  {
    var least := if n < m then n else m;
    assert least < |all| ==> (IsFeatureKey(all[least].key) <==> least < n);
  }

  ghost predicate FeaturesUpTo(all: seq<Entry>, n: nat) {
    n <= |all| && forall i | 0 <= i < |all| :: IsFeatureKey(all[i].key) <==> i < n
  }

  /** Without that convention a feature and a file are interchangeable. */
  lemma UnseparatedCollision(target: Blob, e: Entry)
    ensures Preimage(target, [e], []) == Preimage(target, [], [e])
  {
    assert [e] + [] == [] + [e];
    assert [e][1..] == [];
    IdentityIff(target, [e], [], target, [], [e]);
  }

  // ---- what the identity ignores ----

  /** The files of one path, however it is spelled. */
  function WithPath(es: seq<Entry>, path: seq<Component>): seq<Entry> {
    if es == [] then []
    else (if Components(es[0].key) == path then [es[0]] else []) + WithPath(es[1..], path)
  }

  /** Sorting files is stable: files of one path keep their relative order. */
  lemma {:induction false} SortStable(files: seq<Entry>, path: seq<Component>)
    ensures WithPath(SortedFiles(files), path) == WithPath(files, path)
  {
    if files != [] {
      SortStable(files[1..], path);
      InsertStable(files[0], SortedFiles(files[1..]), path);
    }
  }

  lemma {:induction false} InsertStable(e: Entry, es: seq<Entry>, path: seq<Component>)
    ensures WithPath(Sorting.Insert(FILE_ORDER, e, es), path)
         == (if Components(e.key) == path then [e] else []) + WithPath(es, path)
  {
    hide PathLeq, Components, WithPath, Sorting.Insert;
    Sorting.InsertUnfolds(FILE_ORDER, e, es);
    if es == [] || FILE_ORDER(e, es[0]) {
      WithPathCons(e, es, path);
    } else {
      var first, others := es[0], es[1..];
      PathLeqTotal(Components(e.key), Components(first.key));
      hide FILE_ORDER;
      InsertStable(e, others, path);
      WithPathCons(first, Sorting.Insert(FILE_ORDER, e, others), path);
      WithPathCons(first, others, path);
      assert es == [first] + others;
    }
  }

  lemma WithPathCons(e: Entry, es: seq<Entry>, path: seq<Component>)
    ensures WithPath([e] + es, path) == (if Components(e.key) == path then [e] else []) + WithPath(es, path)
  {
    hide Components;
    assert ([e] + es)[1..] == es;
  }

  /** Files of one path are spelled alike and have the same contents. */
  ghost predicate Unambiguous(files: seq<Entry>) {
    forall e, f | e in files && f in files && Components(e.key) == Components(f.key) :: e == f
  }

  /** Reordering features never changes the identity. */
  lemma FeaturesReorder(target: Blob, features: seq<Entry>, features': seq<Entry>, files: seq<Entry>)
    requires multiset(features) == multiset(features')
    ensures Preimage(target, features, files) == Preimage(target, features', files)
  {
    FeatureOrderTotal();
    Sorting.SortPermutation(FEATURE_ORDER, features, features');
  }

  /** Reordering files changes nothing as long as no path has two spellings or contents. */
  lemma UnambiguousReorder(files: seq<Entry>, files': seq<Entry>)
    requires multiset(files) == multiset(files')
    requires Unambiguous(files)
    ensures SortedFiles(files) == SortedFiles(files')
  {
    FileOrderPreorder();
    forall a, b | a in files && b in files && FILE_ORDER(a, b) && FILE_ORDER(b, a) ensures a == b {
      PathLeqAntisymmetric(Components(a.key), Components(b.key));
    }
    hide PathLeq, Components;
    Sorting.SortPermutation(FILE_ORDER, files, files');
  }

  /** The identity is independent of file order exactly for unambiguous file lists: two
      spellings or two contents of one path make two orders of the same files tell apart. */
  lemma FileOrderIrrelevantIff(target: Blob, features: seq<Entry>, files: seq<Entry>)
    ensures Unambiguous(files) <==>
      forall files' | multiset(files') == multiset(files) ::
        Preimage(target, features, files') == Preimage(target, features, files)
  {
    if Unambiguous(files) {
      forall files' | multiset(files') == multiset(files)
        ensures Preimage(target, features, files') == Preimage(target, features, files)
      {
        UnambiguousReorder(files, files');
      }
    } else {
      var one, two := TellingOrders(target, features, files);
    }
  }

  lemma TellingOrders(target: Blob, features: seq<Entry>, files: seq<Entry>) returns (one: seq<Entry>, two: seq<Entry>)
    requires !Unambiguous(files)
    ensures multiset(one) == multiset(files) && multiset(two) == multiset(files)
    ensures Preimage(target, features, one) != Preimage(target, features, two)
  {
    hide Components;
    var e, f :| e in files && f in files && Components(e.key) == Components(f.key) && e != f;
    var others := WithoutPair(files, e, f);
    one, two := [e, f] + others, [f, e] + others;
    OrdersDiffer(e, f, others);
    hide Preimage, SortedFiles, SortedFeatures, Unambiguous;
    IdentityIff(target, features, one, target, features, two);
    SameHeadSplit(SortedFeatures(features), SortedFiles(one), SortedFiles(two));
  }

  lemma SameHeadSplit(head: seq<Entry>, x: seq<Entry>, y: seq<Entry>)
    ensures head + x == head + y ==> x == y
  {
    if head + x == head + y { Split(head, x, head, y); }
  }

  lemma OrdersDiffer(e: Entry, f: Entry, others: seq<Entry>)
    requires Components(e.key) == Components(f.key) && e != f
    ensures SortedFiles([e, f] + others) != SortedFiles([f, e] + others)
  {
    var path := Components(e.key);
    hide SortedFiles, Components;
    SortStable([e, f] + others, path);
    SortStable([f, e] + others, path);
    LeadingPair(e, f, others, path);
    LeadingPair(f, e, others, path);
    hide WithPath;
    assert ([e, f] + WithPath(others, path))[0] != ([f, e] + WithPath(others, path))[0];
  }

  /** So one file listed under two spellings of its path makes the order count, be it with the
      very same contents. */
  lemma TwoSpellingsTell(target: Blob, features: seq<Entry>, p: Blob, q: Blob, contents: Blob)
    requires p != [] && |p| + |q| + 2 < U64_LIMIT
    ensures var e, f := Entry(p + [SLASH] + q, contents), Entry(p + [SLASH] + ([SLASH] + q), contents);
            Preimage(target, features, [e, f]) != Preimage(target, features, [f, e])
  {
    SamePath(p, q);
    assert |p + [SLASH] + q| != |p + [SLASH] + ([SLASH] + q)|;
    hide Components, Preimage;
    OrderTells(target, features, Entry(p + [SLASH] + q, contents), Entry(p + [SLASH] + ([SLASH] + q), contents));
  }

  lemma OrderTells(target: Blob, features: seq<Entry>, e: Entry, f: Entry)
    requires Components(e.key) == Components(f.key) && e != f
    ensures Preimage(target, features, [e, f]) != Preimage(target, features, [f, e])
  {
    hide Components, Preimage, SortedFiles, SortedFeatures;
    OrdersDiffer(e, f, []);
    assert [e, f] + [] == [e, f] && [f, e] + [] == [f, e];
    IdentityIff(target, features, [e, f], target, features, [f, e]);
    SameHeadSplit(SortedFeatures(features), SortedFiles([e, f]), SortedFiles([f, e]));
  }

  lemma WithoutPair(files: seq<Entry>, e: Entry, f: Entry) returns (others: seq<Entry>)
    requires e in files && f in files && e != f
    ensures multiset([e, f] + others) == multiset(files)
    ensures multiset([f, e] + others) == multiset(files)
  {
    var all := multiset(files);
    assert e in all && f in all;
    assert multiset{f, e} == multiset{e, f};
    others := Listing(all - multiset{e, f});
    hide Listing;
    Sets.MinusPair(all, e, f);
    PairFirst(e, f, others);
    PairFirst(f, e, others);
  }

  lemma PairFirst(e: Entry, f: Entry, others: seq<Entry>)
    ensures multiset([e, f] + others) == multiset{e, f} + multiset(others)
  {
  }

  lemma LeadingPair(e: Entry, f: Entry, others: seq<Entry>, path: seq<Component>)
    requires Components(e.key) == Components(f.key) == path
    ensures WithPath([e, f] + others, path) == [e, f] + WithPath(others, path)
  {
    hide Components;
    var all := [e, f] + others;
    assert all[1..] == [f] + others && all[1..][1..] == others;
  }

  /** Some list of the elements of a collection. */
  ghost function Listing(m: multiset<Entry>): (r: seq<Entry>)
    ensures multiset(r) == m
    decreases |m|
  {
    if |m| == 0 then []
    else
      var x :| x in m;
      [x] + Listing(m - multiset{x})
  }
}
