/** Why the coalesced workspace inputs witness every original one, and exactly when. */
module WorkspaceWitness {
  import opened Wrappers
  import opened Bytes
  import opened WorkspaceInputs
  import Sorting

  // ---- an observation does not depend on what was spent before it ----

  /** What is spent from `b` to `after`, spent from `c` instead. */
  function Shift(after: Budget, b: Budget, c: Budget): Budget {
    Budget(c.entries + (after.entries - b.entries), c.bytes + (after.bytes - b.bytes))
  }

  lemma {:induction false} BudgetShift(fs: FileSystem, p: Path, b: Budget, c: Budget)
    requires Observe(fs, p, b).Ok? && c.entries <= b.entries && c.bytes <= b.bytes
    ensures var r, r' := Observe(fs, p, b), Observe(fs, p, c);
            r'.Ok? && r'.value.0 == r.value.0 && r'.value.1 == Shift(r.value.1, b, c)
    decreases MAX_ENTRIES - b.entries, 0
  {
    hide Sorting.Sort, NAME_ORDER;
    if fs(p).Directory? {
      var names := Sorting.Sort(NAME_ORDER, fs(p).listing);
      BudgetShiftAll(fs, p, names, b.(entries := b.entries + 1), c.(entries := c.entries + 1));
      hide ObserveAll;
    }
  }

  lemma {:induction false} BudgetShiftAll(fs: FileSystem, p: Path, names: seq<Name>, b: Budget, c: Budget)
    requires b.entries <= MAX_ENTRIES && c.entries <= b.entries && c.bytes <= b.bytes
    requires ObserveAll(fs, p, names, b).Ok?
    ensures var r, r' := ObserveAll(fs, p, names, b), ObserveAll(fs, p, names, c);
            r'.Ok? && r'.value.0 == r.value.0 && r'.value.1 == Shift(r.value.1, b, c)
    decreases MAX_ENTRIES - b.entries, |names| + 1
  {
    if names != [] {
      var first := Observe(fs, Child(p, names[0]), b).value;
      BudgetShift(fs, Child(p, names[0]), b, c);
      hide Observe;
      BudgetShiftAll(fs, p, names[1..], first.1, Observe(fs, Child(p, names[0]), c).value.1);
    }
  }

  const NOTHING := Budget(0, 0)

  // ---- looking below an observed path ----

  function Normals(names: seq<Name>): (p: Path)
    ensures |p| == |names|
  {
    seq(|names|, i requires 0 <= i < |names| => Normal(names[i]))
  }

  lemma Descend(p: Path, names: seq<Name>)
    requires names != []
    ensures p + Normals(names) == Child(p, names[0]) + Normals(names[1..])
  {
  }

  function Find(entries: seq<Named>, name: Name): Option<Tree> {
    if entries == [] then None
    else if entries[0].name == name then Some(entries[0].tree)
    else Find(entries[1..], name)
  }

  /** What a tree fixes of a path below its root: the tree there, that it cannot be reached
      because something on the way is no directory, or nothing. */
  datatype Sight = Seen(tree: Tree) | Blocked | Hidden

  function Below(t: Tree, names: seq<Name>): Sight
    decreases |names|
  {
    if names == [] then Seen(t)
    else
      match t
      case Absent => Seen(Absent)
      case Link(_) => Hidden
      case Plain(_) => Blocked
      case Folder(entries) =>
        match Find(entries, names[0])
        case None => Seen(Absent)
        case Some(child) => Below(child, names[1..])
  }

  lemma {:induction false} EachObserved(fs: FileSystem, p: Path, names: seq<Name>, b: Budget, name: Name)
    requires 0 <= b.entries <= MAX_ENTRIES && 0 <= b.bytes && ObserveAll(fs, p, names, b).Ok?
    ensures var found := Find(ObserveAll(fs, p, names, b).value.0, name);
            && (found.None? <==> name !in names)
            && (found.Some? ==> ObservedAs(fs, Child(p, name), found.value))
  {
    if names != [] {
      var first := Observe(fs, Child(p, names[0]), b).value;
      var entries := ObserveAll(fs, p, names, b).value.0;
      assert entries[1..] == ObserveAll(fs, p, names[1..], first.1).value.0;
      EachObserved(fs, p, names[1..], first.1, name);
      BudgetShift(fs, Child(p, names[0]), b, NOTHING);
    }
  }

  ghost predicate ObservedAs(fs: FileSystem, p: Path, t: Tree) {
    Observe(fs, p, NOTHING).Ok? && Observe(fs, p, NOTHING).value.0 == t
  }

  /** What observing a path on its own yields, as far as a tree above it has fixed it. */
  ghost predicate Agrees(fs: FileSystem, p: Path, s: Sight) {
    match s
    case Seen(t) => ObservedAs(fs, p, t)
    case Blocked => Observe(fs, p, NOTHING) == Err(Uninspectable)
    case Hidden => true
  }

  lemma {:induction false} MissingBelow(fs: FileSystem, p: Path, names: seq<Name>)
    requires Coherent(fs)
    decreases |names|
    ensures fs(p) == Missing ==> fs(p + Normals(names)) == Missing
    ensures fs(p) == NotDirectory ==> fs(p + Normals(names)) == NotDirectory
  {
    if names == [] {
      assert p + Normals(names) == p;
    } else {
      assert FollowsFrom(fs(p), names[0], fs(Child(p, names[0])));
      Descend(p, names);
      MissingBelow(fs, Child(p, names[0]), names[1..]);
    }
  }

  /** A recursive observation fixes what is observed of every path below its root, up to the
      first symlink on the way. */
  lemma {:induction false} ObservedBelow(fs: FileSystem, p: Path, t: Tree, names: seq<Name>)
    requires Coherent(fs) && ObservedAs(fs, p, t)
    ensures Agrees(fs, p + Normals(names), Below(t, names))
    decreases |names|
  {
    hide Coherent, ObservedAs, Agrees;
    if names == [] {
      SeenItself(fs, p, t);
    } else if fs(p).Directory? {
      FolderBelow(fs, p, t, names[0]);
      var found := Find(t.entries, names[0]);
      if found.Some? {
        Descend(p, names);
        ObservedBelow(fs, Child(p, names[0]), found.value, names[1..]);
      } else {
        AbsentBelow(fs, p, names);
      }
    } else {
      LeafBelow(fs, p, t, names);
    }
  }

  lemma SeenItself(fs: FileSystem, p: Path, t: Tree)
    requires ObservedAs(fs, p, t)
    ensures Agrees(fs, p + Normals([]), Below(t, []))
  {
    assert p + Normals([]) == p;
  }

  lemma AbsentBelow(fs: FileSystem, p: Path, names: seq<Name>)
    requires Coherent(fs) && names != [] && fs(Child(p, names[0])) == Missing
    ensures Agrees(fs, p + Normals(names), Seen(Absent))
  {
    MissingBelow(fs, Child(p, names[0]), names[1..]);
    Descend(p, names);
    MissingSeen(fs, p + Normals(names));
    hide Coherent, Observe, ObservedAs;
  }

  lemma MissingSeen(fs: FileSystem, p: Path)
    ensures fs(p) == Missing ==> ObservedAs(fs, p, Absent)
    ensures fs(p) == NotDirectory ==> Observe(fs, p, NOTHING) == Err(Uninspectable)
  {
    hide ObserveAll;
  }

  lemma LeafBelow(fs: FileSystem, p: Path, t: Tree, names: seq<Name>)
    requires Coherent(fs) && ObservedAs(fs, p, t) && names != [] && !fs(p).Directory?
    ensures Agrees(fs, p + Normals(names), Below(t, names))
  {
    CoherentAt(fs, p, names[0]);
    MissingBelow(fs, Child(p, names[0]), names[1..]);
    hide Coherent;
    Descend(p, names);
    MissingSeen(fs, p + Normals(names));
  }

  lemma CoherentAt(fs: FileSystem, p: Path, name: Name)
    requires Coherent(fs)
    ensures FollowsFrom(fs(p), name, fs(Child(p, name)))
  {
  }

  lemma FolderTree(fs: FileSystem, p: Path, t: Tree)
    requires ObservedAs(fs, p, t) && fs(p).Directory?
    ensures t.Folder?
    ensures var all := ObserveAll(fs, p, Sorting.Sort(NAME_ORDER, fs(p).listing), Budget(1, 0));
            all.Ok? && all.value.0 == t.entries
  {
    hide Sorting.Sort, NAME_ORDER, ObserveAll;
  }

  lemma ListedNames(listing: seq<Name>, name: Name)
    ensures name in Sorting.Sort(NAME_ORDER, listing) <==> name in listing
  {
    NameOrderTotal();
    Sorting.SortSorts(NAME_ORDER, listing);
  }

  lemma FolderBelow(fs: FileSystem, p: Path, t: Tree, name: Name)
    requires Coherent(fs) && ObservedAs(fs, p, t) && fs(p).Directory?
    ensures t.Folder?
    ensures Find(t.entries, name).None? ==> fs(Child(p, name)) == Missing
    ensures Find(t.entries, name).Some? ==> ObservedAs(fs, Child(p, name), Find(t.entries, name).value)
  {
    hide Sorting.Sort, NAME_ORDER, Coherent, ObservedAs, ObserveAll;
    var names := Sorting.Sort(NAME_ORDER, fs(p).listing);
    FolderTree(fs, p, t);
    ListedNames(fs(p).listing, name);
    EachObserved(fs, p, names, Budget(1, 0), name);
    CoherentAt(fs, p, name);
  }

  /** No symlink at the root or strictly on the way down. */
  ghost predicate NoLinkOnTheWay(fs: FileSystem, p: Path, names: seq<Name>) {
    forall k | 0 <= k < |names| :: !fs(p + Normals(names[..k])).Symlink?
  }

  lemma {:induction false} NotHidden(fs: FileSystem, p: Path, t: Tree, names: seq<Name>)
    requires Coherent(fs) && ObservedAs(fs, p, t) && NoLinkOnTheWay(fs, p, names)
    ensures !Below(t, names).Hidden?
    decreases |names|
  {
    hide Observe, Coherent;
    if names != [] {
      assert p + Normals(names[..0]) == p;
      LeafNotHidden(fs, p, t, names);
      hide ObservedAs;
      if fs(p).Directory? {
        FolderBelow(fs, p, t, names[0]);
        if Find(t.entries, names[0]).Some? {
          var child := Child(p, names[0]);
          forall k | 0 <= k < |names[1..]| ensures !fs(child + Normals(names[1..][..k])).Symlink? {
            assert names[..k + 1][1..] == names[1..][..k];
            Descend(p, names[..k + 1]);
          }
          NotHidden(fs, child, Find(t.entries, names[0]).value, names[1..]);
        }
      }
    }
  }

  lemma LeafNotHidden(fs: FileSystem, p: Path, t: Tree, names: seq<Name>)
    requires ObservedAs(fs, p, t) && names != []
    ensures !fs(p).Directory? && !fs(p).Symlink? ==> !Below(t, names).Hidden?
  {
    hide ObserveAll, Below;
    assert Below(t, names).Hidden? && !t.Folder? ==> t.Link? by { LinkHides(t, names); }
  }

  lemma LinkHides(t: Tree, names: seq<Name>)
    requires names != []
    ensures Below(t, names).Hidden? && !t.Folder? ==> t.Link?
  {
  }

  // ---- coalescing ----

  /** A path survives coalescing when none of its ancestors is a directory of the plan. */
  ghost predicate Kept(fs: FileSystem, paths: set<Path>, p: Path) {
    p in paths && forall k | 0 <= k < |p| :: !(p[..k] in paths && fs(p[..k]).Directory?)
  }

  /** A path is dropped exactly when another listed path leads to it and is a directory; a link to
      one does not count. */
  lemma KeptIff(fs: FileSystem, paths: set<Path>, p: Path)
    ensures Kept(fs, paths, p) <==>
      p in paths && forall q, rest | q in paths && rest != [] && p == q + rest :: !fs(q).Directory?
  {
    if p in paths && forall q, rest | q in paths && rest != [] && p == q + rest :: !fs(q).Directory? {
      forall k | 0 <= k < |p| ensures !(p[..k] in paths && fs(p[..k]).Directory?) {
        assert p == p[..k] + p[k..];
      }
    }
    if Kept(fs, paths, p) {
      forall q, rest | q in paths && rest != [] && p == q + rest ensures !fs(q).Directory? {
        assert p[..|q|] == q;
      }
    }
  }

  /** Every dropped path lies below a kept directory. */
  lemma {:induction false} DroppedBelowKept(fs: FileSystem, paths: set<Path>, p: Path) returns (k: nat)
    requires p in paths && !Kept(fs, paths, p)
    ensures k < |p| && Kept(fs, paths, p[..k]) && fs(p[..k]).Directory?
    decreases |p|
  {
    k :| 0 <= k < |p| && p[..k] in paths && fs(p[..k]).Directory?;
    if !Kept(fs, paths, p[..k]) {
      var j := DroppedBelowKept(fs, paths, p[..k]);
      assert p[..k][..j] == p[..j];
      k := j;
    }
  }

  // ---- equal digests, equal observations ----

  /** No field is as long as 2^64 bytes. */
  ghost predicate Storable(fields: seq<seq<byte>>) {
    forall f | f in fields :: |f| < U64_LIMIT
  }

  function Preimage(fields: seq<seq<byte>>): seq<byte>
    requires Storable(fields)
  {
    Fields(fields)
  }

  lemma {:induction false} PathsObserved(fs: FileSystem, paths: seq<Path>, b: Budget, i: nat)
    requires 0 <= b.entries && 0 <= b.bytes && ObservePaths(fs, paths, b).Ok?
    ensures |ObservePaths(fs, paths, b).value| == |paths|
    ensures i < |paths| ==> ObservedAs(fs, paths[i], ObservePaths(fs, paths, b).value[i])
    ensures i < |paths| ==> Countable(ObservePaths(fs, paths, b).value[i])
  {
    if paths != [] {
      var first := Observe(fs, paths[0], b).value;
      BudgetShift(fs, paths[0], b, NOTHING);
      ObservedCountable(fs, paths[0], b);
      hide Observe, Countable;
      PathsObserved(fs, paths[1..], first.1, if i == 0 then 0 else i - 1);
    }
  }

  lemma {:induction false} PathFieldsCancel(
    sha256: seq<byte> -> seq<byte>, paths: seq<Path>, s: seq<Tree>, x: seq<seq<byte>>, t: seq<Tree>, y: seq<seq<byte>>)
    requires CollisionFree(sha256) && |s| == |t| == |paths|
    requires (forall i | 0 <= i < |s| :: Countable(s[i])) && (forall i | 0 <= i < |t| :: Countable(t[i]))
    requires PathFields(sha256, paths, s) + x == PathFields(sha256, paths, t) + y
    ensures s == t && x == y
  {
    if paths == [] {
      assert PathFields(sha256, paths, s) + x == x && PathFields(sha256, paths, t) + y == y;
    } else {
      hide CollisionFree, Written, PathBytes, Countable;
      var head := [PathBytes(paths[0])];
      var u := PathFields(sha256, paths[1..], s[1..]) + x;
      var v := PathFields(sha256, paths[1..], t[1..]) + y;
      HeadPath(sha256, paths, s, x);
      HeadPath(sha256, paths, t, y);
      hide PathFields;
      Split(head, Written(sha256, [], s[0]) + u, head, Written(sha256, [], t[0]) + v);
      WrittenCancel(sha256, [], s[0], u, [], t[0], v);
      PathFieldsCancel(sha256, paths[1..], s[1..], x, t[1..], y);
      assert s == [s[0]] + s[1..] && t == [t[0]] + t[1..];
    }
  }

  lemma HeadPath(sha256: seq<byte> -> seq<byte>, paths: seq<Path>, s: seq<Tree>, x: seq<seq<byte>>)
    requires |s| == |paths| && paths != []
    ensures PathFields(sha256, paths, s) + x
         == [PathBytes(paths[0])] + (Written(sha256, [], s[0]) + (PathFields(sha256, paths[1..], s[1..]) + x))
  {
    hide Written, PathBytes;
    var head, first, rest := [PathBytes(paths[0])], Written(sha256, [], s[0]), PathFields(sha256, paths[1..], s[1..]);
    assert PathFields(sha256, paths, s) == head + first + rest;
    hide PathFields;
    Regrouped(head, first, rest, x);
  }

  lemma Regrouped<T>(a: seq<T>, b: seq<T>, c: seq<T>, d: seq<T>)
    ensures a + b + c + d == a + (b + (c + d))
  {
  }

  lemma {:induction false} EnvironmentFieldsInjective(variables: seq<Variable>, a: Environment, b: Environment)
    requires EnvironmentFields(variables, a) == EnvironmentFields(variables, b)
    ensures forall v | v in variables :: a(v.name) == b(v.name)
  {
    if variables != [] {
      var name := variables[0].name;
      var (fa, fb) := (EnvironmentFields(variables, a), EnvironmentFields(variables, b));
      assert Ascii("missing")[0] == 109 && Ascii("present")[0] == 112;
      assert fa[1] == fb[1];
      if a(name).Some? { assert fa[2] == fb[2]; }
      var n := if a(name).Some? then 3 else 2;
      assert EnvironmentFields(variables[1..], a) == fa[n..] && EnvironmentFields(variables[1..], b) == fb[n..];
      EnvironmentFieldsInjective(variables[1..], a, b);
    }
  }

  lemma PreimageInjective(s: seq<seq<byte>>, t: seq<seq<byte>>)
    requires Storable(s) && Storable(t) && Preimage(s) == Preimage(t)
    ensures s == t
  {
    FieldsInjective(s, t);
  }

  function StreamOf(sha256: seq<byte> -> seq<byte>, plan: Plan, trees: seq<Tree>, env: Environment): seq<seq<byte>>
    requires |trees| == |plan.paths|
  {
    [SCHEMA, BigEndian(|plan.paths|, 8)] + PathFields(sha256, plan.paths, trees)
    + [BigEndian(|plan.environment|, 8)] + EnvironmentFields(plan.environment, env)
  }

  lemma StreamCancel(
    sha256: seq<byte> -> seq<byte>, plan: Plan, s: seq<Tree>, a: Environment, t: seq<Tree>, b: Environment)
    requires CollisionFree(sha256) && |s| == |t| == |plan.paths|
    requires (forall i | 0 <= i < |s| :: Countable(s[i])) && (forall i | 0 <= i < |t| :: Countable(t[i]))
    requires StreamOf(sha256, plan, s, a) == StreamOf(sha256, plan, t, b)
    ensures s == t && forall v | v in plan.environment :: a(v.name) == b(v.name)
  {
    hide Countable, EnvironmentFields, PathFields, BigEndian, SCHEMA;
    var head := [SCHEMA, BigEndian(|plan.paths|, 8)];
    var count := [BigEndian(|plan.environment|, 8)];
    var ea, eb := EnvironmentFields(plan.environment, a), EnvironmentFields(plan.environment, b);
    var ps, pt := PathFields(sha256, plan.paths, s), PathFields(sha256, plan.paths, t);
    assert StreamOf(sha256, plan, s, a) == head + (ps + (count + ea));
    assert StreamOf(sha256, plan, t, b) == head + (pt + (count + eb));
    hide StreamOf;
    Split(head, ps + (count + ea), head, pt + (count + eb));
    PathFieldsCancel(sha256, plan.paths, s, count + ea, t, count + eb);
    Split(count, ea, count, eb);
    EnvironmentFieldsInjective(plan.environment, a, b);
  }

  /** Equal plan digests mean equal trees at every path of the plan and equal variables. */
  lemma DigestIdentifiesPlan(
    sha256: seq<byte> -> seq<byte>, plan: Plan, fs1: FileSystem, env1: Environment, fs2: FileSystem, env2: Environment,
    lossy: seq<byte> -> seq<byte>)
    requires CollisionFree(sha256)
    requires SameDigest(sha256, plan, fs1, env1, fs2, env2, lossy)
    ensures ObservePaths(fs1, plan.paths, NOTHING).Ok?
    ensures ObservePaths(fs1, plan.paths, NOTHING) == ObservePaths(fs2, plan.paths, NOTHING)
    ensures forall v | v in plan.environment :: env1(v.name) == env2(v.name)
  {
    PreimageInjective(PlanStream(sha256, plan, fs1, env1, lossy).value,
      PlanStream(sha256, plan, fs2, env2, lossy).value);
    var t1, t2 := ObservePaths(fs1, plan.paths, NOTHING).value, ObservePaths(fs2, plan.paths, NOTHING).value;
    hide Preimage, Storable, EnvironmentUnchanged, Countable, ObservePaths, EnvironmentFields, PathFields, BigEndian,
      SCHEMA, CollisionFree;
    forall i | 0 <= i < |plan.paths| ensures Countable(t1[i]) && Countable(t2[i]) {
      PathsObserved(fs1, plan.paths, NOTHING, i);
      PathsObserved(fs2, plan.paths, NOTHING, i);
    }
    assert StreamOf(sha256, plan, t1, env1) == StreamOf(sha256, plan, t2, env2);
    StreamCancel(sha256, plan, t1, env1, t2, env2);
  }

  /** Both observations of the plan succeed and have the same digest. */
  ghost predicate SameDigest(
    sha256: seq<byte> -> seq<byte>, plan: Plan, fs1: FileSystem, env1: Environment, fs2: FileSystem, env2: Environment,
    lossy: seq<byte> -> seq<byte>)
  {
    var s1, s2 := PlanStream(sha256, plan, fs1, env1, lossy), PlanStream(sha256, plan, fs2, env2, lossy);
    && s1.Ok? && s2.Ok? && Storable(s1.value) && Storable(s2.value)
    && sha256(Preimage(s1.value)) == sha256(Preimage(s2.value))
  }

  // ---- the smaller plan witnesses the larger one ----

  /** From a kept directory down to `p` by names only, with no symlink strictly between. */
  ghost predicate WitnessedFrom(fs: FileSystem, d: Path, names: seq<Name>, p: Path) {
    p == d + Normals(names) && NoLinkOnTheWay(fs, d, names)
  }

  ghost predicate SameSight(fs1: FileSystem, fs2: FileSystem, p: Path) {
    (exists t: Tree :: ObservedAs(fs1, p, t) && ObservedAs(fs2, p, t))
    || Observe(fs1, p, NOTHING) == Observe(fs2, p, NOTHING) == Err(Uninspectable)
  }

  /** Whatever was coalesced away is still witnessed: while the digest of the coalesced plan
      stays the same, so does the observation of every original path reached from a kept
      directory without crossing a symlink. */
  lemma CoalescingWitnesses(
    sha256: seq<byte> -> seq<byte>, plan: Plan, fs1: FileSystem, env1: Environment, fs2: FileSystem, env2: Environment,
    lossy: seq<byte> -> seq<byte>,
    d: Path, names: seq<Name>, p: Path)
    requires CollisionFree(sha256) && Coherent(fs1) && Coherent(fs2)
    requires SameDigest(sha256, plan, fs1, env1, fs2, env2, lossy)
    requires d in plan.paths && WitnessedFrom(fs1, d, names, p)
    ensures SameSight(fs1, fs2, p)
  {
    hide CollisionFree, Coherent, PlanStream, SameDigest, Storable;
    DigestIdentifiesPlan(sha256, plan, fs1, env1, fs2, env2, lossy);
    var i :| 0 <= i < |plan.paths| && plan.paths[i] == d;
    PathsObserved(fs1, plan.paths, NOTHING, i);
    PathsObserved(fs2, plan.paths, NOTHING, i);
    var t := ObservePaths(fs1, plan.paths, NOTHING).value[i];
    hide ObservePaths, Countable, ObservedAs, Observe;
    NotHidden(fs1, d, t, names);
    ObservedBelow(fs1, d, t, names);
    ObservedBelow(fs2, d, t, names);
  }

  // ---- and only then ----

  /** A step the observation of what is above it does not fix: a parent component, or any
      component below a symlink. */
  ghost predicate Unfixed(fs: FileSystem, p: Path, k: nat) {
    k < |p| && (p[k].Up? || fs(p[..k]).Symlink?)
  }

  /** Everything from the k-th step of `p` on replaced by one entry. */
  function Replaced(fs: FileSystem, cut: Path, entry: Entry): FileSystem {
    (x: Path) => if cut <= x then entry else fs(x)
  }

  lemma ReplacedCoherent(fs: FileSystem, p: Path, k: nat, entry: Entry)
    requires Coherent(fs) && Unfixed(fs, p, k) && (entry == Missing || entry == NotDirectory)
    ensures Coherent(Replaced(fs, p[..k + 1], entry))
  {
    var cut := p[..k + 1];
    var fs' := Replaced(fs, cut, entry);
    forall x, name ensures FollowsFrom(fs'(x), name, fs'(Child(x, name))) {
      assert FollowsFrom(fs(x), name, fs(Child(x, name)));
      if !(cut <= x) && cut <= Child(x, name) {
        assert Child(x, name)[..k + 1] == cut && |Child(x, name)| == k + 1;
        assert x == p[..k] && p[k] == Normal(name);
      }
    }
  }

  lemma ChildExtends(cut: Path, q: Path, name: Name)
    ensures cut <= Child(q, name) <==> cut <= q || cut == Child(q, name)
  {
    if cut <= Child(q, name) && |cut| <= |q| {
      assert cut == Child(q, name)[..|cut|] == q[..|cut|];
    }
    if cut <= q {
      assert cut == q[..|cut|] == Child(q, name)[..|cut|];
    }
  }

  lemma NeverEntered(fs: FileSystem, p: Path, k: nat, q: Path, name: Name)
    requires Unfixed(fs, p, k) && !(p[..k + 1] <= q) && fs(q).Directory?
    ensures !(p[..k + 1] <= Child(q, name))
  {
    ChildExtends(p[..k + 1], q, name);
    assert Child(q, name)[..|q|] == q && Child(q, name)[|q|] == Normal(name);
    assert p[..k + 1][..k] == p[..k] && p[..k + 1][k] == p[k];
  }

  /** The observation of a path outside the replaced part never enters it. */
  lemma {:induction false} ReplacedUnseen(fs: FileSystem, p: Path, k: nat, entry: Entry, q: Path, b: Budget)
    requires k < |p| && Unfixed(fs, p, k) && !(p[..k + 1] <= q)
    ensures Observe(Replaced(fs, p[..k + 1], entry), q, b) == Observe(fs, q, b)
    decreases MAX_ENTRIES - b.entries, 0
  {
    hide Sorting.Sort, NAME_ORDER, Unfixed, ObserveAll;
    assert Replaced(fs, p[..k + 1], entry)(q) == fs(q);
    hide Replaced;
    if b.entries + 1 <= MAX_ENTRIES && fs(q).Directory? {
      ReplacedUnseenAll(fs, p, k, entry, q, Sorting.Sort(NAME_ORDER, fs(q).listing), b.(entries := b.entries + 1));
    }
  }

  lemma {:induction false} ReplacedUnseenAll(
    fs: FileSystem, p: Path, k: nat, entry: Entry, q: Path, names: seq<Name>, b: Budget)
    requires Unfixed(fs, p, k) && !(p[..k + 1] <= q) && fs(q).Directory? && b.entries <= MAX_ENTRIES
    ensures ObserveAll(Replaced(fs, p[..k + 1], entry), q, names, b) == ObserveAll(fs, q, names, b)
    decreases MAX_ENTRIES - b.entries, |names| + 1
  {
    if names != [] {
      var child := Child(q, names[0]);
      NeverEntered(fs, p, k, q, names[0]);
      hide Unfixed, Observe, Replaced;
      ReplacedUnseen(fs, p, k, entry, child, b);
      var first := Observe(fs, child, b);
      if first.Ok? { ReplacedUnseenAll(fs, p, k, entry, q, names[1..], first.value.1); }
    }
  }

  lemma KeptOutside(fs: FileSystem, paths: set<Path>, p: Path, n: nat, k: nat, q: Path)
    requires n <= k < |p| && p[..n] in paths && fs(p[..n]).Directory? && Kept(fs, paths, q)
    ensures !(p[..k + 1] <= q)
  {
    if p[..k + 1] <= q { SharedPrefix(p, n, k, q); }
  }

  lemma SharedPrefix(p: Path, n: nat, k: nat, q: Path)
    requires n <= k < |p| && p[..k + 1] <= q
    ensures n < |q| && q[..n] == p[..n]
  {
    assert q[..n] == p[..k + 1][..n];
  }

  /** The condition is exact. When the way from the kept directory down to a dropped path does
      cross a symlink or a parent component, there is another file system in which every kept
      path is observed just as before but the dropped one is not. */
  lemma UnfixedPathsAreNotWitnessed(fs: FileSystem, paths: set<Path>, p: Path, n: nat, k: nat) returns (fs': FileSystem)
    requires Coherent(fs) && p in paths
    requires n <= k && Unfixed(fs, p, k) && Kept(fs, paths, p[..n]) && fs(p[..n]).Directory?
    ensures Coherent(fs')
    ensures forall q, b | Kept(fs, paths, q) :: Observe(fs', q, b) == Observe(fs, q, b)
    ensures !SameSight(fs, fs', p)
  {
    var entry := if Observe(fs, p, NOTHING).Ok? then NotDirectory else Missing;
    fs' := Replaced(fs, p[..k + 1], entry);
    ReplacedCoherent(fs, p, k, entry);
    forall q, b | Kept(fs, paths, q) ensures Observe(fs', q, b) == Observe(fs, q, b) {
      KeptOutside(fs, paths, p, n, k, q);
      ReplacedUnseen(fs, p, k, entry, q, b);
    }
    hide Coherent, Kept;
    assert fs'(p) == entry;
  }

  /** Below a directory, a path is either witnessed from it or has a step left unfixed, so the
      two results above leave no case out. */
  lemma {:induction false} WitnessedIffFixed(fs: FileSystem, p: Path, n: nat)
    requires n <= |p|
    ensures (exists names :: WitnessedFrom(fs, p[..n], names, p)) <==> forall k | n <= k < |p| :: !Unfixed(fs, p, k)
  {
    if names :| WitnessedFrom(fs, p[..n], names, p) {
      forall k | n <= k < |p| ensures !Unfixed(fs, p, k) {
        assert p[k] == Normals(names)[k - n];
        assert p[..k] == p[..n] + Normals(names[..k - n]);
      }
    }
    if forall k | n <= k < |p| :: !Unfixed(fs, p, k) {
      var names := seq(|p| - n, i requires 0 <= i < |p| - n => ComponentName(p[n + i]));
      forall j | n <= j < |p| ensures p[j] == Normal(names[j - n]) {
        assert !Unfixed(fs, p, j);
        assert names[j - n] == ComponentName(p[n + (j - n)]);
      }
      forall i | 0 <= i <= |names| ensures p[..n + i] == p[..n] + Normals(names[..i]) { }
      forall i | 0 <= i < |names| ensures !fs(p[..n] + Normals(names[..i])).Symlink? {
        assert !Unfixed(fs, p, n + i);
      }
      assert p == p[..n + |names|] && names == names[..|names|];
      assert WitnessedFrom(fs, p[..n], names, p);
    }
  }

  // ---- end to end ----

  ghost predicate Coalesces(fs: FileSystem, paths: set<Path>, plan: Plan) {
    forall q :: q in plan.paths <==> Kept(fs, paths, q)
  }

  /** No symlink and no parent component on the way from a kept directory down to `p`. */
  ghost predicate FixedBelowKept(fs: FileSystem, paths: set<Path>, p: Path) {
    forall n, k | 0 <= n <= k < |p| && Kept(fs, paths, p[..n]) && fs(p[..n]).Directory? :: !Unfixed(fs, p, k)
  }

  /** The digest of the coalesced plan speaks for every original path that is so reached. */
  lemma CoalescedPlanWitnesses(
    sha256: seq<byte> -> seq<byte>, paths: set<Path>, plan: Plan, fs1: FileSystem, env1: Environment, fs2: FileSystem,
    env2: Environment,
    lossy: seq<byte> -> seq<byte>, p: Path)
    requires CollisionFree(sha256) && Coherent(fs1) && Coherent(fs2)
    requires Coalesces(fs1, paths, plan) && SameDigest(sha256, plan, fs1, env1, fs2, env2, lossy)
    requires p in paths && FixedBelowKept(fs1, paths, p)
    ensures SameSight(fs1, fs2, p)
  {
    hide CollisionFree, Coherent, SameDigest, SameSight, Unfixed, WitnessedFrom;
    var n := |p|;
    assert p[..|p|] == p;
    if !Kept(fs1, paths, p) { n := DroppedBelowKept(fs1, paths, p); }
    assert Kept(fs1, paths, p[..n]);
    forall k | n <= k < |p| ensures !Unfixed(fs1, p, k) { }
    WitnessedIffFixed(fs1, p, n);
    hide Kept, FixedBelowKept;
    var names :| WitnessedFrom(fs1, p[..n], names, p);
    CoalescingWitnesses(sha256, plan, fs1, env1, fs2, env2, lossy, p[..n], names, p);
  }

  lemma {:induction false} SamePaths(fs: FileSystem, fs': FileSystem, paths: seq<Path>, b: Budget)
    requires forall q, c | q in paths :: Observe(fs', q, c) == Observe(fs, q, c)
    ensures ObservePaths(fs', paths, b) == ObservePaths(fs, paths, b)
  {
    hide Observe;
    if paths != [] {
      assert Observe(fs', paths[0], b) == Observe(fs, paths[0], b);
      if Observe(fs, paths[0], b).Ok? { SamePaths(fs, fs', paths[1..], Observe(fs, paths[0], b).value.1); }
    }
  }

  /** Coalescing loses nothing of an original path exactly when it is reached from the kept
      directory above it by names alone; a kept path has none above it. */
  lemma CoalescingLosesNothingIff(
    sha256: seq<byte> -> seq<byte>, paths: set<Path>, plan: Plan, fs: FileSystem, env: Environment,
    lossy: seq<byte> -> seq<byte>, p: Path)
    requires CollisionFree(sha256) && Coherent(fs) && p in paths
    requires Coalesces(fs, paths, plan) && SameDigest(sha256, plan, fs, env, fs, env, lossy)
    ensures FixedBelowKept(fs, paths, p) <==>
            forall fs', env' | Coherent(fs') && SameDigest(sha256, plan, fs, env, fs', env', lossy) ::
              SameSight(fs, fs', p)
  {
    hide CollisionFree, Coherent, SameSight, SameDigest, Coalesces, FixedBelowKept;
    if FixedBelowKept(fs, paths, p) {
      forall fs', env' | Coherent(fs') && SameDigest(sha256, plan, fs, env, fs', env', lossy)
        ensures SameSight(fs, fs', p) {
        CoalescedPlanWitnesses(sha256, paths, plan, fs, env, fs', env', lossy, p);
      }
    } else {
      var fs' := SomethingLost(sha256, paths, plan, fs, env, lossy, p);
    }
  }

  lemma SomethingLost(
    sha256: seq<byte> -> seq<byte>, paths: set<Path>, plan: Plan, fs: FileSystem, env: Environment,
    lossy: seq<byte> -> seq<byte>, p: Path)
    returns (fs': FileSystem)
    requires Coherent(fs) && p in paths && !FixedBelowKept(fs, paths, p)
    requires Coalesces(fs, paths, plan) && SameDigest(sha256, plan, fs, env, fs, env, lossy)
    ensures Coherent(fs') && SameDigest(sha256, plan, fs, env, fs', env, lossy) && !SameSight(fs, fs', p)
  {
    hide Coherent, SameSight, Unfixed, Kept, SameDigest;
    var n, k :| 0 <= n <= k < |p| && Kept(fs, paths, p[..n]) && fs(p[..n]).Directory? && Unfixed(fs, p, k);
    fs' := UnfixedPathsAreNotWitnessed(fs, paths, p, n, k);
    SamePaths(fs, fs', plan.paths, NOTHING);
    SameStream(sha256, plan, fs, fs', env, lossy);
  }

  lemma SameStream(
    sha256: seq<byte> -> seq<byte>, plan: Plan, fs: FileSystem, fs': FileSystem, env: Environment,
    lossy: seq<byte> -> seq<byte>)
    requires ObservePaths(fs', plan.paths, NOTHING) == ObservePaths(fs, plan.paths, NOTHING)
    requires SameDigest(sha256, plan, fs, env, fs, env, lossy)
    ensures SameDigest(sha256, plan, fs, env, fs', env, lossy)
  {
    StreamOfPaths(sha256, plan, fs, fs', env, lossy);
    hide PlanStream, Storable, Preimage;
  }

  lemma StreamOfPaths(
    sha256: seq<byte> -> seq<byte>, plan: Plan, fs: FileSystem, fs': FileSystem, env: Environment,
    lossy: seq<byte> -> seq<byte>)
    requires ObservePaths(fs', plan.paths, NOTHING) == ObservePaths(fs, plan.paths, NOTHING)
    ensures PlanStream(sha256, plan, fs', env, lossy) == PlanStream(sha256, plan, fs, env, lossy)
  {
    hide ObservePaths, PathFields, EnvironmentFields, EnvironmentUnchanged, BigEndian, SCHEMA;
  }

  function ComponentName(c: Component): Name {
    match c
    case Normal(name) => name
    case Up => []
  }
}
