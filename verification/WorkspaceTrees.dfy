/** What an observation of the Cargo inputs amounts to: the tree that is there, as long as it is
    within bounds. */
module WorkspaceTrees {
  import opened Wrappers
  import opened Bytes
  import opened Splitting
  import opened WorkspaceInputs
  import Sorting

  // ---- the tree that is there ----

  function NamesOf(entries: seq<Named>): (r: seq<Name>)
    ensures |r| == |entries| && forall i | 0 <= i < |entries| :: r[i] == entries[i].name
  {
    seq(|entries|, i requires 0 <= i < |entries| => entries[i].name)
  }

  /** The tree shows what lies at the path: nothing, where a link leads, what a file holds, or
      what lies below each name a directory lists, in byte order. */
  ghost predicate Shows(fs: FileSystem, p: Path, t: Tree)
    decreases t
  {
    match t
    case Absent => fs(p) == Missing
    case Link(target) => fs(p) == Symlink(target)
    case Plain(content) => fs(p) == File(content)
    case Folder(entries) =>
      && fs(p).Directory?
      && multiset(NamesOf(entries)) == multiset(fs(p).listing)
      && (forall i, j | 0 <= i < j < |entries| ::
           entries[i].name == entries[j].name || Precedes(entries[i].name, entries[j].name))
      && forall i | 0 <= i < |entries| :: Shows(fs, Child(p, entries[i].name), entries[i].tree)
  }

  ghost predicate AllShow(fs: FileSystem, p: Path, entries: seq<Named>) {
    forall i | 0 <= i < |entries| :: Shows(fs, Child(p, entries[i].name), entries[i].tree)
  }

  /** Paths met on the way, the first included. */
  function Size(t: Tree): (n: nat)
    ensures n >= 1
    decreases t
  {
    match t
    case Folder(entries) => 1 + SizeOfAll(entries)
    case _ => 1
  }

  function SizeOfAll(entries: seq<Named>): nat
    decreases entries
  {
    if entries == [] then 0 else Size(entries[0].tree) + SizeOfAll(entries[1..])
  }

  /** Bytes of the files on the way. */
  function Volume(t: Tree): nat
    decreases t
  {
    match t
    case Plain(content) => |content|
    case Folder(entries) => VolumeOfAll(entries)
    case _ => 0
  }

  function VolumeOfAll(entries: seq<Named>): nat
    decreases entries
  {
    if entries == [] then 0 else Volume(entries[0].tree) + VolumeOfAll(entries[1..])
  }

  ghost predicate Within(b: Budget) {
    b.entries <= 2_000_000 && b.bytes <= 0x10_0000_0000
  }

  function Spend(b: Budget, entries: nat, bytes: nat): Budget {
    Budget(b.entries + entries, b.bytes + bytes)
  }

  // ---- observing finds it ----

  lemma ListedInOrder(listing: seq<Name>, names: seq<Name>)
    ensures names == Sorting.Sort(NAME_ORDER, listing) <==>
      && multiset(names) == multiset(listing)
      && forall i, j | 0 <= i < j < |names| :: names[i] == names[j] || Precedes(names[i], names[j])
  {
    hide Sorting.Sort, NAME_ORDER, BytesLeq, Precedes;
    var sorted := Sorting.Sort(NAME_ORDER, listing);
    NameOrderTotal();
    Sorting.SortSorts(NAME_ORDER, listing);
    forall a: Name, b: Name ensures NAME_ORDER(a, b) <==> a == b || Precedes(a, b) { NameOrderIff(a, b); }
    if multiset(names) == multiset(listing) && Sorting.Sorted(NAME_ORDER, names) {
      Sorting.SortedUnique(NAME_ORDER, sorted, names);
    }
  }

  lemma NameOrderIff(a: Name, b: Name)
    ensures NAME_ORDER(a, b) <==> a == b || Precedes(a, b)
  {
    BytesLeqIff(a, b);
  }

  /** What is observed is there, and the budget pays for exactly that. */
  lemma {:induction false} ObservedShows(fs: FileSystem, p: Path, b: Budget)
    requires Within(b) && Observe(fs, p, b).Ok?
    ensures var (t, after) := Observe(fs, p, b).value;
            Shows(fs, p, t) && after == Spend(b, Size(t), Volume(t)) && Within(after)
    decreases MAX_ENTRIES - b.entries, 0
  {
    hide Observe, ObserveAll, AllShow, Shows, SizeOfAll, VolumeOfAll, Sorting.Sort;
    ObserveUnfolds(fs, p, b);
    if fs(p).Directory? {
      var names := Sorting.Sort(NAME_ORDER, fs(p).listing);
      var counted := b.(entries := b.entries + 1);
      AllObservedShow(fs, p, names, counted);
      var entries := ObserveAll(fs, p, names, counted).value.0;
      assert NamesOf(entries) == names;
      FolderShows(fs, p, entries);
    } else {
      LeafShows(fs, p, Observe(fs, p, b).value.0);
    }
  }

  lemma ObserveUnfolds(fs: FileSystem, p: Path, b: Budget)
    ensures Observe(fs, p, b) ==
      if b.entries + 1 > MAX_ENTRIES then Err(TooManyEntries)
      else
        var counted := b.(entries := b.entries + 1);
        match fs(p)
        case Missing => Ok((Absent, counted))
        case NotDirectory => Err(Uninspectable)
        case Symlink(target) => Ok((Link(target), counted))
        case File(content) =>
          if counted.bytes + |content| > MAX_BYTES then Err(TooManyBytes)
          else Ok((Plain(content), counted.(bytes := counted.bytes + |content|)))
        case Directory(listing) =>
          (match ObserveAll(fs, p, Sorting.Sort(NAME_ORDER, listing), counted)
           case Err(e) => Err(e)
           case Ok((entries, after)) => Ok((Folder(entries), after)))
        case Special => Err(Unsupported)
  {
  }

  lemma LeafShows(fs: FileSystem, p: Path, t: Tree)
    requires match fs(p)
      case Missing => t == Absent
      case Symlink(target) => t == Link(target)
      case File(content) => t == Plain(content)
      case _ => false
    ensures Shows(fs, p, t)
  {
  }

  lemma FolderShows(fs: FileSystem, p: Path, entries: seq<Named>)
    requires fs(p).Directory? && NamesOf(entries) == Sorting.Sort(NAME_ORDER, fs(p).listing) && AllShow(fs, p, entries)
    ensures Shows(fs, p, Folder(entries))
  {
    hide Sorting.Sort, Precedes;
    ListedInOrder(fs(p).listing, NamesOf(entries));
  }

  lemma {:induction false} AllObservedShow(fs: FileSystem, p: Path, names: seq<Name>, b: Budget)
    requires Within(b) && b.entries <= MAX_ENTRIES && ObserveAll(fs, p, names, b).Ok?
    ensures var (entries, after) := ObserveAll(fs, p, names, b).value;
            && AllShow(fs, p, entries)
            && after == Spend(b, SizeOfAll(entries), VolumeOfAll(entries)) && Within(after)
    decreases MAX_ENTRIES - b.entries, |names| + 1
  {
    hide Observe, Shows, Size, Volume;
    if names != [] {
      ObservedShows(fs, Child(p, names[0]), b);
      var (tree, middle) := Observe(fs, Child(p, names[0]), b).value;
      AllObservedShow(fs, p, names[1..], middle);
      var entries := ObserveAll(fs, p, names, b).value.0;
      assert entries[1..] == ObserveAll(fs, p, names[1..], middle).value.0;
    }
  }

  /** What is there and within bounds is observed. */
  lemma {:induction false} ShownIsObserved(fs: FileSystem, p: Path, t: Tree, b: Budget)
    requires Within(b) && Shows(fs, p, t) && Within(Spend(b, Size(t), Volume(t)))
    ensures Observe(fs, p, b) == Ok((t, Spend(b, Size(t), Volume(t))))
    decreases t
  {
    hide Observe, ObserveAll, AllShow, SizeOfAll, VolumeOfAll, Sorting.Sort, Precedes;
    ObserveUnfolds(fs, p, b);
    match t
    case Folder(entries) =>
      var counted := b.(entries := b.entries + 1);
      FolderListed(fs, p, entries);
      AllShownObserved(fs, p, entries, counted);
    case _ =>
  }

  lemma FolderListed(fs: FileSystem, p: Path, entries: seq<Named>)
    requires Shows(fs, p, Folder(entries))
    ensures fs(p).Directory? && NamesOf(entries) == Sorting.Sort(NAME_ORDER, fs(p).listing) && AllShow(fs, p, entries)
  {
    hide Sorting.Sort, Precedes;
    ListedInOrder(fs(p).listing, NamesOf(entries));
  }

  lemma {:induction false} AllShownObserved(fs: FileSystem, p: Path, entries: seq<Named>, b: Budget)
    requires Within(b) && AllShow(fs, p, entries) && Within(Spend(b, SizeOfAll(entries), VolumeOfAll(entries)))
    ensures ObserveAll(fs, p, NamesOf(entries), b) == Ok((entries, Spend(b, SizeOfAll(entries), VolumeOfAll(entries))))
    decreases entries
  {
    hide Observe, Shows, Size, Volume;
    if entries != [] {
      var e := entries[0];
      assert Shows(fs, Child(p, e.name), e.tree);
      ShownIsObserved(fs, Child(p, e.name), e.tree, b);
      var middle := Spend(b, Size(e.tree), Volume(e.tree));
      assert NamesOf(entries)[1..] == NamesOf(entries[1..]);
      forall i | 0 <= i < |entries[1..]| ensures Shows(fs, Child(p, entries[1..][i].name), entries[1..][i].tree) {
        assert entries[1..][i] == entries[i + 1];
      }
      AllShownObserved(fs, p, entries[1..], middle);
      assert [e] + entries[1..] == entries;
    }
  }

  /** A path is observed exactly when what lies at and below it can be shown as a tree, which
      then is the observation, within two million paths and 64 GiB. */
  lemma ObserveIff(fs: FileSystem, p: Path, b: Budget, t: Tree, after: Budget)
    requires Within(b)
    ensures Observe(fs, p, b) == Ok((t, after)) <==>
      Shows(fs, p, t) && after == Spend(b, Size(t), Volume(t)) && Within(after)
  {
    hide Observe, Shows, Within;
    if Observe(fs, p, b).Ok? { ObservedShows(fs, p, b); }
    if Shows(fs, p, t) && Within(Spend(b, Size(t), Volume(t))) { ShownIsObserved(fs, p, t, b); }
  }

  // ---- a whole plan ----

  ghost predicate PlanShows(fs: FileSystem, paths: seq<Path>, trees: seq<Tree>) {
    |trees| == |paths| && forall i | 0 <= i < |paths| :: Shows(fs, paths[i], trees[i])
  }

  function SizeOfTrees(trees: seq<Tree>): nat {
    if trees == [] then 0 else Size(trees[0]) + SizeOfTrees(trees[1..])
  }

  function VolumeOfTrees(trees: seq<Tree>): nat {
    if trees == [] then 0 else Volume(trees[0]) + VolumeOfTrees(trees[1..])
  }

  lemma {:induction false} PathsObservedIff(fs: FileSystem, paths: seq<Path>, b: Budget, trees: seq<Tree>)
    requires Within(b)
    ensures ObservePaths(fs, paths, b) == Ok(trees) <==>
      PlanShows(fs, paths, trees) && Within(Spend(b, SizeOfTrees(trees), VolumeOfTrees(trees)))
  {
    hide Observe, Shows, Size, Volume;
    if paths != [] {
      if ObservePaths(fs, paths, b) == Ok(trees) {
        var (tree, after) := Observe(fs, paths[0], b).value;
        ObserveIff(fs, paths[0], b, tree, after);
        assert trees[1..] == ObservePaths(fs, paths[1..], after).value;
        PathsObservedIff(fs, paths[1..], after, trees[1..]);
        assert paths == [paths[0]] + paths[1..] && trees == [tree] + trees[1..];
      }
      if PlanShows(fs, paths, trees) && Within(Spend(b, SizeOfTrees(trees), VolumeOfTrees(trees))) {
        var after := Spend(b, Size(trees[0]), Volume(trees[0]));
        ObserveIff(fs, paths[0], b, trees[0], after);
        forall i | 0 <= i < |paths[1..]| ensures Shows(fs, paths[1..][i], trees[1..][i]) {
          assert paths[1..][i] == paths[i + 1] && trees[1..][i] == trees[i + 1];
        }
        PathsObservedIff(fs, paths[1..], after, trees[1..]);
        assert trees == [trees[0]] + trees[1..];
      }
    }
  }

  /** Every variable reads as recorded, absent ones included. */
  ghost predicate AsRecorded(variables: seq<Variable>, env: Environment, lossy: seq<byte> -> seq<byte>) {
    forall i | 0 <= i < |variables| ::
      var v := variables[i];
      && (v.recorded.None? <==> env(v.name).None?)
      && (env(v.name).Some? ==> v.recorded == Some(lossy(env(v.name).value)))
  }

  /** A plan has a digest exactly when each of its paths can be shown, all of them together within
      two million paths and 64 GiB, and each variable reads as recorded. */
  lemma PlanObservedIff(
    sha256: seq<byte> -> seq<byte>, plan: Plan, fs: FileSystem, env: Environment, lossy: seq<byte> -> seq<byte>)
    ensures PlanStream(sha256, plan, fs, env, lossy).Ok? <==>
      AsRecorded(plan.environment, env, lossy) && exists trees | PlanShows(fs, plan.paths, trees) ::
        SizeOfTrees(trees) <= 2_000_000 && VolumeOfTrees(trees) <= 0x10_0000_0000
  {
    hide ObservePaths, PlanShows, SizeOfTrees, VolumeOfTrees, PathFields, EnvironmentFields, BigEndian;
    RecordedIff(plan.environment, env, lossy);
    hide EnvironmentUnchanged, AsRecorded;
    forall trees ensures ObservePaths(fs, plan.paths, Budget(0, 0)) == Ok(trees) <==>
      PlanShows(fs, plan.paths, trees) && SizeOfTrees(trees) <= 2_000_000 && VolumeOfTrees(trees) <= 0x10_0000_0000
    {
      PathsObservedIff(fs, plan.paths, Budget(0, 0), trees);
    }
    if ObservePaths(fs, plan.paths, Budget(0, 0)).Ok? {
      assert PlanShows(fs, plan.paths, ObservePaths(fs, plan.paths, Budget(0, 0)).value);
    }
  }

  lemma RecordedIff(variables: seq<Variable>, env: Environment, lossy: seq<byte> -> seq<byte>)
    ensures EnvironmentUnchanged(variables, env, lossy) <==> AsRecorded(variables, env, lossy)
  {
    if AsRecorded(variables, env, lossy) {
      forall v | v in variables
        ensures v.recorded == match env(v.name) case None => None case Some(value) => Some(lossy(value))
      {
        var i :| 0 <= i < |variables| && variables[i] == v;
      }
    }
  }

  // ---- how a path is written ----

  function Spelled(c: Component): seq<byte> {
    if c.Up? then Ascii("..") else c.name
  }

  /** Between the slashes of a written path stand its components, after an empty piece. */
  lemma {:induction false} PathPieces(p: Path)
    requires p != [] && forall c | c in p && c.Normal? :: 47 !in c.name
    ensures SplitOn(PathBytes(p), 47) == [[]] + seq(|p|, i requires 0 <= i < |p| => Spelled(p[i]))
  {
    hide SplitOn, ComponentBytes;
    var n := |p| - 1;
    var last := ComponentBytes(p[n]);
    LastSpelled(p);
    WholePiece(last);
    if n == 0 {
      SplitJoin([], 47, last);
      SplitNothing(47 as byte);
      assert [] + [47] + last == [47] + last;
    } else {
      PathPieces(p[..n]);
      SplitJoin(PathBytes(p[..n]), 47, last);
    }
    hide PathBytes;
    SpelledSnoc(p);
  }

  lemma LastSpelled(p: Path)
    requires p != [] && forall c | c in p && c.Normal? :: 47 !in c.name
    ensures ComponentBytes(p[|p| - 1]) == Spelled(p[|p| - 1]) && 47 !in ComponentBytes(p[|p| - 1])
  {
    assert p[|p| - 1] in p;
  }

  lemma SpelledSnoc(p: Path)
    requires p != []
    ensures var n := |p| - 1;
            seq(|p|, i requires 0 <= i < |p| => Spelled(p[i]))
              == seq(n, i requires 0 <= i < n => Spelled(p[..n][i])) + [Spelled(p[n])]
  {
  }

  lemma {:induction false} WholePiece(piece: seq<byte>)
    requires 47 !in piece
    ensures SplitOn(piece, 47) == [piece]
  {
    if piece != [] {
      WholePiece(piece[1..]);
      assert piece == [piece[0]] + piece[1..] && [piece[1..]][1..] == [];
    }
  }
}
