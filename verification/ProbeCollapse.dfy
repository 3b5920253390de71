/** How the TypeScript provider stands in for thousands of failed module probes with the
    nearest existing ancestor of each, and why that loses nothing. */
module ProbeCollapse {
  import opened Wrappers
  import opened WorkspaceInputs
  import opened WorkspaceWitness

  /** A cleaned absolute path. */
  type Names = seq<Name>

  function At(fs: FileSystem, path: Names): Entry {
    fs(Normals(path))
  }

  predicate Exists(e: Entry) {
    !e.Missing? && !e.NotDirectory?
  }

  predicate Within(path: Names, root: Names) {
    root <= path
  }

  datatype ProbeError = OutsideRepository | ThroughNonDirectory | RootDisappeared | OwnerLost | UnsafePath

  /** The walk up from a probe to its nearest existing ancestor. */
  function Collapse(fs: FileSystem, root: Names, path: Names): (r: Result<Names, ProbeError>)
    ensures r.Ok? && Within(path, root) ==> Within(r.value, root)
    decreases |path|
  {
    if Exists(At(fs, path)) then Ok(path)
    else if At(fs, path).NotDirectory? then Err(ThroughNonDirectory)
    else if path == root then Err(RootDisappeared)
    else if path == [] || !Within(path[..|path| - 1], root) then Err(OwnerLost)
    else Collapse(fs, root, path[..|path| - 1])
  }

  /** The walk ends inside the repository, at the longest existing prefix of the probe; it fails
      exactly when the probe runs through something that is no directory or the root is gone. */
  lemma {:induction false} CollapseFindsNearestAncestor(fs: FileSystem, root: Names, path: Names)
    requires Within(path, root)
    ensures var r := Collapse(fs, root, path);
            && (r.Ok? ==>
                 && Within(r.value, root) && r.value <= path && Exists(At(fs, r.value))
                 && (forall k | |r.value| < k <= |path| :: At(fs, path[..k]).Missing?)
                 && (r.value == path || r.value < path))
            && (r.Err? ==>
                 if r.error == ThroughNonDirectory
                 then exists k | |root| <= k <= |path| :: At(fs, path[..k]).NotDirectory?
                 else r.error == RootDisappeared && At(fs, root).Missing?)
    decreases |path|
  {
    assert path[..|path|] == path;
    if At(fs, path).Missing? && path != root {
      var parent := path[..|path| - 1];
      assert root == path[..|root|] && parent[..|root|] == root;
      CollapseFindsNearestAncestor(fs, root, parent);
      forall k | 0 <= k < |path| ensures parent[..k] == path[..k] { }
    }
  }

  /** The same names are found directly below `a` in both file systems. */
  ghost predicate SameMembership(fs1: FileSystem, fs2: FileSystem, a: Names) {
    forall name :: Exists(At(fs1, a + [name])) <==> Exists(At(fs2, a + [name]))
  }

  lemma NormalsAppend(a: Names, b: Names)
    ensures Normals(a + b) == Normals(a) + Normals(b)
  {
  }

  /** A missing probe is still missing in any later tree that finds the same names directly
      below the ancestor standing in for it. */
  lemma CollapsedProbeStillAbsent(fs1: FileSystem, fs2: FileSystem, root: Names, path: Names)
    requires Coherent(fs2) && Within(path, root)
    requires Collapse(fs1, root, path).Ok? && !Exists(At(fs1, path))
    requires SameMembership(fs1, fs2, Collapse(fs1, root, path).value)
    ensures !Exists(At(fs2, path))
  {
    CollapseFindsNearestAncestor(fs1, root, path);
    var a := Collapse(fs1, root, path).value;
    var k := |a|;
    assert k < |path| && path[..k] == a;
    assert path[..k + 1] == a + [path[k]];
    assert !Exists(At(fs2, a + [path[k]]));
    MissingBelow(fs2, Normals(path[..k + 1]), path[k + 1..]);
    NormalsAppend(path[..k + 1], path[k + 1..]);
    assert path == path[..k + 1] + path[k + 1..];
  }

  /** A path the compiler asked about; bundled library files are not part of the repository. */
  datatype Tracked = Bundled | Observed(path: Names)

  function Coordinate(fs: FileSystem, root: Names, safe: Names -> bool, t: Tracked): Result<Option<Names>, ProbeError> {
    match t
    case Bundled => Ok(None)
    case Observed(path) =>
      if !Within(path, root) then Err(OutsideRepository)
      else
        match Collapse(fs, root, path)
        case Err(e) => Err(e)
        case Ok(a) => if safe(a[|root|..]) then Ok(Some(a)) else Err(UnsafePath)
  }

  /** A path is stood in for by its nearest existing ancestor, itself included, exactly when it is
      not bundled, lies in the repository, runs through nothing that is no directory and the
      ancestor may be named. */
  lemma CoordinateIff(fs: FileSystem, root: Names, safe: Names -> bool, t: Tracked, a: Names)
    ensures Coordinate(fs, root, safe, t) == Ok(Some(a)) <==>
      && t.Observed? && root <= a <= t.path
      && Exists(At(fs, a)) && (forall k | |a| < k <= |t.path| :: At(fs, t.path[..k]).Missing?)
      && safe(a[|root|..])
    ensures Coordinate(fs, root, safe, t) == Ok(None) <==> t.Bundled?
  {
    if t.Observed? && Within(t.path, root) {
      CollapseFindsNearestAncestor(fs, root, t.path);
      if root <= a <= t.path && Exists(At(fs, a)) && forall k | |a| < k <= |t.path| :: At(fs, t.path[..k]).Missing? {
        CollapseIs(fs, root, t.path, a);
      }
    }
    hide Collapse;
  }

  lemma {:induction false} CollapseIs(fs: FileSystem, root: Names, path: Names, a: Names)
    requires root <= a <= path && Exists(At(fs, a))
    requires forall k | |a| < k <= |path| :: At(fs, path[..k]).Missing?
    ensures Collapse(fs, root, path) == Ok(a)
    decreases |path|
  {
    assert path[..|path|] == path;
    if a != path {
      var parent := path[..|path| - 1];
      forall k | 0 <= k < |path| ensures parent[..k] == path[..k] { }
      CollapseIs(fs, root, parent, a);
    }
  }

  /** The walk of one tracked path. */
  method NearestExisting(fs: FileSystem, root: Names, start: Names) returns (r: Result<Names, ProbeError>)
    ensures r == Collapse(fs, root, start)
  {
    var path := start;
    while !Exists(At(fs, path))
      invariant Collapse(fs, root, path) == Collapse(fs, root, start)
      decreases |path|
    {
      if At(fs, path).NotDirectory? { return Err(ThroughNonDirectory); }
      if path == root { return Err(RootDisappeared); }
      if path == [] { return Err(OwnerLost); }
      var parent := path[..|path| - 1];
      if !Within(parent, root) { return Err(OwnerLost); }
      path := parent;
    }
    r := Ok(path);
  }

  /** The coordinates that stand in for everything the compiler looked at, except sources;
      None when one of the paths cannot be accounted for. */
  method ObserveTracked(fs: FileSystem, root: Names, safe: Names -> bool, sources: set<Names>, tracked: seq<Tracked>)
    returns (semanticPaths: Option<set<Names>>)
    ensures semanticPaths.Some? <==> forall t | t in tracked :: Coordinate(fs, root, safe, t).Ok?
    ensures semanticPaths.Some? ==> forall a :: a in semanticPaths.value <==>
      a !in sources && exists t | t in tracked :: Coordinate(fs, root, safe, t) == Ok(Some(a))
  {
    hide Collapse;
    var paths: set<Names> := {};
    var i := 0;
    while i < |tracked|
      invariant 0 <= i <= |tracked|
      invariant forall k | 0 <= k < i :: Coordinate(fs, root, safe, tracked[k]).Ok?
      invariant forall a :: a in paths <==>
        a !in sources && exists k | 0 <= k < i :: Coordinate(fs, root, safe, tracked[k]) == Ok(Some(a))
    {
      var t := tracked[i];
      assert t in tracked;
      if t.Observed? {
        if !Within(t.path, root) { return None; }
        var nearest := NearestExisting(fs, root, t.path);
        if nearest.Err? { return None; }
        var a := nearest.value;
        if !safe(a[|root|..]) { return None; }
        if a !in sources { paths := paths + {a}; }
      }
      i := i + 1;
    }
    semanticPaths := Some(paths);
  }

  /** The path can be read as a file: it is one, or a link that leads to one, so that nothing
      can be looked up below it. */
  ghost predicate ReadsAsFile(fs: FileSystem, path: Names) {
    At(fs, path).File? || (At(fs, path).Symlink? && forall name :: At(fs, path + [name]).NotDirectory?)
  }

  /** Nothing stands in for a missing probe but what the coordinates hold: while each of them
      keeps the names directly below it, every probe that was missing still is. */
  lemma TrackedProbesStillAbsent(
    fs1: FileSystem, fs2: FileSystem, root: Names, safe: Names -> bool, sources: set<Names>, tracked: seq<Tracked>,
    semanticPaths: set<Names>, probe: Names)
    requires Coherent(fs1) && Coherent(fs2)
    requires forall s | s in sources :: ReadsAsFile(fs1, s)
    requires forall t | t in tracked :: Coordinate(fs1, root, safe, t).Ok?
    requires forall a :: a in semanticPaths <==>
      a !in sources && exists t | t in tracked :: Coordinate(fs1, root, safe, t) == Ok(Some(a))
    requires Observed(probe) in tracked && !Exists(At(fs1, probe))
    requires forall a | a in semanticPaths :: SameMembership(fs1, fs2, a)
    ensures !Exists(At(fs2, probe))
  {
    var t := Observed(probe);
    assert Coordinate(fs1, root, safe, t).Ok?;
    var a := Collapse(fs1, root, probe).value;
    CollapseFindsNearestAncestor(fs1, root, probe);
    hide Collapse, SameMembership, ReadsAsFile;
    StandInIsNoFile(fs1, a, probe);
    assert a in semanticPaths;
    CollapsedProbeStillAbsent(fs1, fs2, root, probe);
  }

  lemma StandInIsNoFile(fs: FileSystem, a: Names, probe: Names)
    requires Coherent(fs) && a < probe && At(fs, probe[..|a| + 1]).Missing?
    ensures !ReadsAsFile(fs, a)
  {
    var name := probe[|a|];
    assert probe[..|a| + 1] == a + [name];
    assert Normals(a + [name]) == Child(Normals(a), name);
    assert FollowsFrom(fs(Normals(a)), name, fs(Child(Normals(a), name)));
  }
}
