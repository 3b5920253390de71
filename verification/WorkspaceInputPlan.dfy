/** The workspace-input plan as it runs: the parent walk of the coalescing, and a hasher and
    a budget updated while directories are walked. */
module WorkspaceInputPlan {
  import opened Wrappers
  import opened Bytes
  import opened WorkspaceInputs
  import opened WorkspaceWitness
  import Sorting

  // ---- coalescing ----

  /** The walk from a path to its parents, stopping at a directory that is itself listed. */
  method SurvivesCoalescing(fs: FileSystem, paths: set<Path>, p: Path) returns (kept: bool)
    requires p in paths
    ensures kept <==> Kept(fs, paths, p)
  {
    var k := |p|;
    while k > 0
      invariant 0 <= k <= |p|
      invariant forall j | k <= j < |p| :: !(p[..j] in paths && fs(p[..j]).Directory?)
    {
      k := k - 1;
      if p[..k] in paths && fs(p[..k]).Directory? { return false; }
    }
    kept := true;
  }

  method Coalesce(fs: FileSystem, paths: set<Path>) returns (kept: set<Path>)
    ensures forall p :: p in kept <==> Kept(fs, paths, p)
  {
    kept := {};
    var pending := paths;
    while pending != {}
      invariant pending <= paths
      invariant forall p :: p in kept <==> p in paths - pending && Kept(fs, paths, p)
      decreases |pending|
    {
      var p :| p in pending;
      var survives := SurvivesCoalescing(fs, paths, p);
      if survives { kept := kept + {p}; }
      pending := pending - {p};
    }
  }

  // ---- hashing ----

  const READ_SIZE := 64 * 1024

  /** What has been fed to the digest, and what the walk has used up. */
  class WorkspaceHasher {
    const sha256: seq<byte> -> seq<byte>
    var fields: seq<seq<byte>>
    var entries: int
    var bytes: int

    constructor (sha256: seq<byte> -> seq<byte>)
      ensures this.sha256 == sha256 && fields == [] && Spent() == Budget(0, 0)
    {
      this.sha256 := sha256;
      fields := [];
      entries := 0;
      bytes := 0;
    }

    function Spent(): Budget
      reads this
    {
      Budget(entries, bytes)
    }

    method HashField(value: seq<byte>)
      modifies this`fields
      ensures fields == old(fields) + [value]
    {
      fields := fields + [value];
    }

    method ObserveEntry() returns (ok: bool)
      modifies this`entries
      ensures entries == old(entries) + 1 && ok == (entries <= MAX_ENTRIES)
    {
      entries := entries + 1;
      ok := entries <= MAX_ENTRIES;
    }

    /** A file read chunk by chunk; None as soon as the byte budget is exceeded. */
    method ReadFile(content: seq<byte>) returns (ok: bool)
      requires bytes <= MAX_BYTES
      modifies this`bytes
      ensures ok == (old(bytes) + |content| <= MAX_BYTES)
      ensures ok ==> bytes == old(bytes) + |content|
    {
      var start := 0;
      while start < |content|
        invariant 0 <= start <= |content|
        invariant bytes == old(bytes) + start <= MAX_BYTES
      {
        var read := if |content| - start < READ_SIZE then |content| - start else READ_SIZE;
        bytes := bytes + read;
        if bytes > MAX_BYTES { return false; }
        start := start + read;
      }
      ok := true;
    }

    /** One path and everything below it. */
    method HashWorkspacePath(fs: FileSystem, relative: seq<byte>, path: Path) returns (ok: bool)
      requires bytes <= MAX_BYTES
      modifies this
      ensures ok == Hashed(sha256, fs, relative, path, old(fields), old(Spent())).Some?
      ensures ok ==>
                Hashed(sha256, fs, relative, path, old(fields), old(Spent())) == Some((fields, Spent()))
                && bytes <= MAX_BYTES
      decreases MAX_ENTRIES - entries, 0
    {
      hide Sorting.Sort, NAME_ORDER, HashedAll, ObserveAll, WrittenAll, BigEndian;
      ok := ObserveEntry();
      if !ok { return; }
      HashField(relative);
      match fs(path)
      case Missing =>
        HashField(Ascii("missing"));
        assert fields == old(fields) + [relative, Ascii("missing")];
      case NotDirectory =>
        return false;
      case Symlink(target) =>
        HashField(Ascii("symlink"));
        HashField(target);
        assert fields == old(fields) + [relative, Ascii("symlink"), target];
      case File(content) =>
        HashField(Ascii("file"));
        ok := ReadFile(content);
        if ok {
          HashField(sha256(content));
          assert fields == old(fields) + [relative, Ascii("file"), sha256(content)];
        }
      case Directory(listing) =>
        HashField(Ascii("directory"));
        var names := Sorting.Sort(NAME_ORDER, listing);
        HashField(BigEndian(|names|, 8));
        HashedFolder(sha256, fs, relative, path, old(fields), old(Spent()));
        hide Hashed;
        ok := HashEntries(fs, relative, path, names);
      case Special =>
        return false;
    }

    method HashEntries(fs: FileSystem, relative: seq<byte>, path: Path, names: seq<Name>) returns (ok: bool)
      requires entries <= MAX_ENTRIES && bytes <= MAX_BYTES
      modifies this
      ensures ok == HashedAll(sha256, fs, relative, path, names, old(fields), old(Spent())).Some?
      ensures ok ==>
                HashedAll(sha256, fs, relative, path, names, old(fields), old(Spent())) == Some((fields, Spent()))
                && bytes <= MAX_BYTES
      decreases MAX_ENTRIES - entries, 1
    {
      hide HashedAll, Hashed;
      var i := 0;
      while i < |names|
        invariant 0 <= i <= |names|
        invariant old(entries) <= entries <= MAX_ENTRIES && bytes <= MAX_BYTES
        invariant HashedAll(sha256, fs, relative, path, names[i..], fields, Spent())
               == HashedAll(sha256, fs, relative, path, names, old(fields), old(Spent()))
      {
        HashedNext(sha256, fs, relative, path, names[i..], fields, Spent());
        ok := HashWorkspacePath(fs, RelativeChild(relative, names[i]), Child(path, names[i]));
        if !ok { return; }
        assert names[i..][1..] == names[i + 1..];
        i := i + 1;
      }
      assert names[i..] == [];
      HashedDone(sha256, fs, relative, path, fields, Spent());
      ok := true;
    }
  }

  /** The digest input and the budget after one path. */
  function Hashed(
    sha256: seq<byte> -> seq<byte>, fs: FileSystem, relative: seq<byte>, p: Path, fields: seq<seq<byte>>, b: Budget)
    : (r: Option<(seq<seq<byte>>, Budget)>)
    ensures r.Some? ==> b.entries < r.value.1.entries <= MAX_ENTRIES
  {
    match Observe(fs, p, b)
    case Err(_) => None
    case Ok((tree, after)) => Some((fields + Written(sha256, relative, tree), after))
  }

  function HashedAll(
    sha256: seq<byte> -> seq<byte>, fs: FileSystem, relative: seq<byte>, p: Path, names: seq<Name>,
    fields: seq<seq<byte>>, b: Budget)
    : Option<(seq<seq<byte>>, Budget)>
    requires b.entries <= MAX_ENTRIES
  {
    match ObserveAll(fs, p, names, b)
    case Err(_) => None
    case Ok((trees, after)) => Some((fields + WrittenAll(sha256, relative, trees), after))
  }

  lemma HashedDone(
    sha256: seq<byte> -> seq<byte>, fs: FileSystem, relative: seq<byte>, p: Path, fields: seq<seq<byte>>, b: Budget)
    requires b.entries <= MAX_ENTRIES
    ensures HashedAll(sha256, fs, relative, p, [], fields, b) == Some((fields, b))
  {
    assert fields + [] == fields;
  }

  /** The first name's subtree is hashed, then the rest. */
  lemma HashedNext(
    sha256: seq<byte> -> seq<byte>, fs: FileSystem, relative: seq<byte>, p: Path, names: seq<Name>,
    fields: seq<seq<byte>>, b: Budget)
    requires b.entries <= MAX_ENTRIES && names != []
    ensures var first := Hashed(sha256, fs, RelativeChild(relative, names[0]), Child(p, names[0]), fields, b);
            HashedAll(sha256, fs, relative, p, names, fields, b) ==
              if first.None? then None else HashedAll(sha256, fs, relative, p, names[1..], first.value.0, first.value.1)
  {
    hide Observe, Written;
    if ObserveAll(fs, p, names, b).Ok? {
      var trees := ObserveAll(fs, p, names, b).value.0;
      var first := Observe(fs, Child(p, names[0]), b).value;
      assert trees[1..] == ObserveAll(fs, p, names[1..], first.1).value.0;
      var head := Written(sha256, RelativeChild(relative, names[0]), first.0);
      assert fields + (head + WrittenAll(sha256, relative, trees[1..]))
        == (fields + head) + WrittenAll(sha256, relative, trees[1..]);
    }
  }

  lemma HashedFolder(
    sha256: seq<byte> -> seq<byte>, fs: FileSystem, relative: seq<byte>, p: Path, fields: seq<seq<byte>>, b: Budget)
    requires fs(p).Directory? && b.entries + 1 <= MAX_ENTRIES
    ensures var names := Sorting.Sort(NAME_ORDER, fs(p).listing);
            Hashed(sha256, fs, relative, p, fields, b) == HashedAll(
              sha256, fs, relative, p, names,
              fields + [relative] + [Ascii("directory")] + [BigEndian(|names|, 8)],
              b.(entries := b.entries + 1))
  {
    hide Sorting.Sort, NAME_ORDER, ObserveAll, WrittenAll, BigEndian;
    var names := Sorting.Sort(NAME_ORDER, fs(p).listing);
    var all := ObserveAll(fs, p, names, b.(entries := b.entries + 1));
    if all.Ok? {
      var rest := WrittenAll(sha256, relative, all.value.0);
      var head := [relative, Ascii("directory"), BigEndian(|names|, 8)];
      assert fields + (head + rest) == fields + [relative] + [Ascii("directory")] + [BigEndian(|names|, 8)] + rest;
    }
  }

  // ---- the digest of a plan ----

  /** The field stream of a plan whose inputs can all be observed; None otherwise. */
  method ObservePlan(
    sha256: seq<byte> -> seq<byte>, plan: Plan, fs: FileSystem, env: Environment, lossy: seq<byte> -> seq<byte>)
    returns (stream: Option<seq<seq<byte>>>)
    ensures stream.Some? == PlanStream(sha256, plan, fs, env, lossy).Ok?
    ensures stream.Some? ==> stream.value == PlanStream(sha256, plan, fs, env, lossy).value
  {
    hide Observe, Written, BigEndian, SCHEMA, PathBytes;
    var hasher := new WorkspaceHasher(sha256);
    hasher.HashField(SCHEMA);
    hasher.HashField(BigEndian(|plan.paths|, 8));
    assert hasher.fields == [SCHEMA, BigEndian(|plan.paths|, 8)] && plan.paths[0..] == plan.paths;
    var i := 0;
    while i < |plan.paths|
      invariant 0 <= i <= |plan.paths| && hasher.bytes <= MAX_BYTES && hasher.sha256 == sha256
      invariant PathsHashed(sha256, fs, plan.paths[i..], hasher.fields, hasher.Spent())
             == PathsHashed(sha256, fs, plan.paths, [SCHEMA, BigEndian(|plan.paths|, 8)], Budget(0, 0))
    {
      var path := plan.paths[i];
      PathsHashedNext(sha256, fs, plan.paths[i..], hasher.fields, hasher.Spent());
      hide PathsHashed, Hashed;
      hasher.HashField(PathBytes(path));
      var ok := hasher.HashWorkspacePath(fs, [], path);
      if !ok {
        PathsHashedMeaning(sha256, fs, plan.paths, [SCHEMA, BigEndian(|plan.paths|, 8)], Budget(0, 0));
        return None;
      }
      assert plan.paths[i..][1..] == plan.paths[i + 1..];
      i := i + 1;
    }
    assert plan.paths[i..] == [];
    PathsHashedMeaning(sha256, fs, plan.paths, [SCHEMA, BigEndian(|plan.paths|, 8)], Budget(0, 0));
    stream := HashEnvironment(plan.environment, env, lossy, hasher.fields + [BigEndian(|plan.environment|, 8)]);
  }

  /** The digest input after a list of paths. */
  function PathsHashed(
    sha256: seq<byte> -> seq<byte>, fs: FileSystem, paths: seq<Path>, fields: seq<seq<byte>>, b: Budget)
    : Option<seq<seq<byte>>>
  {
    if paths == [] then Some(fields)
    else
      match Hashed(sha256, fs, [], paths[0], fields + [PathBytes(paths[0])], b)
      case None => None
      case Some((more, after)) => PathsHashed(sha256, fs, paths[1..], more, after)
  }

  lemma PathsHashedNext(
    sha256: seq<byte> -> seq<byte>, fs: FileSystem, paths: seq<Path>, fields: seq<seq<byte>>, b: Budget)
    requires paths != []
    ensures var first := Hashed(sha256, fs, [], paths[0], fields + [PathBytes(paths[0])], b);
            PathsHashed(sha256, fs, paths, fields, b) ==
              if first.None? then None else PathsHashed(sha256, fs, paths[1..], first.value.0, first.value.1)
  {
  }

  lemma {:induction false} PathsHashedMeaning(
    sha256: seq<byte> -> seq<byte>, fs: FileSystem, paths: seq<Path>, fields: seq<seq<byte>>, b: Budget)
    ensures var trees := ObservePaths(fs, paths, b);
            && (trees.Ok? ==> |trees.value| == |paths|)
            && PathsHashed(sha256, fs, paths, fields, b) ==
                 if trees.Ok? then Some(fields + PathFields(sha256, paths, trees.value)) else None
  {
    hide Observe, Written, PathBytes;
    if paths == [] {
      assert fields + [] == fields;
    } else if Observe(fs, paths[0], b).Ok? {
      var first := Observe(fs, paths[0], b).value;
      var head := [PathBytes(paths[0])] + Written(sha256, [], first.0);
      assert fields + [PathBytes(paths[0])] + Written(sha256, [], first.0) == fields + head;
      PathsHashedMeaning(sha256, fs, paths[1..], fields + head, first.1);
      if ObservePaths(fs, paths[1..], first.1).Ok? {
        var rest := ObservePaths(fs, paths[1..], first.1).value;
        assert ([first.0] + rest)[1..] == rest;
        assert fields + (head + PathFields(sha256, paths[1..], rest))
          == (fields + head) + PathFields(sha256, paths[1..], rest);
      }
    }
  }

  method HashEnvironment(
    variables: seq<Variable>, env: Environment, lossy: seq<byte> -> seq<byte>, fields: seq<seq<byte>>)
    returns (stream: Option<seq<seq<byte>>>)
    ensures stream == if EnvironmentUnchanged(variables, env, lossy)
      then Some(fields + EnvironmentFields(variables, env)) else None
  {
    var written := fields;
    var i := 0;
    while i < |variables|
      invariant 0 <= i <= |variables|
      invariant EnvironmentUnchanged(variables[..i], env, lossy)
      invariant written + EnvironmentFields(variables[i..], env) == fields + EnvironmentFields(variables, env)
    {
      var v := variables[i];
      var current := env(v.name);
      var currentText := if current.None? then None else Some(lossy(current.value));
      if currentText != v.recorded {
        assert v in variables;
        return None;
      }
      assert variables[i..][1..] == variables[i + 1..] && variables[i..][0] == v;
      var head := if current.None? then [v.name, Ascii("missing")] else [v.name, Ascii("present"), current.value];
      assert EnvironmentFields(variables[i..], env) == head + EnvironmentFields(variables[i + 1..], env);
      assert written + (head + EnvironmentFields(variables[i + 1..], env))
        == (written + head) + EnvironmentFields(variables[i + 1..], env);
      written := written + head;
      i := i + 1;
    }
    assert variables[..i] == variables && variables[i..] == [];
    assert written + [] == written;
    stream := Some(written);
  }
}
