/** The Cargo build inputs a Rust session holds on to: what is observed of each path, how the
    observation is written to the digest, and why fewer paths witness as much. */
module WorkspaceInputs {
  import opened Wrappers
  import opened Bytes
  import Sorting

  type Name = seq<byte>

  /** A path component as the path is written; `Up` is the parent-directory component. */
  datatype Component = Normal(name: Name) | Up

  type Path = seq<Component>

  /** What lstat and a listing show at a path. `NotDirectory` is the error for a path that
      goes through something that is not a directory. */
  datatype Entry =
    | Missing
    | NotDirectory
    | Symlink(target: seq<byte>)
    | File(content: seq<byte>)
    | Directory(listing: seq<Name>)
    | Special

  type FileSystem = Path -> Entry

  function Child(p: Path, name: Name): Path {
    p + [Normal(name)]
  }

  ghost predicate Distinct(names: seq<Name>) {
    forall i, j | 0 <= i < j < |names| :: names[i] != names[j]
  }

  /** What lies below an entry, as far as no symlink or parent component is crossed. */
  ghost predicate FollowsFrom(above: Entry, name: Name, entry: Entry) {
    match above
    case Missing => entry == Missing
    case NotDirectory => entry == NotDirectory
    case File(_) => entry == NotDirectory
    case Special => entry == NotDirectory
    case Symlink(_) => true
    case Directory(listing) => entry != NotDirectory && (entry == Missing <==> name !in listing)
  }

  ghost predicate Coherent(fs: FileSystem) {
    && (forall p :: fs(p).Directory? ==> Distinct(fs(p).listing))
    && (forall p, name {:trigger Child(p, name)} :: FollowsFrom(fs(p), name, fs(Child(p, name))))
  }

  // ---- the recursive observation ----

  datatype Tree = Absent | Link(target: seq<byte>) | Plain(content: seq<byte>) | Folder(entries: seq<Named>)

  datatype Named = Named(name: Name, tree: Tree)

  datatype Budget = Budget(entries: int, bytes: int)

  datatype Failure = TooManyEntries | TooManyBytes | Uninspectable | Unsupported | EnvironmentChanged

  const MAX_ENTRIES := 2_000_000
  const MAX_BYTES := 64 * 1024 * 1024 * 1024

  const NAME_ORDER: (Name, Name) -> bool := (a: Name, b: Name) => BytesLeq(a, b)

  lemma NameOrderTotal()
    ensures Sorting.TotalOrder(NAME_ORDER)
  {
    forall a: Name, b: Name, c: Name
      ensures NAME_ORDER(a, b) || NAME_ORDER(b, a)
      ensures NAME_ORDER(a, b) && NAME_ORDER(b, a) ==> a == b
      ensures NAME_ORDER(a, b) && NAME_ORDER(b, c) ==> NAME_ORDER(a, c)
    {
      BytesLeqLaws(a, b, c);
    }
  }

  function Observe(fs: FileSystem, p: Path, budget: Budget): (r: Result<(Tree, Budget), Failure>)
    ensures r.Ok? ==> budget.entries < r.value.1.entries <= MAX_ENTRIES && budget.bytes <= r.value.1.bytes
    decreases MAX_ENTRIES - budget.entries, 0
  {
    if budget.entries + 1 > MAX_ENTRIES then Err(TooManyEntries)
    else
      var counted := budget.(entries := budget.entries + 1);
      match fs(p)
      case Missing => Ok((Absent, counted))
      case NotDirectory => Err(Uninspectable)
      case Symlink(target) => Ok((Link(target), counted))
      case File(content) =>
        if counted.bytes + |content| > MAX_BYTES then Err(TooManyBytes)
        else Ok((Plain(content), counted.(bytes := counted.bytes + |content|)))
      case Directory(listing) =>
        (match ObserveAll(fs, p, Sorting.Sort(NAME_ORDER, listing), counted)
         case Err(e) => Err(e)
         case Ok((entries, after)) => Ok((Folder(entries), after)))
      case Special => Err(Unsupported)
  }

  function ObserveAll(
    fs: FileSystem, p: Path, names: seq<Name>, budget: Budget): (r: Result<(seq<Named>, Budget), Failure>)
    requires budget.entries <= MAX_ENTRIES
    ensures r.Ok? ==> budget.entries <= r.value.1.entries <= MAX_ENTRIES && budget.bytes <= r.value.1.bytes
    ensures r.Ok? ==> |r.value.0| == |names| && forall i | 0 <= i < |names| :: r.value.0[i].name == names[i]
    decreases MAX_ENTRIES - budget.entries, |names| + 1
  {
    if names == [] then Ok(([], budget))
    else
      match Observe(fs, Child(p, names[0]), budget)
      case Err(e) => Err(e)
      case Ok((tree, middle)) =>
        match ObserveAll(fs, p, names[1..], middle)
        case Err(e) => Err(e)
        case Ok((rest, after)) => Ok(([Named(names[0], tree)] + rest, after))
  }

  // ---- what is written to the digest ----

  function RelativeChild(relative: seq<byte>, name: Name): seq<byte> {
    if relative == [] then name else relative + [47] + name
  }

  /** The fields written for a tree, each led by the path relative to the observed root. */
  function Written(sha256: seq<byte> -> seq<byte>, relative: seq<byte>, t: Tree): seq<seq<byte>>
    decreases t
  {
    match t
    case Absent => [relative, Ascii("missing")]
    case Link(target) => [relative, Ascii("symlink"), target]
    case Plain(content) => [relative, Ascii("file"), sha256(content)]
    case Folder(entries) =>
      [relative, Ascii("directory"), BigEndian(|entries|, 8)] + WrittenAll(sha256, relative, entries)
  }

  function WrittenAll(sha256: seq<byte> -> seq<byte>, relative: seq<byte>, entries: seq<Named>): seq<seq<byte>>
    decreases entries
  {
    if entries == [] then [] else
      Written(sha256, RelativeChild(relative, entries[0].name), entries[0].tree)
      + WrittenAll(sha256, relative, entries[1..])
  }

  /** No directory lists 2^64 names. */
  predicate Countable(t: Tree) {
    match t
    case Folder(entries) => |entries| < U64_LIMIT && forall e | e in entries :: Countable(e.tree)
    case _ => true
  }

  ghost predicate CollisionFree(sha256: seq<byte> -> seq<byte>) {
    forall a, b :: sha256(a) == sha256(b) ==> a == b
  }

  lemma TagsDiffer()
    ensures var tags := [Ascii("missing"), Ascii("symlink"), Ascii("file"), Ascii("directory")];
            forall i, j | 0 <= i < j < 4 :: tags[i] != tags[j]
  {
    assert Ascii("missing")[0] == 109 && Ascii("symlink")[0] == 115;
  }

  lemma RelativeChildInjective(relative: seq<byte>, a: Name, b: Name)
    requires RelativeChild(relative, a) == RelativeChild(relative, b)
    ensures a == b
  {
    if relative != [] {
      Split(relative + [47], a, relative + [47], b);
    }
  }

  /** The fields of a tree, and whatever follows them, can be told apart: the stream is
      uniquely decodable. */
  lemma {:induction false} WrittenCancel(
    sha256: seq<byte> -> seq<byte>, a: seq<byte>, s: Tree, x: seq<seq<byte>>, b: seq<byte>, t: Tree, y: seq<seq<byte>>)
    requires CollisionFree(sha256) && Countable(s) && Countable(t)
    requires Written(sha256, a, s) + x == Written(sha256, b, t) + y
    ensures a == b && s == t && x == y
    decreases s, 0
  {
    TagsDiffer();
    var tags := [Ascii("missing"), Ascii("symlink"), Ascii("file"), Ascii("directory")];
    assert tags[0] != tags[1] && tags[0] != tags[2] && tags[0] != tags[3] && tags[1] != tags[2] && tags[1] != tags[3]
      && tags[2] != tags[3];
    var whole := Written(sha256, a, s) + x;
    assert whole[0] == a && whole[0] == b;
    assert whole[1] == Written(sha256, a, s)[1] == Written(sha256, b, t)[1];
    match s
    case Absent =>
      assert x == whole[2..] && y == whole[2..];
    case Link(_) =>
      assert whole[2] == Written(sha256, a, s)[2] == Written(sha256, b, t)[2];
      assert x == whole[3..] && y == whole[3..];
    case Plain(_) =>
      assert whole[2] == Written(sha256, a, s)[2] == Written(sha256, b, t)[2];
      assert x == whole[3..] && y == whole[3..];
    case Folder(es) =>
      FolderCancel(sha256, a, es, x, t.entries, y);
  }

  lemma {:induction false} FolderCancel(
    sha256: seq<byte> -> seq<byte>, a: seq<byte>, es: seq<Named>, x: seq<seq<byte>>, fs: seq<Named>, y: seq<seq<byte>>)
    requires CollisionFree(sha256) && Countable(Folder(es)) && Countable(Folder(fs))
    requires Written(sha256, a, Folder(es)) + x == Written(sha256, a, Folder(fs)) + y
    ensures es == fs && x == y
    decreases es, |es| + 1
  {
    hide CollisionFree, BigEndian, FromBigEndian;
    var head := [a, Ascii("directory"), BigEndian(|es|, 8)];
    var head' := [a, Ascii("directory"), BigEndian(|fs|, 8)];
    assert Written(sha256, a, Folder(es)) + x == head + (WrittenAll(sha256, a, es) + x);
    assert Written(sha256, a, Folder(fs)) + y == head' + (WrittenAll(sha256, a, fs) + y);
    Split(head, WrittenAll(sha256, a, es) + x, head', WrittenAll(sha256, a, fs) + y);
    assert head[2] == head'[2];
    WordWidths();
    BigEndianRoundTrip(|es|, 8);
    BigEndianRoundTrip(|fs|, 8);
    WrittenAllCancel(sha256, a, es, x, fs, y);
  }

  lemma {:induction false} WrittenAllCancel(
    sha256: seq<byte> -> seq<byte>, a: seq<byte>, es: seq<Named>, x: seq<seq<byte>>, fs: seq<Named>, y: seq<seq<byte>>)
    requires CollisionFree(sha256) && |es| == |fs|
    requires (forall e | e in es :: Countable(e.tree)) && (forall f | f in fs :: Countable(f.tree))
    requires WrittenAll(sha256, a, es) + x == WrittenAll(sha256, a, fs) + y
    ensures es == fs && x == y
    decreases es, |es|
  {
    if es == [] {
      assert WrittenAll(sha256, a, es) + x == x && WrittenAll(sha256, a, fs) + y == y;
    } else {
      hide CollisionFree, Written;
      var e, f := es[0], fs[0];
      HeadWritten(sha256, a, es, x);
      HeadWritten(sha256, a, fs, y);
      assert e in es && f in fs;
      hide WrittenAll, Countable, RelativeChild;
      WrittenCancel(
        sha256,
        RelativeChild(a, e.name), e.tree, WrittenAll(sha256, a, es[1..]) + x,
        RelativeChild(a, f.name), f.tree, WrittenAll(sha256, a, fs[1..]) + y);
      RelativeChildInjective(a, e.name, f.name);
      WrittenAllCancel(sha256, a, es[1..], x, fs[1..], y);
      assert es == [e] + es[1..] && fs == [f] + fs[1..];
    }
  }

  lemma HeadWritten(sha256: seq<byte> -> seq<byte>, a: seq<byte>, es: seq<Named>, x: seq<seq<byte>>)
    requires es != []
    ensures WrittenAll(sha256, a, es) + x
         == Written(sha256, RelativeChild(a, es[0].name), es[0].tree) + (WrittenAll(sha256, a, es[1..]) + x)
  {
    hide Written;
  }

  // ---- what one observation costs ----

  lemma {:induction false} ObservedCountable(fs: FileSystem, p: Path, b: Budget)
    requires 0 <= b.entries && Observe(fs, p, b).Ok?
    ensures Countable(Observe(fs, p, b).value.0)
    decreases MAX_ENTRIES - b.entries, 0
  {
    hide Sorting.Sort, NAME_ORDER;
    if fs(p).Directory? {
      ObservedAllCountable(fs, p, Sorting.Sort(NAME_ORDER, fs(p).listing), b.(entries := b.entries + 1));
      hide ObserveAll;
    }
  }

  lemma {:induction false} ObservedAllCountable(fs: FileSystem, p: Path, names: seq<Name>, b: Budget)
    requires 0 <= b.entries <= MAX_ENTRIES && ObserveAll(fs, p, names, b).Ok?
    ensures var (entries, after) := ObserveAll(fs, p, names, b).value;
            && b.entries + |entries| <= after.entries
            && forall e | e in entries :: Countable(e.tree)
    decreases MAX_ENTRIES - b.entries, |names| + 1
  {
    if names != [] {
      var first := Observe(fs, Child(p, names[0]), b).value;
      ObservedCountable(fs, Child(p, names[0]), b);
      hide Observe, Countable;
      ObservedAllCountable(fs, p, names[1..], first.1);
    }
  }

  // ---- the whole plan ----

  datatype Variable = Variable(name: seq<byte>, recorded: Option<seq<byte>>)

  type Environment = seq<byte> -> Option<seq<byte>>

  datatype Plan = Plan(paths: seq<Path>, environment: seq<Variable>)

  const SCHEMA := Ascii("h00/rust-workspace-inputs/v1") + [0]

  function ComponentBytes(c: Component): seq<byte> {
    match c
    case Normal(name) => name
    case Up => [46, 46]
  }

  function PathBytes(p: Path): seq<byte> {
    if p == [] then [47]
    else if |p| == 1 then [47] + ComponentBytes(p[0])
    else PathBytes(p[..|p| - 1]) + [47] + ComponentBytes(p[|p| - 1])
  }

  function ObservePaths(fs: FileSystem, paths: seq<Path>, budget: Budget): (r: Result<seq<Tree>, Failure>)
    ensures r.Ok? ==> |r.value| == |paths|
  {
    if paths == [] then Ok([])
    else
      match Observe(fs, paths[0], budget)
      case Err(e) => Err(e)
      case Ok((tree, after)) =>
        match ObservePaths(fs, paths[1..], after)
        case Err(e) => Err(e)
        case Ok(rest) => Ok([tree] + rest)
  }

  function PathFields(sha256: seq<byte> -> seq<byte>, paths: seq<Path>, trees: seq<Tree>): seq<seq<byte>>
    requires |paths| == |trees|
  {
    if paths == [] then []
    else [PathBytes(paths[0])] + Written(sha256, [], trees[0]) + PathFields(sha256, paths[1..], trees[1..])
  }

  /** Every variable still reads as Cargo recorded it, in the lossy text Cargo records. */
  predicate EnvironmentUnchanged(variables: seq<Variable>, env: Environment, lossy: seq<byte> -> seq<byte>) {
    forall v | v in variables ::
      v.recorded == match env(v.name)
        case None => None
        case Some(value) => Some(lossy(value))
  }

  function EnvironmentFields(variables: seq<Variable>, env: Environment): seq<seq<byte>> {
    if variables == [] then []
    else
      (match env(variables[0].name)
       case None => [variables[0].name, Ascii("missing")]
       case Some(value) => [variables[0].name, Ascii("present"), value])
      + EnvironmentFields(variables[1..], env)
  }

  /** The field stream the plan's digest is computed over, or why there is none. */
  function PlanStream(
    sha256: seq<byte> -> seq<byte>, plan: Plan, fs: FileSystem, env: Environment, lossy: seq<byte> -> seq<byte>)
    : Result<seq<seq<byte>>, Failure>
  {
    match ObservePaths(fs, plan.paths, Budget(0, 0))
    case Err(e) => Err(e)
    case Ok(trees) =>
      if !EnvironmentUnchanged(plan.environment, env, lossy) then Err(EnvironmentChanged)
      else Ok([SCHEMA, BigEndian(|plan.paths|, 8)] + PathFields(sha256, plan.paths, trees)
              + [BigEndian(|plan.environment|, 8)] + EnvironmentFields(plan.environment, env))
  }
}
