/** Paths as Rust compares them on Unix: component by component, not byte by byte. */
module PathComponents {
  import opened Bytes
  import opened Splitting

  /** In the order in which unlike components sort. */
  datatype Component = RootDir | CurDir | ParentDir | Normal(name: seq<byte>)

  const SLASH: byte := 47
  const DOT: byte := 46

  /** What stands between the slashes. */
  function Pieces(path: seq<byte>): (r: seq<seq<byte>>)
    ensures r != []
  {
    SplitOn(path, SLASH)
  }

  /** Empty pieces and dots say nothing. */
  function Names(pieces: seq<seq<byte>>): seq<Component> {
    if pieces == [] then []
    else
      var rest := Names(pieces[1..]);
      if pieces[0] == [] || pieces[0] == [DOT] then rest
      else if pieces[0] == [DOT, DOT] then [ParentDir] + rest
      else [Normal(pieces[0])] + rest
  }

  /** A leading slash makes a path absolute; a leading dot counts in a path that is not. */
  function Anchor(path: seq<byte>): seq<Component> {
    if path != [] && path[0] == SLASH then [RootDir]
    else if Pieces(path)[0] == [DOT] then [CurDir]
    else []
  }

  function Components(path: seq<byte>): seq<Component> {
    Anchor(path) + Names(Pieces(path))
  }

  // ---- the order ----

  function Rank(c: Component): int {
    match c
    case RootDir => 0
    case CurDir => 1
    case ParentDir => 2
    case Normal(_) => 3
  }

  predicate ComponentLeq(a: Component, b: Component) {
    if a.Normal? && b.Normal? then BytesLeq(a.name, b.name) else Rank(a) <= Rank(b)
  }

  predicate PathLeq(a: seq<Component>, b: seq<Component>) {
    || a == []
    || (b != [] && if a[0] == b[0] then PathLeq(a[1..], b[1..]) else ComponentLeq(a[0], b[0]))
  }

  /** A root is before a dot, a dot before two, two dots before a name, and a name before those
      that follow it in byte order. */
  ghost predicate ComponentPrecedes(a: Component, b: Component) {
    match a
    case RootDir => b != RootDir
    case CurDir => b == ParentDir || b.Normal?
    case ParentDir => b.Normal?
    case Normal(name) => b.Normal? && Precedes(name, b.name)
  }

  /** One path ends where the other goes on, or has the earlier component where they part. */
  ghost predicate PathPrecedes(a: seq<Component>, b: seq<Component>) {
    || (a <= b && a != b)
    || exists k: nat :: k < |a| && k < |b| && a[..k] == b[..k] && ComponentPrecedes(a[k], b[k])
  }

  lemma ComponentLeqIff(a: Component, b: Component)
    ensures ComponentLeq(a, b) <==> a == b || ComponentPrecedes(a, b)
  {
    if a.Normal? && b.Normal? { BytesLeqIff(a.name, b.name); }
    hide BytesLeq, Precedes;
  }

  lemma PrecedesApart(a: Component, b: Component)
    ensures ComponentPrecedes(a, b) ==> a != b
  {
    if a.Normal? { NotBeforeItself(a.name); }
    hide Precedes;
  }

  lemma NotBeforeItself(name: seq<byte>)
    ensures !Precedes(name, name)
  {
  }

  lemma {:induction false} PathLeqIff(a: seq<Component>, b: seq<Component>)
    ensures PathLeq(a, b) <==> a == b || PathPrecedes(a, b)
  {
    hide ComponentLeq, ComponentPrecedes;
    if a != [] && b != [] {
      ComponentLeqIff(a[0], b[0]);
      PrecedesApart(a[0], b[0]);
      assert a == [a[0]] + a[1..] && b == [b[0]] + b[1..];
      if a[0] == b[0] {
        PathLeqIff(a[1..], b[1..]);
        SamePart(a, b);
      } else {
        Parting(a, b);
      }
    } else if a == [] && b != [] {
      assert a <= b;
    }
  }

  lemma SamePart(a: seq<Component>, b: seq<Component>)
    requires a != [] && b != [] && a[0] == b[0]
    ensures PathPrecedes(a, b) <==> PathPrecedes(a[1..], b[1..])
  {
    PrecedesApart(a[0], b[0]);
    hide ComponentPrecedes;
    assert a == [a[0]] + a[1..] && b == [b[0]] + b[1..];
    if k: nat :| k < |a[1..]| && k < |b[1..]| && a[1..][..k] == b[1..][..k] && ComponentPrecedes(a[1..][k], b[1..][k]) {
      assert a[..k + 1] == [a[0]] + a[1..][..k] && b[..k + 1] == [b[0]] + b[1..][..k];
      assert ComponentPrecedes(a[k + 1], b[k + 1]);
    }
    if k: nat :| k < |a| && k < |b| && a[..k] == b[..k] && ComponentPrecedes(a[k], b[k]) {
      assert a[1..][..k - 1] == a[..k][1..] && b[1..][..k - 1] == b[..k][1..];
      assert ComponentPrecedes(a[1..][k - 1], b[1..][k - 1]);
    }
  }

  lemma Parting(a: seq<Component>, b: seq<Component>)
    requires a != [] && b != [] && a[0] != b[0]
    ensures PathPrecedes(a, b) <==> ComponentPrecedes(a[0], b[0])
  {
    hide ComponentPrecedes;
    if ComponentPrecedes(a[0], b[0]) { assert a[..0] == b[..0]; }
    if k: nat :| k < |a| && k < |b| && a[..k] == b[..k] && ComponentPrecedes(a[k], b[k]) {
      SameStart(a, b, k);
    }
  }

  lemma SameStart(a: seq<Component>, b: seq<Component>, k: nat)
    requires k <= |a| && k <= |b| && a[..k] == b[..k]
    ensures k > 0 ==> a[0] == b[0]
  {
    if k > 0 { assert a[..k][0] == b[..k][0]; }
  }

  lemma ComponentLaws(a: Component, b: Component, c: Component)
    ensures ComponentLeq(a, b) || ComponentLeq(b, a)
    ensures ComponentLeq(a, b) && ComponentLeq(b, a) ==> a == b
    ensures ComponentLeq(a, b) && ComponentLeq(b, c) ==> ComponentLeq(a, c)
  {
    if a.Normal? && b.Normal? { BytesLeqLaws(a.name, b.name, if c.Normal? then c.name else []); }
    hide BytesLeq;
  }

  lemma {:induction false} PathLeqTotal(a: seq<Component>, b: seq<Component>)
    ensures PathLeq(a, b) || PathLeq(b, a)
  {
    hide ComponentLeq;
    if a != [] && b != [] {
      ComponentLaws(a[0], b[0], a[0]);
      if a[0] == b[0] { PathLeqTotal(a[1..], b[1..]); }
    }
  }

  lemma {:induction false} PathLeqAntisymmetric(a: seq<Component>, b: seq<Component>)
    requires PathLeq(a, b) && PathLeq(b, a)
    ensures a == b
  {
    hide ComponentLeq;
    if a != [] && b != [] {
      ComponentLaws(a[0], b[0], a[0]);
      PathLeqAntisymmetric(a[1..], b[1..]);
      assert a == [a[0]] + a[1..] && b == [b[0]] + b[1..];
    }
  }

  lemma {:induction false} PathLeqTransitive(a: seq<Component>, b: seq<Component>, c: seq<Component>)
    requires PathLeq(a, b) && PathLeq(b, c)
    ensures PathLeq(a, c)
  {
    hide ComponentLeq;
    if a != [] {
      ComponentLaws(a[0], b[0], c[0]);
      if a[0] == b[0] == c[0] {
        PathLeqTransitive(a[1..], b[1..], c[1..]);
      } else {
        ComponentLaws(a[0], c[0], b[0]);
        ComponentLaws(b[0], c[0], a[0]);
      }
    }
  }

  // ---- joining ----

  lemma PiecesJoin(p: seq<byte>, q: seq<byte>)
    ensures Pieces(p + [SLASH] + q) == Pieces(p) + Pieces(q)
  {
    SplitJoin(p, SLASH, q);
  }

  lemma {:induction false} NamesJoin(a: seq<seq<byte>>, b: seq<seq<byte>>)
    ensures Names(a + b) == Names(a) + Names(b)
  {
    if a == [] {
      assert a + b == b;
    } else {
      assert (a + b)[1..] == a[1..] + b;
      NamesJoin(a[1..], b);
    }
  }

  /** What follows a slash adds its names to what is before it, and nothing else. */
  lemma ComponentsJoin(p: seq<byte>, q: seq<byte>)
    requires p != []
    ensures Components(p + [SLASH] + q) == Components(p) + Names(Pieces(q))
  {
    AnchorJoin(p, q);
    PiecesJoin(p, q);
    NamesJoin(Pieces(p), Pieces(q));
    hide Anchor, Pieces, Names;
    Regrouped(Anchor(p), Names(Pieces(p)), Names(Pieces(q)));
  }

  lemma Regrouped<T>(a: seq<T>, b: seq<T>, c: seq<T>)
    ensures a + (b + c) == a + b + c
  {
  }

  lemma AnchorJoin(p: seq<byte>, q: seq<byte>)
    requires p != []
    ensures Anchor(p + [SLASH] + q) == Anchor(p)
  {
    PiecesJoin(p, q);
    hide Pieces;
    FirstOfJoin(p, [SLASH], q);
    FirstOfJoin(Pieces(p), Pieces(q), []);
    assert Pieces(p) + Pieces(q) + [] == Pieces(p) + Pieces(q);
  }

  lemma FirstOfJoin<T>(a: seq<T>, b: seq<T>, c: seq<T>)
    requires a != []
    ensures (a + b + c)[0] == a[0]
  {
  }

  /** Paths that differ in bytes only: a slash twice, a dot in between. */
  lemma SamePath(p: seq<byte>, q: seq<byte>)
    requires p != []
    ensures Components(p + [SLASH] + ([SLASH] + q)) == Components(p + [SLASH] + q)
    ensures Components(p + [SLASH] + ([DOT, SLASH] + q)) == Components(p + [SLASH] + q)
  {
    ComponentsJoin(p, q);
    ComponentsJoin(p, [SLASH] + q);
    ComponentsJoin(p, [DOT, SLASH] + q);
    hide Components;
    PiecesJoin([], q);
    PiecesJoin([DOT], q);
    assert [] + [SLASH] + q == [SLASH] + q && [DOT] + [SLASH] + q == [DOT, SLASH] + q;
    NamesJoin(Pieces([]), Pieces(q));
    NamesJoin(Pieces([DOT]), Pieces(q));
    NothingNamed();
  }

  lemma NothingNamed()
    ensures Names(Pieces([])) == [] && Names(Pieces([DOT])) == []
  {
    assert Pieces([]) == [[]];
    assert [DOT][1..] == [];
    var rest := Pieces([]);
    assert rest[1..] == [] && [DOT] + rest[0] == [DOT];
    assert Pieces([DOT]) == [[DOT] + rest[0]] + rest[1..] == [[DOT]];
  }

  /** A directory's files stand before a file whose name continues the directory's. */
  lemma {:induction false} ChildrenFirst(
    directory: seq<Component>, name: seq<byte>, more: seq<byte>, below: seq<Component>)
    requires more != []
    ensures PathLeq(directory + [Normal(name)] + below, directory + [Normal(name + more)])
    ensures !PathLeq(directory + [Normal(name + more)], directory + [Normal(name)] + below)
  {
    var a, b := directory + [Normal(name)] + below, directory + [Normal(name + more)];
    PrefixLeq(name, more);
    if directory != [] {
      ChildrenFirst(directory[1..], name, more, below);
      assert a[1..] == directory[1..] + [Normal(name)] + below && b[1..] == directory[1..] + [Normal(name + more)];
    }
    hide BytesLeq;
  }

  lemma {:induction false} PrefixLeq(name: seq<byte>, more: seq<byte>)
    requires more != []
    ensures BytesLeq(name, name + more) && !BytesLeq(name + more, name)
  {
    if name != [] {
      assert (name + more)[1..] == name[1..] + more;
      PrefixLeq(name[1..], more);
    }
  }
}
