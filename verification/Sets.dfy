/** Facts about finite sets that several modules need. */
module Sets {

  ghost function Pick<T>(s: set<T>): (x: T)
    requires s != {}
    ensures x in s
  {
    var x :| x in s; x
  }

  lemma NoElements<T(!new)>(s: set<T>)
    requires forall x :: x !in s
    ensures s == {}
  {
  }

  lemma SplitSize<T>(a: set<T>, b: set<T>, whole: set<T>)
    requires a !! b && a + b == whole
    ensures |a| + |b| == |whole|
  {
  }

  /** Two sets count their union exactly when they have nothing in common. */
  lemma CoverSize<T>(a: set<T>, b: set<T>)
    ensures |a| + |b| == |a + b| <==> a !! b
  {
    if a * b == {} {
      SplitSize(a, b, a + b);
    } else {
      var x := Pick(a * b);
      assert a + b == (a - {x}) + b;
      assert |a - {x}| == |a| - 1;
      UnionSize(a - {x}, b);
    }
  }

  lemma UnionSize<T>(a: set<T>, b: set<T>)
    ensures |a + b| <= |a| + |b|
  {
    assert a + b == (a - b) + b;
    SplitSize(a - b, b, a + b);
    assert |a - b| <= |a| by { SplitSize(a - b, a * b, a); }
  }

  lemma MapSize<K, V>(m: map<K, V>)
    ensures |m| == |m.Keys|
  {
  }

  lemma MinusPair<T(!new)>(m: multiset<T>, x: T, y: T)
    requires x in m && y in m && x != y
    ensures multiset{x, y} + (m - multiset{x, y}) == m
  {
    forall z ensures (multiset{x, y} + (m - multiset{x, y}))[z] == m[z] {
    }
  }
}
