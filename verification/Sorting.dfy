/** Sorting under a caller-supplied total order: what every `sort_by` and `sorted`
    call of the repository is taken to guarantee. */
module Sorting {

  /** Enough of an order to sort by; distinct elements may tie. */
  ghost predicate TotalPreorder<T(!new)>(leq: (T, T) -> bool) {
    && (forall a, b :: leq(a, b) || leq(b, a))
    && (forall a, b, c :: leq(a, b) && leq(b, c) ==> leq(a, c))
  }

  ghost predicate TotalOrder<T(!new)>(leq: (T, T) -> bool) {
    && TotalPreorder(leq)
    && (forall a, b :: leq(a, b) && leq(b, a) ==> a == b)
  }

  ghost predicate Sorted<T>(leq: (T, T) -> bool, s: seq<T>) {
    forall i, j | 0 <= i < j < |s| :: leq(s[i], s[j])
  }

  function Insert<T>(leq: (T, T) -> bool, x: T, s: seq<T>): (r: seq<T>)
    ensures multiset(r) == multiset{x} + multiset(s)
  {
    if s == [] then [x]
    else if leq(x, s[0]) then [x] + s
    else
      assert s == [s[0]] + s[1..];
      [s[0]] + Insert(leq, x, s[1..])
  }

  lemma InsertUnfolds<T>(leq: (T, T) -> bool, x: T, s: seq<T>)
    ensures Insert(leq, x, s) == if s == [] || leq(x, s[0]) then [x] + s else [s[0]] + Insert(leq, x, s[1..])
  {
  }

  function Sort<T>(leq: (T, T) -> bool, s: seq<T>): (r: seq<T>)
    ensures multiset(r) == multiset(s)
  {
    if s == [] then []
    else
      assert s == [s[0]] + s[1..];
      Insert(leq, s[0], Sort(leq, s[1..]))
  }

  lemma SameElements<T>(s: seq<T>, t: seq<T>)
    requires multiset(s) == multiset(t)
    ensures |s| == |t|
    ensures forall x :: x in s <==> x in t
  {
    assert |multiset(s)| == |s| && |multiset(t)| == |t|;
    forall x ensures x in s <==> x in t {
      assert x in s <==> x in multiset(s);
      assert x in t <==> x in multiset(t);
    }
  }

  /** Nothing stands twice. */
  ghost predicate Distinct<T>(s: seq<T>) {
    forall i, j | 0 <= i < j < |s| :: s[i] != s[j]
  }

  lemma DistinctOnce<T(!new)>(s: seq<T>)
    ensures Distinct(s) <==> forall x | x in s :: multiset(s)[x] == 1
  {
    forall x | x in s ensures Distinct(s) ==> multiset(s)[x] == 1 {
      var i :| 0 <= i < |s| && s[i] == x;
      OneAt(s, i);
    }
    if forall x | x in s :: multiset(s)[x] == 1 {
      forall i, j | 0 <= i < j < |s| ensures s[i] != s[j] {
        OneAt(s, i);
        assert s[i + 1..][j - i - 1] == s[j];
      }
    }
  }

  lemma OneAt<T>(s: seq<T>, i: nat)
    requires i < |s|
    ensures multiset(s)[s[i]] == multiset(s[..i])[s[i]] + 1 + multiset(s[i + 1..])[s[i]]
  {
    assert s == s[..i] + ([s[i]] + s[i + 1..]);
  }

  lemma DistinctRearranged<T(!new)>(s: seq<T>, t: seq<T>)
    requires multiset(s) == multiset(t)
    ensures Distinct(s) <==> Distinct(t)
  {
    DistinctOnce(s);
    DistinctOnce(t);
    SameElements(s, t);
  }

  lemma {:induction false} InsertSorted<T(!new)>(leq: (T, T) -> bool, x: T, s: seq<T>)
    requires TotalPreorder(leq) && Sorted(leq, s)
    ensures Sorted(leq, Insert(leq, x, s))
  {
    if s != [] && !leq(x, s[0]) {
      var rest := Insert(leq, x, s[1..]);
      InsertSorted(leq, x, s[1..]);
      forall k | 0 <= k < |rest| ensures leq(s[0], rest[k]) {
        assert rest[k] in multiset(rest);
        assert rest[k] == x || rest[k] in s[1..];
      }
    }
  }

  /** `Sort` is a sorted rearrangement of its input. */
  lemma {:induction false} SortSorts<T(!new)>(leq: (T, T) -> bool, s: seq<T>)
    requires TotalPreorder(leq)
    ensures Sorted(leq, Sort(leq, s))
    ensures |Sort(leq, s)| == |s|
    ensures forall x :: x in Sort(leq, s) <==> x in s
  {
    if s != [] {
      SortSorts(leq, s[1..]);
      InsertSorted(leq, s[0], Sort(leq, s[1..]));
    }
    SameElements(Sort(leq, s), s);
  }

  /** Among the elements at hand, only equal ones tie. */
  ghost predicate NoTies<T(!new)>(leq: (T, T) -> bool, s: seq<T>) {
    forall a, b | a in s && b in s :: leq(a, b) && leq(b, a) ==> a == b
  }

  lemma SameHead<T(!new)>(leq: (T, T) -> bool, s: seq<T>, t: seq<T>)
    requires TotalPreorder(leq) && NoTies(leq, s)
    requires Sorted(leq, s) && Sorted(leq, t)
    requires s != [] && t != [] && s[0] in t && t[0] in s
    ensures s[0] == t[0]
  {
    var i :| 0 <= i < |t| && t[i] == s[0];
    var j :| 0 <= j < |s| && s[j] == t[0];
    assert leq(t[0], t[i]) && leq(s[0], s[j]);
  }

  lemma TailElements<T>(s: seq<T>)
    requires s != []
    ensures multiset(s[1..]) == multiset(s) - multiset{s[0]}
  {
    assert s == [s[0]] + s[1..];
  }

  /** A sorted rearrangement without ties is unique, so the algorithm behind a sort and
      the order of its input cannot be seen in the output. */
  lemma {:induction false} SortedUnique<T(!new)>(leq: (T, T) -> bool, s: seq<T>, t: seq<T>)
    requires TotalPreorder(leq) && NoTies(leq, s)
    requires Sorted(leq, s) && Sorted(leq, t)
    requires multiset(s) == multiset(t)
    ensures s == t
  {
    SameElements(s, t);
    if s != [] {
      SameHead(leq, s, t);
      TailElements(s);
      TailElements(t);
      TailSorted(leq, s);
      TailSorted(leq, t);
      SortedUnique(leq, s[1..], t[1..]);
      hide Sorted, NoTies, TotalPreorder;
      assert s == [s[0]] + s[1..] && t == [t[0]] + t[1..];
    }
  }

  lemma TailSorted<T(!new)>(leq: (T, T) -> bool, s: seq<T>)
    requires Sorted(leq, s) && s != []
    ensures Sorted(leq, s[1..])
    ensures NoTies(leq, s) ==> NoTies(leq, s[1..])
  {
  }

  lemma SortPermutation<T(!new)>(leq: (T, T) -> bool, s: seq<T>, t: seq<T>)
    requires TotalPreorder(leq) && NoTies(leq, s)
    requires multiset(s) == multiset(t)
    ensures Sort(leq, s) == Sort(leq, t)
  {
    SortSorts(leq, s);
    SortSorts(leq, t);
    SortedUnique(leq, Sort(leq, s), Sort(leq, t));
  }
}
