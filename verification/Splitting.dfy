/** Cutting a sequence at every occurrence of a separator. */
module Splitting {

  /** What stands between the separators. */
  function SplitOn<T(==)>(s: seq<T>, sep: T): (r: seq<seq<T>>)
    ensures r != []
  {
    if s == [] then [[]] else Extended(s[0], sep, SplitOn(s[1..], sep))
  }

  /** One more element in front. */
  function Extended<T(==)>(x: T, sep: T, pieces: seq<seq<T>>): (r: seq<seq<T>>)
    requires pieces != []
    ensures r != []
  {
    if x == sep then [[]] + pieces else [[x] + pieces[0]] + pieces[1..]
  }

  // ---- which pieces there are ----

  /** `part` holds no separator and reaches from one to the next, or to an end. */
  ghost predicate Between<T(!new)>(s: seq<T>, sep: T, before: seq<T>, part: seq<T>, after: seq<T>) {
    && s == before + part + after
    && sep !in part
    && (before == [] || before[|before| - 1] == sep)
    && (after == [] || after[0] == sep)
  }

  /** The pieces are exactly what stands between two separators. */
  lemma PieceIff<T(!new)>(s: seq<T>, sep: T, part: seq<T>)
    ensures part in SplitOn(s, sep) <==> exists before, after :: Between(s, sep, before, part, after)
  {
    FirstPiece(s, sep);
    LaterPieceIff(s, sep, part);
    var pieces := SplitOn(s, sep);
    assert pieces == [pieces[0]] + pieces[1..];
    if before, after :| Between(s, sep, before, part, after) {
      if before == [] { FirstUnique(s, sep, part, after); }
    }
  }

  lemma {:induction false} FirstPiece<T(!new)>(s: seq<T>, sep: T)
    ensures exists after :: Between(s, sep, [], SplitOn(s, sep)[0], after)
  {
    if s == [] {
      assert SplitOn(s, sep)[0] == [] && s == [] + [] + [];
      assert Between(s, sep, [], SplitOn(s, sep)[0], []);
    } else if s[0] == sep {
      assert SplitOn(s, sep)[0] == [] && s == [] + [] + s;
      assert Between(s, sep, [], SplitOn(s, sep)[0], s);
    } else {
      FirstPiece(s[1..], sep);
      var after :| Between(s[1..], sep, [], SplitOn(s[1..], sep)[0], after);
      OneMoreInPart(s[0], s[1..], sep, SplitOn(s[1..], sep)[0], after);
      assert s == [s[0]] + s[1..];
      assert SplitOn(s, sep)[0] == [s[0]] + SplitOn(s[1..], sep)[0];
    }
  }

  lemma OneMoreInPart<T(!new)>(x: T, s: seq<T>, sep: T, part: seq<T>, after: seq<T>)
    requires Between(s, sep, [], part, after) && x != sep
    ensures Between([x] + s, sep, [], [x] + part, after)
  {
    assert [] + part + after == part + after;
    assert [x] + (part + after) == [] + ([x] + part) + after;
  }

  lemma OneMoreBefore<T(!new)>(x: T, s: seq<T>, sep: T, before: seq<T>, part: seq<T>, after: seq<T>)
    requires Between(s, sep, before, part, after) && (x == sep || before != [])
    ensures Between([x] + s, sep, [x] + before, part, after)
  {
    assert [x] + (before + part + after) == ([x] + before) + part + after;
    assert before != [] ==> ([x] + before)[|[x] + before| - 1] == before[|before| - 1];
  }

  lemma FirstUnique<T(!new)>(s: seq<T>, sep: T, part: seq<T>, after: seq<T>)
    requires Between(s, sep, [], part, after)
    ensures part == SplitOn(s, sep)[0]
  {
    FirstPiece(s, sep);
    var first := SplitOn(s, sep)[0];
    var rest :| Between(s, sep, [], first, rest);
    EndsAtSeparator(s, sep, part, after);
    EndsAtSeparator(s, sep, first, rest);
    hide SplitOn;
    assert |part| == |first|;
  }

  lemma EndsAtSeparator<T(!new)>(s: seq<T>, sep: T, part: seq<T>, after: seq<T>)
    requires Between(s, sep, [], part, after)
    ensures part <= s && |part| <= |s| && (|part| < |s| ==> s[|part|] == sep)
    ensures forall i | 0 <= i < |part| :: s[i] != sep
  {
    assert s == part + after;
    assert forall i | 0 <= i < |part| :: s[i] == part[i] && part[i] in part;
  }

  lemma {:induction false} LaterPieceIff<T(!new)>(s: seq<T>, sep: T, part: seq<T>)
    ensures part in SplitOn(s, sep)[1..] <==>
      exists before, after :: before != [] && Between(s, sep, before, part, after)
  {
    if s != [] {
      LaterPieceIff(s[1..], sep, part);
      SplitHead(s, sep, part);
      assert s == [s[0]] + s[1..];
      hide SplitOn, Between;
      if part in SplitOn(s, sep)[1..] { LaterFound(s[0], s[1..], sep, part); }
      if before, after :| before != [] && Between(s, sep, before, part, after) {
        LaterSplit(s[0], s[1..], sep, before, part, after);
      }
    }
  }

  lemma SplitHead<T(!new)>(s: seq<T>, sep: T, part: seq<T>)
    requires s != []
    ensures var pieces := SplitOn(s[1..], sep);
            part in SplitOn(s, sep)[1..] <==> part in pieces[1..] || (s[0] == sep && part == pieces[0])
  {
    var pieces := SplitOn(s[1..], sep);
    hide SplitOn;
    assert pieces == [pieces[0]] + pieces[1..];
    assert SplitOn(s, sep) == Extended(s[0], sep, pieces) by { SplitUnfolds(s, sep); }
    if s[0] == sep { assert SplitOn(s, sep)[1..] == pieces; } else { assert SplitOn(s, sep)[1..] == pieces[1..]; }
  }

  lemma SplitUnfolds<T>(s: seq<T>, sep: T)
    requires s != []
    ensures SplitOn(s, sep) == Extended(s[0], sep, SplitOn(s[1..], sep))
  {
  }

  lemma LaterFound<T(!new)>(x: T, t: seq<T>, sep: T, part: seq<T>)
    requires part in SplitOn(t, sep)[1..] || (x == sep && part == SplitOn(t, sep)[0])
    requires part in SplitOn(t, sep)[1..] ==>
      exists before, after :: before != [] && Between(t, sep, before, part, after)
    ensures exists before, after :: before != [] && Between([x] + t, sep, before, part, after)
  {
    FirstPiece(t, sep);
    hide SplitOn, Between;
    var before, after :| Between(t, sep, before, part, after) && (x == sep || before != []);
    OneMoreBefore(x, t, sep, before, part, after);
  }

  lemma LaterSplit<T(!new)>(x: T, t: seq<T>, sep: T, before: seq<T>, part: seq<T>, after: seq<T>)
    requires before != [] && Between([x] + t, sep, before, part, after)
    requires (exists b, a :: b != [] && Between(t, sep, b, part, a)) ==> part in SplitOn(t, sep)[1..]
    ensures part in SplitOn(t, sep)[1..] || (x == sep && part == SplitOn(t, sep)[0])
  {
    OneLessBefore(x, t, sep, before, part, after);
    if before[1..] == [] { FirstUnique(t, sep, part, after); }
    hide SplitOn, Between;
  }

  lemma OneLessBefore<T(!new)>(x: T, t: seq<T>, sep: T, before: seq<T>, part: seq<T>, after: seq<T>)
    requires before != [] && Between([x] + t, sep, before, part, after)
    ensures Between(t, sep, before[1..], part, after) && (before[1..] == [] ==> x == sep)
  {
    var whole := [x] + t;
    assert before == [before[0]] + before[1..];
    assert whole == [before[0]] + (before[1..] + part + after);
    assert whole[1..] == t && whole[1..] == before[1..] + part + after;
    assert before[1..] != [] ==> before[1..][|before[1..]| - 1] == before[|before| - 1];
  }

  // ---- joining ----

  lemma {:induction false} SplitJoin<T>(p: seq<T>, sep: T, q: seq<T>)
    ensures SplitOn(p + [sep] + q, sep) == SplitOn(p, sep) + SplitOn(q, sep)
  {
    hide Extended;
    Unshifted(p, sep, q);
    if p == [] {
      SeparatorFirst(sep, q);
    } else {
      SplitJoin(p[1..], sep, q);
      ExtendedJoin(p[0], sep, SplitOn(p[1..], sep), SplitOn(q, sep));
    }
  }

  lemma Unshifted<T>(p: seq<T>, sep: T, q: seq<T>)
    ensures var whole := p + [sep] + q;
            if p == [] then whole[0] == sep && whole[1..] == q
            else whole[0] == p[0] && whole[1..] == p[1..] + [sep] + q
  {
  }

  lemma SeparatorFirst<T>(sep: T, q: seq<T>)
    ensures Extended(sep, sep, SplitOn(q, sep)) == SplitOn([], sep) + SplitOn(q, sep)
  {
    hide SplitOn;
    assert SplitOn([], sep) == [[]] by { SplitNothing(sep); }
  }

  lemma SplitNothing<T>(sep: T)
    ensures SplitOn([], sep) == [[]]
  {
  }

  lemma ExtendedJoin<T>(x: T, sep: T, pieces: seq<seq<T>>, more: seq<seq<T>>)
    requires pieces != []
    ensures Extended(x, sep, pieces + more) == Extended(x, sep, pieces) + more
  {
    assert (pieces + more)[0] == pieces[0] && (pieces + more)[1..] == pieces[1..] + more;
  }
}
