/** Which project units an audit speaks for, per language and overall, and when a unit's share
    of unreached callables is reported. */
module AuditAuthority {
  import Sets

  type UnitId = string
  type Language = string

  datatype Status = Complete | Partial | Unavailable

  function StatusOf(authoritative: int, withheld: int): Status {
    if withheld == 0 then Complete else if authoritative > 0 then Partial else Unavailable
  }

  datatype Tally = Tally(authoritative: int, withheld: int)

  function InLanguage(units: set<UnitId>, languageOf: UnitId -> Language, language: Language): set<UnitId> {
    set u | u in units && languageOf(u) == language
  }

  function Languages(units: set<UnitId>, languageOf: UnitId -> Language): set<Language> {
    set u | u in units :: languageOf(u)
  }

  /** Every language of a unit with the number of its units that are spoken for and not. */
  ghost predicate Tallied(
    units: set<UnitId>, authoritative: set<UnitId>, languageOf: UnitId -> Language, tallies: map<Language, Tally>) {
    && tallies.Keys == Languages(units, languageOf)
    && forall l | l in tallies :: tallies[l] == Tally(
         |InLanguage(units * authoritative, languageOf, l)|,
         |InLanguage(units - authoritative, languageOf, l)|)
  }

  /** The loop over the unit population. */
  method AuthorityByLanguage(units: set<UnitId>, authoritative: set<UnitId>, languageOf: UnitId -> Language)
    returns (tallies: map<Language, Tally>)
    ensures Tallied(units, authoritative, languageOf, tallies)
  {
    tallies := map[];
    var pending := units;
    TalliedNothing(authoritative, languageOf);
    assert units - pending == {};
    while pending != {}
      invariant pending <= units
      invariant Tallied(units - pending, authoritative, languageOf, tallies)
      decreases |pending|
    {
      var u :| u in pending;
      var done := units - pending;
      TalliedNext(done, authoritative, languageOf, tallies, u);
      hide Tallied;
      var l := languageOf(u);
      var counts := if l in tallies then tallies[l] else Tally(0, 0);
      tallies := tallies[l := if u in authoritative then counts.(authoritative := counts.authoritative + 1)
        else counts.(withheld := counts.withheld + 1)];
      pending := pending - {u};
      assert units - pending == done + {u};
    }
    assert units - pending == units;
  }

  lemma TalliedNothing(authoritative: set<UnitId>, languageOf: UnitId -> Language)
    ensures Tallied({}, authoritative, languageOf, map[])
  {
    Sets.NoElements(Languages({}, languageOf));
  }

  lemma InLanguageNext(units: set<UnitId>, languageOf: UnitId -> Language, u: UnitId, l: Language)
    requires u !in units
    ensures |InLanguage(units + {u}, languageOf, l)| == |InLanguage(units, languageOf, l)| + if languageOf(u) == l
      then 1 else 0
  {
    var before, after := InLanguage(units, languageOf, l), InLanguage(units + {u}, languageOf, l);
    assert after == if languageOf(u) == l then before + {u} else before;
  }

  lemma TalliedNext(
    units: set<UnitId>, authoritative: set<UnitId>, languageOf: UnitId -> Language, tallies: map<Language, Tally>,
    u: UnitId)
    requires u !in units && Tallied(units, authoritative, languageOf, tallies)
    ensures var l := languageOf(u);
            var counts := if l in tallies then tallies[l] else Tally(0, 0);
            var counted := if u in authoritative then counts.(authoritative := counts.authoritative + 1)
              else counts.(withheld := counts.withheld + 1);
            Tallied(units + {u}, authoritative, languageOf, tallies[l := counted])
  {
    var l := languageOf(u);
    var spoken, kept := units * authoritative, units - authoritative;
    if l !in tallies {
      forall x | x in units ensures languageOf(x) != l {
        assert languageOf(x) in Languages(units, languageOf);
      }
      Sets.NoElements(InLanguage(spoken, languageOf, l));
      Sets.NoElements(InLanguage(kept, languageOf, l));
    }
    assert Languages(units + {u}, languageOf) == Languages(units, languageOf) + {l};
    forall m: Language
      ensures |InLanguage((units + {u}) * authoritative, languageOf, m)|
           == |InLanguage(spoken, languageOf, m)| + if u in authoritative && m == l then 1 else 0
      ensures |InLanguage((units + {u}) - authoritative, languageOf, m)|
           == |InLanguage(kept, languageOf, m)| + if u !in authoritative && m == l then 1 else 0
    {
      if u in authoritative {
        assert (units + {u}) * authoritative == spoken + {u} && (units + {u}) - authoritative == kept;
        InLanguageNext(spoken, languageOf, u, m);
      } else {
        assert (units + {u}) * authoritative == spoken && (units + {u}) - authoritative == kept + {u};
        InLanguageNext(kept, languageOf, u, m);
      }
    }
    hide InLanguage, Languages;
  }

  // ---- the languages add up ----

  ghost function Total(languages: set<Language>, count: Language -> int): int
    decreases |languages|
  {
    if languages == {} then 0
    else
      var l := Sets.Pick(languages);
      count(l) + Total(languages - {l}, count)
  }

  lemma SomeLanguage(units: set<UnitId>, languageOf: UnitId -> Language)
    ensures units != {} ==> Languages(units, languageOf) != {}
  {
    if units != {} { assert languageOf(Sets.Pick(units)) in Languages(units, languageOf); }
  }

  ghost function Sizes(units: set<UnitId>, languageOf: UnitId -> Language): Language -> int {
    (l: Language) => |InLanguage(units, languageOf, l)|
  }

  lemma TotalUnfolds(languages: set<Language>, count: Language -> int)
    requires languages != {}
    ensures var l := Sets.Pick(languages); Total(languages, count) == count(l) + Total(languages - {l}, count)
  {
  }

  lemma {:induction false} LanguagesPartition(
    units: set<UnitId>, languageOf: UnitId -> Language, languages: set<Language>)
    requires Languages(units, languageOf) <= languages
    ensures Total(languages, Sizes(units, languageOf)) == |units|
    decreases |languages|
  {
    hide InLanguage, Languages, Sizes, Total;
    if languages == {} {
      NoLanguage(units, languageOf);
    } else {
      var l := Sets.Pick(languages);
      OneLanguageLess(units, languageOf, languages, l);
      TotalUnfolds(languages, Sizes(units, languageOf));
      LanguagesPartition(units - InLanguage(units, languageOf, l), languageOf, languages - {l});
      OtherLanguages(units, languageOf, languages - {l}, l);
    }
  }

  lemma NoLanguage(units: set<UnitId>, languageOf: UnitId -> Language)
    requires Languages(units, languageOf) <= {}
    ensures units == {} && Total({}, Sizes(units, languageOf)) == 0
  {
    SomeLanguage(units, languageOf);
  }

  lemma OneLanguageLess(units: set<UnitId>, languageOf: UnitId -> Language, languages: set<Language>, l: Language)
    requires Languages(units, languageOf) <= languages
    ensures var rest := units - InLanguage(units, languageOf, l);
            && Languages(rest, languageOf) <= languages - {l}
            && |units| == Sizes(units, languageOf)(l) + |rest|
  {
    var mine := InLanguage(units, languageOf, l);
    Sets.SplitSize(mine, units - mine, units);
  }

  lemma OtherLanguages(units: set<UnitId>, languageOf: UnitId -> Language, languages: set<Language>, l: Language)
    requires l !in languages
    ensures Total(languages, Sizes(units, languageOf))
      == Total(languages, Sizes(units - InLanguage(units, languageOf, l), languageOf))
  {
    var rest := units - InLanguage(units, languageOf, l);
    forall m | m in languages ensures Sizes(units, languageOf)(m) == Sizes(rest, languageOf)(m) {
      assert InLanguage(rest, languageOf, m) == InLanguage(units, languageOf, m);
    }
    TotalsAgree(languages, Sizes(units, languageOf), Sizes(rest, languageOf));
  }

  lemma {:induction false} TotalsAgree(languages: set<Language>, f: Language -> int, g: Language -> int)
    requires forall l | l in languages :: f(l) == g(l)
    ensures Total(languages, f) == Total(languages, g)
    decreases |languages|
  {
    if languages != {} { TotalsAgree(languages - {Sets.Pick(languages)}, f, g); }
  }

  /** Over all languages the tallies add up to the overall counts: authoritative units, and the
      rest of the population. */
  lemma TalliesAddUp(
    units: set<UnitId>, authoritative: set<UnitId>, languageOf: UnitId -> Language, tallies: map<Language, Tally>)
    requires Tallied(units, authoritative, languageOf, tallies) && authoritative <= units
    ensures Total(tallies.Keys, (l: Language) => if l in tallies then tallies[l].authoritative else 0)
      == |authoritative|
    ensures Total(tallies.Keys, (l: Language) => if l in tallies then tallies[l].withheld else 0)
      == |units| - |authoritative|
  {
    assert units * authoritative == authoritative;
    Sets.SplitSize(authoritative, units - authoritative, units);
    hide InLanguage, Languages, Total;
    PartAddsUp(units, authoritative, languageOf, (l: Language) => if l in tallies then tallies[l].authoritative else 0);
    PartAddsUp(units, units - authoritative, languageOf,
      (l: Language) => if l in tallies then tallies[l].withheld else 0);
  }

  lemma PartAddsUp(units: set<UnitId>, part: set<UnitId>, languageOf: UnitId -> Language, count: Language -> int)
    requires part <= units
    requires forall l | l in Languages(units, languageOf) :: count(l) == |InLanguage(part, languageOf, l)|
    ensures Total(Languages(units, languageOf), count) == |part|
  {
    assert Languages(part, languageOf) <= Languages(units, languageOf);
    LanguagesPartition(part, languageOf, Languages(units, languageOf));
    hide InLanguage, Languages, Total;
    TotalsAgree(Languages(units, languageOf), count, Sizes(part, languageOf));
  }

  /** Overall completeness is completeness of every language, and the audit is unavailable
      exactly when there are units and it is unavailable for every language. */
  lemma OverallStatus(
    units: set<UnitId>, authoritative: set<UnitId>, languageOf: UnitId -> Language, tallies: map<Language, Tally>)
    requires Tallied(units, authoritative, languageOf, tallies) && authoritative <= units
    ensures var overall := StatusOf(|authoritative|, |units| - |authoritative|);
            && (overall == Complete
               <==> forall l | l in tallies :: StatusOf(tallies[l].authoritative, tallies[l].withheld) == Complete)
            && (overall == Complete <==> authoritative == units)
            && (overall == Unavailable <==> units != {} && authoritative == {})
            && (overall == Unavailable <==>
                 units != {} && forall l | l in tallies ::
                   StatusOf(tallies[l].authoritative, tallies[l].withheld) == Unavailable)
  {
    Sets.SplitSize(authoritative, units - authoritative, units);
    TalliesEmptyIff(units, authoritative, languageOf, tallies);
    EveryLanguageHasUnits(units, authoritative, languageOf, tallies);
    hide Tallied, Languages, InLanguage;
    SizeZeroIff(authoritative);
    SizeZeroIff(units - authoritative);
    assert units - authoritative == {} <==> authoritative == units by { AllCovered(units, authoritative); }
  }

  lemma AllCovered(units: set<UnitId>, part: set<UnitId>)
    requires part <= units
    ensures units - part == {} <==> part == units
  {
    if units - part == {} {
      forall u | u in units ensures u in part { assert u !in units - part; }
    }
  }

  lemma SizeZeroIff(s: set<UnitId>)
    ensures |s| == 0 <==> s == {}
  {
  }

  lemma TalliesEmptyIff(
    units: set<UnitId>, authoritative: set<UnitId>, languageOf: UnitId -> Language, tallies: map<Language, Tally>)
    requires Tallied(units, authoritative, languageOf, tallies) && authoritative <= units
    ensures authoritative == {} <==> forall l | l in tallies :: tallies[l].authoritative == 0
    ensures units - authoritative == {} <==> forall l | l in tallies :: tallies[l].withheld == 0
  {
    assert units * authoritative == authoritative;
    PartEmptyIff(units, authoritative, languageOf);
    PartEmptyIff(units, units - authoritative, languageOf);
    hide InLanguage, Languages;
  }

  /** A part of the population is empty exactly when no language has any of it. */
  lemma PartEmptyIff(units: set<UnitId>, part: set<UnitId>, languageOf: UnitId -> Language)
    requires part <= units
    ensures part == {} <==> forall l | l in Languages(units, languageOf) :: |InLanguage(part, languageOf, l)| == 0
  {
    if part == {} {
      forall l | l in Languages(units, languageOf) ensures |InLanguage(part, languageOf, l)| == 0 {
        Sets.NoElements(InLanguage(part, languageOf, l));
      }
    } else {
      var u := Sets.Pick(part);
      assert u in InLanguage(part, languageOf, languageOf(u));
      assert languageOf(u) in Languages(units, languageOf);
    }
  }

  lemma EveryLanguageHasUnits(
    units: set<UnitId>, authoritative: set<UnitId>, languageOf: UnitId -> Language, tallies: map<Language, Tally>)
    requires Tallied(units, authoritative, languageOf, tallies)
    ensures forall l | l in tallies :: tallies[l].authoritative > 0 || tallies[l].withheld > 0
    ensures tallies == map[] <==> units == {}
  {
    forall l | l in tallies ensures tallies[l].authoritative > 0 || tallies[l].withheld > 0 {
      var u :| u in units && languageOf(u) == l;
      assert u in InLanguage(units * authoritative, languageOf, l)
        || u in InLanguage(units - authoritative, languageOf, l);
    }
    if units != {} {
      assert languageOf(Sets.Pick(units)) in Languages(units, languageOf);
    }
  }

  // ---- the reported share ----

  predicate DeadRatioMeetsThreshold(total: nat, dead: nat, minimumPercent: nat) {
    dead * 100 >= minimumPercent * total
  }

  function RatioBasisPoints(total: nat, dead: nat): nat
    requires total > 0
  {
    dead * 10_000 / total
  }

  lemma QuotientAtLeast(a: nat, t: nat, s: nat)
    requires t > 0
    ensures a / t >= s <==> a >= s * t
  {
    var q := a / t;
    assert q * t <= a < q * t + t;
    if q >= s { ProductGrows(s, q, t); } else { ProductGrows(q + 1, s, t); }
  }

  lemma ProductGrows(x: nat, y: nat, t: nat)
    requires x <= y
    ensures x * t <= y * t
  {
  }

  /** The inclusive percentage test and the floored basis points shown with it agree exactly. */
  lemma ThresholdMatchesShownRatio(total: nat, dead: nat, minimumPercent: nat)
    requires total > 0
    ensures DeadRatioMeetsThreshold(total, dead, minimumPercent)
      <==> RatioBasisPoints(total, dead) >= 100 * minimumPercent
    ensures RatioBasisPoints(total, dead) * total <= 10_000 * dead < RatioBasisPoints(total, dead) * total + total
  {
    QuotientAtLeast(dead * 10_000, total, 100 * minimumPercent);
    assert (100 * minimumPercent) * total == 100 * (minimumPercent * total);
  }
}
