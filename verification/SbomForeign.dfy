/** Texts that name some other place of this machine: a document that holds one is refused
    wherever it is written, so normalization is placeless for those documents too. */
module SbomForeign {
  import opened Wrappers
  import opened JsonTrees
  import opened SbomNormalize
  import opened SbomRelocation
  import opened SbomPlaceless

  /** No template is written like this: the text names a local URI that is no root, or a root
      together with another local URI before it. */
  ghost predicate Foreign(roots: seq<Root>, text: string) {
    forall t | WellPlaced(|roots|, t) :: Write(roots, t) != text
  }

  // ---- what the renaming replaces is never foreign ----

  lemma {:induction false} RootFound(roots: seq<Root>, bomRef: string) returns (i: nat)
    requires RootOf(roots, bomRef).Some?
    ensures i < |roots| && RootOf(roots, bomRef) == Some(roots[i]) && Prefix(roots[i]) <= bomRef
  {
    if Prefix(roots[0]) <= bomRef {
      i := 0;
    } else {
      i := RootFound(roots[1..], bomRef);
      i := i + 1;
    }
  }

  lemma ReferenceNotForeign(roots: seq<Root>, i: nat, bomRef: string)
    requires i < |roots| && Prefix(roots[i]) <= bomRef
    ensures !Foreign(roots, bomRef)
  {
    var p := Prefix(roots[i]);
    var t := Rooted("path+", i, "/" + bomRef[|p|..]);
    PathPrefixHasNone();
    assert bomRef == p + bomRef[|p|..];
    assert Write(roots, t) == p + bomRef[|p|..];
    assert WellPlaced(|roots|, t);
  }

  lemma FreeNotForeign(roots: seq<Root>, text: string)
    requires FirstAt(text).None?
    ensures !Foreign(roots, text)
  {
    assert WellPlaced(|roots|, Plain(text)) && Write(roots, Plain(text)) == text;
  }

  lemma QualifiedNotForeign(roots: seq<Root>, i: nat, path: string, name: string, found: bool, subpath: string)
    requires i < |roots| && FirstAt(name).None?
    ensures !Foreign(roots, JoinPurl(name, Expected(roots[i], path), found, subpath))
  {
    QualifiedWritten(roots, i, path, name, found, subpath);
    QueryJoined(name);
    var tail := if found then ['#'] + subpath else "";
    Slashed(path, tail);
    hide FirstAt, JoinPurl, Expected, Write, QUERY;
    WrittenNotForeign(roots, Rooted(name + QUERY, i, "/" + path + tail));
  }

  lemma QueryJoined(name: string)
    requires FirstAt(name).None?
    ensures FirstAt(name + QUERY).None?
  {
    NotInScheme();
    QueryHasNone();
    hide *;
    NoneInJoin(name, QUERY);
  }

  lemma Slashed(path: string, tail: string)
    ensures "/" + path + tail != "" && ("/" + path + tail)[0] == '/'
  {
  }

  lemma WrittenNotForeign(roots: seq<Root>, t: Template)
    requires WellPlaced(|roots|, t)
    ensures !Foreign(roots, Write(roots, t))
  {
  }

  lemma PurlNotForeign(roots: seq<Root>, i: nat, purl: string, path: string)
    requires i < |roots|
    requires var (canonical, qualified, qualifiers) := CanonicalPurl(purl);
             qualified && FirstAt(canonical).None? && (qualifiers == Expected(roots[i], path) || qualifiers == AT_ROOT)
    ensures !Foreign(roots, purl)
  {
    var name, qualifiers, found, subpath := PurlShape(purl);
    CanonicalParts(name, found, subpath);
    hide FirstAt, CanonicalPurl, Foreign, JoinPurl;
    if qualifiers == AT_ROOT {
      AtRootHasNone(name, found, subpath);
      FreeNotForeign(roots, purl);
    } else {
      QualifiedNotForeign(roots, i, path, name, found, subpath);
    }
  }

  lemma LocalNotForeign(roots: seq<Root>, source: string, c: Document)
    requires LocalComponent(roots, source, c).Ok? && LocalComponent(roots, source, c).value.Some?
    requires FirstAt(LocalComponent(roots, source, c).value.value.canonical).None?
    ensures var l := LocalComponent(roots, source, c).value.value; !Foreign(roots, l.bomRef) && !Foreign(roots, l.purl)
  {
    hide Claim, RootOf, Foreign, FirstAt, CanonicalPurl;
    var l := LocalComponent(roots, source, c).value.value;
    var bomRef := Get(c, "bom-ref").value.text;
    var i := RootFound(roots, bomRef);
    var path := ClaimedFrom(roots[i], source, bomRef, Get(c, "purl"));
    ReferenceNotForeign(roots, i, l.bomRef);
    PurlNotForeign(roots, i, l.purl, path);
  }

  lemma ClaimedFrom(root: Root, source: string, bomRef: string, purl: Option<Document>) returns (path: string)
    requires Claim(root, source, bomRef, purl).Ok?
    ensures Prefix(root) <= bomRef
    ensures var l := Claim(root, source, bomRef, purl).value;
            && l.bomRef == bomRef
            && CanonicalPurl(l.purl).0 == l.canonical && CanonicalPurl(l.purl).1
            && (CanonicalPurl(l.purl).2 == Expected(root, path) || CanonicalPurl(l.purl).2 == AT_ROOT)
  {
    hide RightPartition, CanonicalPurl, ValidSourcePath;
    path := RightPartition(bomRef[|Prefix(root)|..], '#').before;
  }

  lemma {:induction false} ReplacedNotForeign(roots: seq<Root>, source: string, cs: seq<Document>, text: string)
    requires Collected(roots, source, cs).Ok? && CanonicalsFree(roots, source, cs)
    requires text in Collected(roots, source, cs).value.replacements
    ensures !Foreign(roots, text)
    decreases |cs|
  {
    hide LocalComponent, FirstAt, Foreign;
    var n := |cs| - 1;
    var front, x := Collected(roots, source, cs[..n]).value, LocalComponent(roots, source, cs[n]).value;
    if text in front.replacements {
      assert forall c | c in cs[..n] :: c in cs;
      ReplacedNotForeign(roots, source, cs[..n], text);
    } else {
      assert cs[n] in cs;
      LocalNotForeign(roots, source, cs[n]);
    }
  }

  /** A document with a foreign text is refused. */
  lemma ForeignRefused(roots: seq<Root>, doc: Document, text: string)
    requires text in Strings(doc) && Foreign(roots, text)
    ensures Normalized(roots, doc).None?
  {
    if Normalized(roots, doc).Some? {
      var source, cs, r := AcceptedRenaming(roots, doc);
      AcceptedCanonicalsFree(roots, doc, source, cs, r);
      AcceptedTextsFree(roots, doc, r, text);
      hide Normalized, PlacedDocument, Accepted, Collected, CanonicalsFree, FirstAt, Strings;
      if text in r.replacements {
        ReplacedNotForeign(roots, source, cs, text);
      } else {
        FreeNotForeign(roots, text);
      }
      assert false;
    }
  }

  // ---- placeless, foreign texts and all ----

  /** Each text either moves with the roots or is foreign at both places. */
  ghost predicate AllPlacedOrForeign(r1: seq<Root>, r2: seq<Root>, doc: Json<Template>) {
    forall t | t in Strings(doc) :: WellPlaced(|r1|, t) || (Foreign(r1, Write(r1, t)) && Foreign(r2, Write(r2, t)))
  }

  /** Whether a document is accepted does not depend on where it was written, and if it is,
      neither does the result. */
  lemma NormalizationIsPlaceless(r1: seq<Root>, r2: seq<Root>, doc: Json<Template>)
    requires Admissible(r1) && Admissible(r2) && SameLabels(r1, r2) && AllPlacedOrForeign(r1, r2, doc)
    ensures Normalized(r1, MapStrings(Written(r1), doc)) == Normalized(r2, MapStrings(Written(r2), doc))
  {
    hide Normalized, Admissible, Foreign, WellPlaced, Write;
    if AllPlaced(|r1|, doc) {
      hide AllPlacedOrForeign, MapStrings;
      PlacedIsPlaceless(r1, r2, doc);
    } else {
      var t :| t in Strings(doc) && !WellPlaced(|r1|, t);
      WrittenIs(r1, t);
      WrittenIs(r2, t);
      MappedTexts(Written(r1), doc);
      MappedTexts(Written(r2), doc);
      hide MapStrings, Strings;
      ForeignRefused(r1, MapStrings(Written(r1), doc), Write(r1, t));
      ForeignRefused(r2, MapStrings(Written(r2), doc), Write(r2, t));
    }
  }
}
