/** One parsed file in, its missing prefixes out: the used prefixes the
    three passes collect, minus the declared ones, in first-seen order. */
module Detector {
  import opened Lists
  import opened Text
  import opened QName
  import opened Accumulator
  import opened Document
  import opened Usage
  import opened Scope

  /** A parsed file together with what the XPath engine found in it: the
      document's top-level nodes, its namespace declarations (with their
      registration outcome) and the nodes `//def:Style[@TargetType]` matched. */
  datatype ParsedFile = ParsedFile(nodes: seq<Node>, declarations: seq<Registration>, styleMatches: seq<Node>)

  /** Every candidate the three passes offer, in the order they offer them:
      element names, then `TargetType` values, then attribute names. */
  ghost function UsedCandidates(f: ParsedFile): seq<string> {
    ElementCandidates(f.nodes) + TargetTypeValueCandidates(f.styleMatches) + AttributeNameCandidates(f.nodes)
  }

  /** Every candidate is the text before the first `:` of something qualified. */
  lemma {:induction false} CandidatesHaveNoColon(f: ParsedFile)
    ensures forall x :: x in UsedCandidates(f) ==> ':' !in x
  {
  }

  lemma {:induction false} FoundIsFold(f: ParsedFile)
    ensures AttributePass(f.nodes, TargetTypePass(f.styleMatches, ElementPass(f.nodes, [])))
         == OfferAll([], UsedCandidates(f))
  {
    var e := ElementCandidates(f.nodes);
    var t := TargetTypeValueCandidates(f.styleMatches);
    var a := AttributeNameCandidates(f.nodes);
    ElementPassIsFold(f.nodes, []);
    TargetTypePassIsFold(f.styleMatches, OfferAll([], e));
    AttributePassIsFold(f.nodes, OfferAll(OfferAll([], e), t));
    OfferAllAppend([], e + t, a);
    OfferAllAppend([], e, t);
  }

  /** The found-prefix list: element pass, then `TargetType` pass, then
      attribute pass, all feeding one accumulator. */
  function FoundPrefixes(f: ParsedFile): (r: seq<string>)
    ensures NoDuplicates(r)
    ensures forall x :: x in r <==> x in UsedCandidates(f) && !IsBlank(x)
    ensures forall k :: 0 <= k < |r| ==> ':' !in r[k] && !IsBlank(r[k])
    ensures ElementPass(f.nodes, []) <= TargetTypePass(f.styleMatches, ElementPass(f.nodes, [])) <= r
  {
    FoundIsFold(f);
    CandidatesHaveNoColon(f);
    AttributePass(f.nodes, TargetTypePass(f.styleMatches, ElementPass(f.nodes, [])))
  }

  /** Found prefixes appear in the order their first candidate was offered. */
  lemma {:induction false} FoundPrefixesFirstSeenOrder(f: ParsedFile)
    ensures var r := FoundPrefixes(f); var c := UsedCandidates(f);
      forall i, j :: 0 <= i < j < |r| ==> r[i] in c && r[j] in c && IndexOf(c, r[i]) < IndexOf(c, r[j])
  {
    FoundIsFold(f);
    FirstSeenOrder(UsedCandidates(f));
  }

  /** Collecting again, starting from the found list, adds nothing. */
  lemma {:induction false} CollectingAgainAddsNothing(f: ParsedFile)
    ensures AttributePass(f.nodes, TargetTypePass(f.styleMatches, ElementPass(f.nodes, FoundPrefixes(f))))
         == FoundPrefixes(f)
  {
    var r := FoundPrefixes(f);
    var e := ElementCandidates(f.nodes);
    var t := TargetTypeValueCandidates(f.styleMatches);
    var a := AttributeNameCandidates(f.nodes);
    ElementPassIsFold(f.nodes, r);
    TargetTypePassIsFold(f.styleMatches, OfferAll(r, e));
    AttributePassIsFold(f.nodes, OfferAll(OfferAll(r, e), t));
    OfferAllAbsorbed(r, e);
    OfferAllAbsorbed(r, t);
    OfferAllAbsorbed(r, a);
  }

  /** The found prefixes that are not declared, kept in the order they were found. */
  function Difference(found: seq<string>, declared: set<string>): (r: seq<string>)
    ensures forall x :: x in r <==> x in found && x !in declared
    ensures IsSubsequence(r, found) && |r| <= |found|
    ensures NoDuplicates(found) ==> NoDuplicates(r)
    ensures r == [] <==> forall x :: x in found ==> x in declared
  {
    var r := Filter(found, x => x !in declared);
    assert r != [] ==> r[0] in r;
    r
  }

  /** The missing prefixes of one parsed file. */
  function MissingPrefixes(f: ParsedFile): (r: seq<string>)
    ensures NoDuplicates(r)
    ensures IsSubsequence(r, FoundPrefixes(f))
    ensures forall x :: x in r <==> x in FoundPrefixes(f) && x !in DeclaredPrefixes(f.declarations)
    ensures PresentationPrefix !in r && XmlPrefix !in r
  {
    Difference(FoundPrefixes(f), DeclaredPrefixes(f.declarations))
  }

  /** A prefix is reported missing exactly when it is offered by some pass,
      is not blank, and is not declared. */
  lemma {:induction false} MissingIffUsedAndUndeclared(f: ParsedFile, p: string)
    ensures p in MissingPrefixes(f) <==>
      p in UsedCandidates(f) && !IsBlank(p) && p !in DeclaredPrefixes(f.declarations)
  {
  }

  /** When every used prefix is declared, nothing is missing. */
  lemma {:induction false} AllDeclaredMeansNothingMissing(f: ParsedFile)
    requires forall x :: x in UsedCandidates(f) && !IsBlank(x) ==> x in DeclaredPrefixes(f.declarations)
    ensures MissingPrefixes(f) == []
  {
  }

  /** A document with no qualified name, no qualified attribute name and no
      qualified `TargetType` value uses no prefix. */
  predicate UsesNoPrefix(f: ParsedFile) {
    && (forall n :: n in PostOrder(f.nodes) ==> !IsQualified(n.name))
    && (forall n, a :: n in PostOrder(f.nodes) && n.attributes.Some? && a in n.attributes.value ==>
          !IsQualified(a.name))
    && (forall m :: m in f.styleMatches && TargetTypeOf(m).Some? ==> !IsQualified(TargetTypeOf(m).value))
  }

  lemma {:induction false} NoUsageMeansNothingFound(f: ParsedFile)
    requires UsesNoPrefix(f)
    ensures FoundPrefixes(f) == [] && MissingPrefixes(f) == []
  {
    forall n | n in PostOrder(f.nodes) ensures NameCandidates(n) == [] && AttributeCandidates(n) == [] {
      if n.attributes.Some? {
        var offered := AttributeListCandidates(n.attributes.value);
        EmptyIffNoMember(offered);
      }
    }
    var c := UsedCandidates(f);
    EmptyIffNoMember(c);
    var r := FoundPrefixes(f);
    EmptyIffNoMember(r);
  }
}
