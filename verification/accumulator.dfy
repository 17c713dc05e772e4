/** The one list all passes of the detector add to: a prefix is appended
    unless it is blank or already present. */
module Accumulator {
  import opened Lists
  import opened Text

  /** One "add if new" step: a prefix is appended when it is not blank and
      not yet in the list. */
  function Offer(found: seq<string>, p: string): (r: seq<string>)
    ensures found <= r && |r| <= |found| + 1
    ensures forall x :: x in r <==> x in found || (x == p && !IsBlank(p))
    ensures NoDuplicates(found) ==> NoDuplicates(r)
  {
    if IsBlank(p) || p in found then found else found + [p]
  }

  /** Offering a blank or already present prefix leaves the list unchanged. */
  lemma {:induction false} OfferIdempotent(found: seq<string>, p: string)
    ensures Offer(Offer(found, p), p) == Offer(found, p)
    ensures p in found ==> Offer(found, p) == found
  {
  }

  /** Offers each candidate in turn. */
  function OfferAll(found: seq<string>, candidates: seq<string>): (r: seq<string>)
    ensures found <= r
    ensures forall x :: x in r <==> x in found || (x in candidates && !IsBlank(x))
    ensures NoDuplicates(found) ==> NoDuplicates(r)
    decreases |candidates|
  {
    if candidates == [] then found
    else OfferAll(Offer(found, candidates[0]), candidates[1..])
  }

  lemma {:induction false} OfferAllAppend(found: seq<string>, a: seq<string>, b: seq<string>)
    ensures OfferAll(found, a + b) == OfferAll(OfferAll(found, a), b)
    decreases |a|
  {
    if a == [] {
      assert a + b == b;
    } else {
      assert (a + b)[0] == a[0] && (a + b)[1..] == a[1..] + b;
      OfferAllAppend(Offer(found, a[0]), a[1..], b);
    }
  }

  lemma {:induction false} OfferAllSingle(found: seq<string>, p: string)
    ensures OfferAll(found, [p]) == Offer(found, p)
  {
    assert [p][1..] == [];
  }

  /** Candidates that are all blank or already present change nothing. */
  lemma {:induction false} OfferAllAbsorbed(found: seq<string>, candidates: seq<string>)
    requires forall x :: x in candidates ==> x in found || IsBlank(x)
    ensures OfferAll(found, candidates) == found
    decreases |candidates|
  {
    if candidates != [] {
      assert candidates[0] in candidates;
      assert forall x :: x in candidates[1..] ==> x in candidates;
      OfferAllAbsorbed(found, candidates[1..]);
    }
  }

  /** Running the same candidates twice adds nothing the first run did not. */
  lemma {:induction false} OfferAllIdempotent(found: seq<string>, candidates: seq<string>)
    ensures OfferAll(OfferAll(found, candidates), candidates) == OfferAll(found, candidates)
  {
    OfferAllAbsorbed(OfferAll(found, candidates), candidates);
  }

  /** What a run appends is in first-seen order of the candidates. */
  lemma {:induction false} OfferAllKeepsFirstSeenOrder(found: seq<string>, candidates: seq<string>)
    ensures var r := OfferAll(found, candidates);
      forall i, j :: |found| <= i < j < |r| ==>
        r[i] in candidates && r[j] in candidates &&
        IndexOf(candidates, r[i]) < IndexOf(candidates, r[j])
    decreases |candidates|
  {
    if candidates != [] {
      var q := candidates[..|candidates| - 1];
      var x := candidates[|candidates| - 1];
      assert candidates == q + [x];
      OfferAllKeepsFirstSeenOrder(found, q);
      var before := OfferAll(found, q);
      OfferAllAppend(found, q, [x]);
      OfferAllSingle(before, x);
      var r := OfferAll(found, candidates);
      assert r == Offer(before, x);
      AppendedAreCandidates(found, q, candidates);
      if r != before {
        AppendedBeforeLast(found, q, x);
      }
      forall i, j | |found| <= i < j < |r|
        ensures r[i] in candidates && r[j] in candidates
        ensures IndexOf(candidates, r[i]) < IndexOf(candidates, r[j])
      {
        if j < |before| {
          assert r[i] == before[i] && r[j] == before[j];
        } else {
          assert r == before + [x] && r[j] == x && r[i] == before[i];
        }
      }
    }
  }

  /** Each appended element is a candidate, and adding more candidates
      later does not move its first occurrence. */
  lemma {:induction false} AppendedAreCandidates(found: seq<string>, q: seq<string>, candidates: seq<string>)
    requires q <= candidates
    ensures var before := OfferAll(found, q);
      forall i :: |found| <= i < |before| ==>
        before[i] in q && IndexOf(candidates, before[i]) == IndexOf(q, before[i])
  {
    var before := OfferAll(found, q);
    forall i | |found| <= i < |before|
      ensures before[i] in q && IndexOf(candidates, before[i]) == IndexOf(q, before[i])
    {
      AppendedNotInFound(found, q, i);
      assert before[i] in before;
      assert candidates == q + candidates[|q|..];
      IndexOfAppend(q, candidates[|q|..], before[i]);
    }
  }

  /** The last candidate, when appended, comes after every earlier addition. */
  lemma {:induction false} AppendedBeforeLast(found: seq<string>, q: seq<string>, x: string)
    requires Offer(OfferAll(found, q), x) != OfferAll(found, q)
    ensures var before := OfferAll(found, q);
      x !in q && IndexOf(q + [x], x) == |q| &&
      forall i :: |found| <= i < |before| ==>
        before[i] in q && IndexOf(q + [x], before[i]) < |q|
  {
    var before := OfferAll(found, q);
    assert x !in before && !IsBlank(x);
    forall i | |found| <= i < |before|
      ensures before[i] in q && IndexOf(q + [x], before[i]) < |q|
    {
      AppendedNotInFound(found, q, i);
      assert before[i] in before;
      IndexOfAppend(q, [x], before[i]);
    }
  }

  /** An appended element was not in the starting list. */
  lemma {:induction false} AppendedNotInFound(found: seq<string>, candidates: seq<string>, i: int)
    requires |found| <= i < |OfferAll(found, candidates)|
    ensures OfferAll(found, candidates)[i] !in found
    ensures OfferAll(found, candidates)[i] in candidates
    decreases |candidates|
  {
    var next := Offer(found, candidates[0]);
    var r := OfferAll(found, candidates);
    assert r == OfferAll(next, candidates[1..]);
    if i < |next| {
      assert next == found + [candidates[0]] && r[i] == next[i];
    } else {
      AppendedNotInFound(next, candidates[1..], i);
      assert found <= next;
    }
  }

  /** Started from nothing, the list is in first-seen order of the candidates. */
  lemma {:induction false} FirstSeenOrder(candidates: seq<string>)
    ensures var r := OfferAll([], candidates);
      forall i, j :: 0 <= i < j < |r| ==>
        r[i] in candidates && r[j] in candidates &&
        IndexOf(candidates, r[i]) < IndexOf(candidates, r[j])
  {
    OfferAllKeepsFirstSeenOrder([], candidates);
  }
}
