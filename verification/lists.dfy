/** Sequence facts shared by the detector: duplicate-freedom, first
    occurrence, and order-preserving selection. */
module Lists {

  /** No element occurs twice. */
  predicate NoDuplicates<T(==)>(s: seq<T>) {
    forall i, j :: 0 <= i < j < |s| ==> s[i] != s[j]
  }

  /** Position of the first occurrence of `x` in `s`. */
  function IndexOf<T(==)>(s: seq<T>, x: T): (k: nat)
    requires x in s
    ensures k < |s| && s[k] == x
    ensures forall i :: 0 <= i < k ==> s[i] != x
  {
    if s[0] == x then 0 else 1 + IndexOf(s[1..], x)
  }

  /** Appending after `s` does not move a first occurrence inside `s`. */
  lemma {:induction false} IndexOfAppend<T>(s: seq<T>, t: seq<T>, x: T)
    requires x in s
    ensures IndexOf(s + t, x) == IndexOf(s, x)
  {
    var k := IndexOf(s, x);
    var k' := IndexOf(s + t, x);
    assert (s + t)[k] == x;
  }

  /** `a` is `b` with some elements deleted, the rest kept in order. */
  predicate IsSubsequence<T(==)>(a: seq<T>, b: seq<T>)
    decreases |b|
  {
    if a == [] then true
    else if b == [] then false
    else if a[0] == b[0] then IsSubsequence(a[1..], b[1..])
    else IsSubsequence(a, b[1..])
  }

  /** The elements of `s` that satisfy `keep`, in the order of `s`
      (LINQ `Where`). */
  function Filter<T(==,!new)>(s: seq<T>, keep: T -> bool): (r: seq<T>)
    ensures forall x :: x in r <==> x in s && keep(x)
    ensures forall k :: 0 <= k < |r| ==> keep(r[k])
    ensures IsSubsequence(r, s)
    ensures NoDuplicates(s) ==> NoDuplicates(r)
    ensures |r| <= |s|
    decreases |s|
  {
    if s == [] then []
    else
      var rest := Filter(s[1..], keep);
      assert forall x :: x in s ==> x == s[0] || x in s[1..];
      assert NoDuplicates(s) ==> NoDuplicates(s[1..]) && s[0] !in s[1..] by {
        if NoDuplicates(s) {
          NoDuplicatesCons(s);
        }
      }
      if keep(s[0]) then
        var r := [s[0]] + rest;
        assert r[1..] == rest;
        assert NoDuplicates(s) ==> NoDuplicates(r) by {
          if NoDuplicates(s) {
            NoDuplicatesConsBack(s[0], rest);
          }
        }
        r
      else rest
  }

  lemma {:induction false} NoDuplicatesCons<T>(s: seq<T>)
    requires s != [] && NoDuplicates(s)
    ensures NoDuplicates(s[1..]) && s[0] !in s[1..]
  {
    assert forall j :: 0 <= j < |s[1..]| ==> s[1..][j] == s[j + 1];
  }

  lemma {:induction false} NoDuplicatesConsBack<T>(x: T, s: seq<T>)
    requires NoDuplicates(s) && x !in s
    ensures NoDuplicates([x] + s)
  {
    var t := [x] + s;
    forall i, j | 0 <= i < j < |t| ensures t[i] != t[j] {
      assert t[j] == s[j - 1];
      if i > 0 {
        assert t[i] == s[i - 1];
      } else {
        assert s[j - 1] in s;
      }
    }
  }

  lemma {:induction false} NoDuplicatesSnoc<T>(s: seq<T>, x: T)
    ensures NoDuplicates(s + [x]) <==> NoDuplicates(s) && x !in s
  {
    var t := s + [x];
    assert forall i :: 0 <= i < |s| ==> t[i] == s[i];
    if x in s {
      var i :| 0 <= i < |s| && s[i] == x;
      assert t[i] == t[|s|];
    }
    if NoDuplicates(s) && x !in s {
      forall i, j | 0 <= i < j < |t| ensures t[i] != t[j] {
        if j == |s| {
          assert t[i] == s[i] && s[i] in s;
        }
      }
    }
  }

  lemma {:induction false} NoDuplicatesSplit<T>(s: seq<T>, t: seq<T>)
    requires NoDuplicates(s + t)
    ensures NoDuplicates(s)
  {
    assert forall i :: 0 <= i < |s| ==> (s + t)[i] == s[i];
  }

  /** Two duplicate-free sequences with no common element concatenate to
      a duplicate-free sequence. */
  lemma {:induction false} NoDuplicatesAppend<T>(s: seq<T>, t: seq<T>)
    requires NoDuplicates(s) && NoDuplicates(t)
    requires forall x :: x in t ==> x !in s
    ensures NoDuplicates(s + t)
  {
    var u := s + t;
    forall i, j | 0 <= i < j < |u| ensures u[i] != u[j] {
      if i < |s| && j >= |s| {
        assert u[j] == t[j - |s|] && u[i] == s[i];
        assert t[j - |s|] in t;
      } else if j < |s| {
        assert u[i] == s[i] && u[j] == s[j];
      } else {
        assert u[i] == t[i - |s|] && u[j] == t[j - |s|];
      }
    }
  }

  /** A sequence is empty exactly when nothing is in it. */
  lemma {:induction false} EmptyIffNoMember<T>(s: seq<T>)
    ensures s == [] <==> forall x :: x !in s
  {
    if s != [] {
      assert s[0] in s;
    }
  }

  /** A duplicate-free sequence whose only member is `x` is `[x]`. */
  lemma {:induction false} SoleMember<T>(s: seq<T>, x: T)
    requires NoDuplicates(s) && x in s
    requires forall y :: y in s ==> y == x
    ensures s == [x]
  {
    assert s[0] in s;
    NoDuplicatesCons(s);
    assert forall y :: y in s[1..] ==> y in s;
    EmptyIffNoMember(s[1..]);
    assert s == [s[0]] + s[1..];
  }

  /** The positions of `s` whose element satisfies `keep`. */
  ghost function IndexesWhere<T>(s: seq<T>, keep: T -> bool): set<int> {
    set k | 0 <= k < |s| && keep(s[k])
  }

  /** Every member of a set of integers moved up by one. */
  ghost function Shift(s: set<int>): set<int> {
    set k | k in s :: k + 1
  }

  lemma {:induction false} ShiftMember(s: set<int>, k: int)
    ensures k in Shift(s) <==> k - 1 in s
  {
    if k - 1 in s {
      assert (k - 1) + 1 in Shift(s);
    }
  }

  /** Moving a set up by one keeps its size. */
  lemma {:induction false} ShiftCardinality(s: set<int>)
    ensures |Shift(s)| == |s|
    decreases |s|
  {
    if x :| x in s {
      var t := s - {x};
      ShiftCardinality(t);
      forall k ensures k in Shift(s) <==> k in Shift(t) + {x + 1} {
        ShiftMember(s, k);
        ShiftMember(t, k);
      }
      assert Shift(s) == Shift(t) + {x + 1};
    } else {
      forall k ensures k !in Shift(s) {
        ShiftMember(s, k);
      }
      assert forall y :: y !in s;
      assert Shift(s) == {} && s == {};
    }
  }

  /** The positions of a non-empty sequence: its head's, if it is kept,
      and its tail's moved up by one. */
  lemma {:induction false} IndexesWhereCons<T>(s: seq<T>, keep: T -> bool)
    requires s != []
    ensures |IndexesWhere(s, keep)| == (if keep(s[0]) then 1 else 0) + |IndexesWhere(s[1..], keep)|
  {
    var tail := Shift(IndexesWhere(s[1..], keep));
    assert forall k :: k in tail <==> 1 <= k < |s| && keep(s[k]) by {
      forall k ensures k in tail <==> 1 <= k < |s| && keep(s[k]) {
        ShiftMember(IndexesWhere(s[1..], keep), k);
        if 1 <= k < |s| {
          assert s[1..][k - 1] == s[k];
          assert keep(s[1..][k - 1]) <==> keep(s[k]);
        }
      }
    }
    var head: set<int> := if keep(s[0]) then {0} else {};
    assert IndexesWhere(s, keep) == head + tail;
    assert 0 !in tail;
    ShiftCardinality(IndexesWhere(s[1..], keep));
  }

  /** The filter keeps one element per position whose element satisfies
      `keep`. */
  lemma {:induction false} FilterCount<T(!new)>(s: seq<T>, keep: T -> bool)
    ensures |Filter(s, keep)| == |IndexesWhere(s, keep)|
    decreases |s|
  {
    if s != [] {
      FilterCount(s[1..], keep);
      IndexesWhereCons(s, keep);
    }
  }
}
