/** Facts about sequences that the graph and layout proofs share. */
module Seqs {

  /** No element occurs twice. */
  predicate Distinct<T(==)>(s: seq<T>) {
    forall i, j :: 0 <= i < j < |s| ==> s[i] != s[j]
  }

  /** Number of occurrences of x in s. */
  function Count<T(==)>(s: seq<T>, x: T): (c: nat)
    ensures c <= |s|
    ensures c > 0 <==> x in s
  {
    if s == [] then 0 else Count(s[..|s| - 1], x) + (if s[|s| - 1] == x then 1 else 0)
  }

  lemma {:induction false} CountAppend<T>(a: seq<T>, b: seq<T>, x: T)
    ensures Count(a + b, x) == Count(a, x) + Count(b, x)
  {
    if b != [] {
      assert (a + b)[..|a + b| - 1] == a + b[..|b| - 1];
      CountAppend(a, b[..|b| - 1], x);
    } else {
      assert a + b == a;
    }
  }

  /** Sorted in non-decreasing order. */
  predicate Ascending(s: seq<nat>) {
    forall i, j :: 0 <= i < j < |s| ==> s[i] <= s[j]
  }

  /** Sorted in strictly increasing order. */
  predicate StrictlyAscending(s: seq<nat>) {
    forall i, j :: 0 <= i < j < |s| ==> s[i] < s[j]
  }

  function Elements<T>(s: seq<T>): set<T> {
    set x | x in s
  }

  lemma {:induction false} ElementsCard<T>(s: seq<T>)
    ensures |Elements(s)| <= |s|
    ensures Distinct(s) ==> |Elements(s)| == |s|
  {
    if s != [] {
      var t := s[..|s| - 1];
      ElementsCard(t);
      assert Elements(s) == Elements(t) + {s[|s| - 1]};
      if Distinct(s) {
        assert Distinct(t);
        assert s[|s| - 1] !in Elements(t);
      }
    }
  }

  lemma {:induction false} SubsetCard<T>(a: set<T>, b: set<T>)
    requires a <= b
    ensures |a| <= |b|
  {
    if b != {} {
      var x :| x in b;
      SubsetCard(a - {x}, b - {x});
    }
  }

  /** A duplicate-free sequence whose elements all occur in b is no longer than b. */
  lemma DistinctSubsetLength<T>(a: seq<T>, b: seq<T>)
    requires Distinct(a)
    requires forall x :: x in a ==> x in b
    ensures |a| <= |b|
  {
    ElementsCard(a);
    ElementsCard(b);
    SubsetCard(Elements(a), Elements(b));
  }

  function Range(n: nat): (r: seq<nat>)
    ensures |r| == n
    ensures forall i :: 0 <= i < n ==> r[i] == i
  {
    if n == 0 then [] else Range(n - 1) + [n - 1]
  }

  /** A duplicate-free sequence of numbers below n has at most n elements. */
  lemma DistinctBelowLength(a: seq<nat>, n: nat)
    requires Distinct(a)
    requires forall x :: x in a ==> x < n
    ensures |a| <= n
  {
    var r := Range(n);
    forall x | x in a ensures x in r { assert r[x] == x; }
    DistinctSubsetLength(a, r);
  }

  /** A sequence holding no value twice has distinct entries. */
  lemma {:induction false} CountAtMostOneDistinct<T>(s: seq<T>)
    requires forall x :: Count(s, x) <= 1
    ensures Distinct(s)
  {
    if s != [] {
      var t := s[..|s| - 1];
      forall x ensures Count(t, x) <= 1 {
        assert Count(t, x) <= Count(s, x);
      }
      CountAtMostOneDistinct(t);
      assert s[|s| - 1] !in t by {
        assert Count(s, s[|s| - 1]) == Count(t, s[|s| - 1]) + 1;
      }
      forall i, j | 0 <= i < j < |s| ensures s[i] != s[j] {
        if j < |s| - 1 {
          assert s[i] == t[i] && s[j] == t[j];
        } else {
          assert s[i] == t[i] && t[i] in t;
        }
      }
    }
  }
}
