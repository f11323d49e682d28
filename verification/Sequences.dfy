/** Sequences without repetition, and counting their elements. */
module Sequences {

  predicate Distinct<T(==)>(s: seq<T>) {
    forall i, j :: 0 <= i < j < |s| ==> s[i] != s[j]
  }

  function Elements<T>(s: seq<T>): set<T> {
    set x | x in s
  }

  function Identity(n: nat): (s: seq<nat>)
    ensures |s| == n && forall x :: 0 <= x < n ==> s[x] == x
  {
    seq(n, x => x)
  }

  lemma {:induction false} ElementsCount<T>(s: seq<T>)
    ensures |Elements(s)| <= |s|
    ensures Distinct(s) ==> |Elements(s)| == |s|
  {
    if s != [] {
      ElementsCount(s[1..]);
      assert Elements(s) == {s[0]} + Elements(s[1..]);
    }
  }

  lemma Any<T>(s: set<T>) returns (x: T)
    requires s != {}
    ensures x in s
  {
    x :| x in s;
  }

  lemma SubsetIsSmaller<T>(a: set<T>, b: set<T>)
    requires a <= b
    ensures |a| <= |b|
  {
    assert b == a + (b - a);
  }

  /** A set of numbers below n has at most n elements, and is all of them when it has n. */
  lemma {:induction false} SetBelow(s: set<nat>, n: nat)
    requires forall x :: x in s ==> x < n
    ensures |s| <= n
    ensures |s| == n ==> forall x: nat :: x < n ==> x in s
    decreases n
  {
    if n == 0 {
      assert s == {};
    } else {
      var rest := s - {n - 1};
      SetBelow(rest, n - 1);
      assert s == rest || s == rest + {n - 1};
    }
  }

  lemma DistinctBelow(s: seq<nat>, n: nat)
    requires Distinct(s) && forall i :: 0 <= i < |s| ==> s[i] < n
    ensures |s| <= n
  {
    ElementsCount(s);
    SetBelow(Elements(s), n);
  }

  /** A list without repetition that holds exactly the numbers below n has length n. */
  lemma DistinctCovers(s: seq<nat>, n: nat)
    requires Distinct(s) && (forall i :: 0 <= i < |s| ==> s[i] < n) && (forall x: nat :: x < n ==> x in s)
    ensures |s| == n
  {
    forall x | x in Elements(Identity(n))
      ensures x in Elements(s)
    {
    }
    ElementsCount(s);
    ElementsCount(Identity(n));
    SubsetIsSmaller(Elements(Identity(n)), Elements(s));
    DistinctBelow(s, n);
  }

  lemma {:induction false} DistinctMultiset<T>(s: seq<T>)
    requires Distinct(s)
    ensures multiset(s) == multiset(Elements(s))
  {
    if s != [] {
      DistinctMultiset(s[1..]);
      assert s == [s[0]] + s[1..];
      assert Elements(s) == {s[0]} + Elements(s[1..]);
    }
  }

  /** n different numbers below n, in any order, are a permutation of 0..n-1. */
  lemma DistinctPermutes(s: seq<nat>, n: nat)
    requires Distinct(s) && |s| == n && forall i :: 0 <= i < |s| ==> s[i] < n
    ensures multiset(s) == multiset(Identity(n))
  {
    ElementsCount(s);
    SetBelow(Elements(s), n);
    forall x | 0 <= x < n
      ensures x in Elements(Identity(n))
    {
      assert Identity(n)[x] == x;
    }
    assert Elements(s) == Elements(Identity(n));
    DistinctMultiset(s);
    DistinctMultiset(Identity(n));
  }

  /** Copies a block over part of an array. */
  method CopyRange<T>(target: array<T>, at: nat, source: seq<T>)
    requires at + |source| <= target.Length
    modifies target
    ensures target[..] == old(target[..at]) + source + old(target[at + |source|..])
  {
    for i := 0 to |source|
      invariant target[..at] == old(target[..at]) && target[at + i..] == old(target[at + i..])
      invariant forall j :: 0 <= j < i ==> target[at + j] == source[j]
    {
      target[at + i] := source[i];
    }
    assert target[..] == target[..at] + target[at..at + |source|] + target[at + |source|..];
    assert target[at..at + |source|] == source;
  }

  lemma SliceOfSlice<T>(s: seq<T>, a: nat, b: nat, from: nat, to: nat)
    requires a <= b <= |s| && from <= to <= b - a
    ensures s[a..b][from..to] == s[a + from..a + to]
  {
    var l, r := s[a..b][from..to], s[a + from..a + to];
    forall i | 0 <= i < |l|
      ensures l[i] == r[i]
    {
      assert l[i] == s[a..b][from + i];
    }
  }
}
