/**
 Sequential models of the two `java.util.stream.Stream` operations the glossary
 pipeline is built from, `filter` and `map`. A stream is modelled by the finite,
 ordered sequence of the elements it would deliver; laziness is not modelled.
 */
module Streams {

  /** `Stream.filter`: keeps, in their original order, exactly the elements that satisfy `p`. */
  function Filter<T>(s: seq<T>, p: T -> bool): (r: seq<T>)
    ensures |r| <= |s|
    ensures forall x :: x in r ==> x in s && p(x)
    ensures forall x :: x in s && p(x) ==> x in r
  {
    if |s| == 0 then [] else (if p(s[0]) then [s[0]] else []) + Filter(s[1..], p)
  }

  /** Each occurrence of an element that satisfies `p` survives the filter exactly once,
      and no other element survives; so nothing is lost exactly when every element satisfies `p`. */
  lemma {:induction false} FilterCounts<T>(s: seq<T>, p: T -> bool)
    ensures forall x :: x in s ==> multiset(Filter(s, p))[x] == if p(x) then multiset(s)[x] else 0
    ensures |Filter(s, p)| == |s| <==> forall x :: x in s ==> p(x)
  {
    if |s| > 0 {
      assert s == [s[0]] + s[1..];
      FilterCounts(s[1..], p);
    }
  }

  /** `Stream.map`: applies `f` to every element, position by position. */
  function Map<T, U>(s: seq<T>, f: T -> U): (r: seq<U>)
    ensures |r| == |s|
    ensures forall i :: 0 <= i < |s| ==> r[i] == f(s[i])
  {
    if |s| == 0 then [] else [f(s[0])] + Map(s[1..], f)
  }

  /** Every value `Map` produces is the image of some element, and every element's image is produced. */
  lemma MapMembership<T, U>(s: seq<T>, f: T -> U, y: U)
    ensures y in Map(s, f) <==> exists x :: x in s && f(x) == y
  {
  }

  /** The positions, from `from` on, of the elements of `s` that satisfy `p`:
      strictly increasing, each one satisfying `p`, and none left out. */
  function KeptIndices<T>(s: seq<T>, p: T -> bool, from: nat): (r: seq<nat>)
    requires from <= |s|
    ensures forall k :: 0 <= k < |r| ==> from <= r[k] < |s| && p(s[r[k]])
    ensures forall k, l :: 0 <= k < l < |r| ==> r[k] < r[l]
    ensures forall i {:trigger i in r} :: from <= i < |s| && p(s[i]) ==> i in r
    decreases |s| - from
  {
    if from == |s| then []
    else (if p(s[from]) then [from] else []) + KeptIndices(s, p, from + 1)
  }

  /** Filtering the suffix of `s` that starts at `from` picks out exactly the
      elements at `KeptIndices(s, p, from)`, in that order. */
  lemma {:induction false} FilterPicksKeptIndicesFrom<T>(s: seq<T>, p: T -> bool, from: nat)
    requires from <= |s|
    ensures |Filter(s[from..], p)| == |KeptIndices(s, p, from)|
    ensures forall k :: 0 <= k < |KeptIndices(s, p, from)| ==>
              Filter(s[from..], p)[k] == s[KeptIndices(s, p, from)[k]]
    decreases |s| - from
  {
    if from < |s| {
      FilterPicksKeptIndicesFrom(s, p, from + 1);
      var t := s[from..];
      assert t[0] == s[from] && t[1..] == s[from + 1..];
      var r, rest := Filter(t, p), Filter(s[from + 1..], p);
      var idx, restIdx := KeptIndices(s, p, from), KeptIndices(s, p, from + 1);
      if p(s[from]) {
        assert r == [s[from]] + rest;
        assert idx == [from] + restIdx;
        forall k | 1 <= k < |idx|
          ensures r[k] == s[idx[k]]
        {
          assert r[k] == rest[k - 1];
          assert idx[k] == restIdx[k - 1];
        }
      } else {
        assert r == rest;
        assert idx == restIdx;
      }
    }
  }

  /** `Filter` yields the subsequence of `s` at the strictly increasing positions
      `KeptIndices(s, p, 0)`, which are exactly the positions whose element satisfies `p`. */
  lemma FilterIsOrderedSubsequence<T>(s: seq<T>, p: T -> bool)
    ensures |Filter(s, p)| == |KeptIndices(s, p, 0)|
    ensures forall k :: 0 <= k < |Filter(s, p)| ==> Filter(s, p)[k] == s[KeptIndices(s, p, 0)[k]]
  {
    assert s[0..] == s;
    FilterPicksKeptIndicesFrom(s, p, 0);
  }

  /** Filtering distributes over concatenation. */
  lemma {:induction false} FilterConcat<T>(a: seq<T>, b: seq<T>, p: T -> bool)
    ensures Filter(a + b, p) == Filter(a, p) + Filter(b, p)
  {
    if |a| == 0 {
      assert a + b == b;
    } else {
      assert (a + b)[0] == a[0];
      assert (a + b)[1..] == a[1..] + b;
      FilterConcat(a[1..], b, p);
    }
  }

  /** Mapping distributes over concatenation. */
  lemma MapConcat<T, U>(a: seq<T>, b: seq<T>, f: T -> U)
    ensures Map(a + b, f) == Map(a, f) + Map(b, f)
  {
  }

  /** Filtering a one-element sequence keeps the element exactly when it satisfies `p`. */
  lemma FilterSingleton<T>(x: T, p: T -> bool)
    ensures Filter([x], p) == if p(x) then [x] else []
  {
  }

  /** Two successive filters may be applied in either order. */
  lemma {:induction false} FilterCommutes<T>(s: seq<T>, p: T -> bool, q: T -> bool)
    ensures Filter(Filter(s, p), q) == Filter(Filter(s, q), p)
  {
    if |s| > 0 {
      var head, tail := s[0], s[1..];
      var hp := if p(head) then [head] else [];
      var hq := if q(head) then [head] else [];
      FilterConcat(hp, Filter(tail, p), q);
      FilterConcat(hq, Filter(tail, q), p);
      FilterSingleton(head, p);
      FilterSingleton(head, q);
      FilterCommutes(tail, p, q);
    }
  }

  /** Two successive filters equal one filter on the conjunction of their predicates. */
  lemma {:induction false} FilterFuse<T>(s: seq<T>, p: T -> bool, q: T -> bool, both: T -> bool)
    requires forall x :: both(x) == (p(x) && q(x))
    ensures Filter(Filter(s, p), q) == Filter(s, both)
  {
    if |s| > 0 {
      var head, tail := s[0], s[1..];
      var hp := if p(head) then [head] else [];
      FilterConcat(hp, Filter(tail, p), q);
      FilterSingleton(head, q);
      FilterFuse(tail, p, q, both);
    }
  }
}
