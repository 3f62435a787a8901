/**
 * The Fisher–Yates shuffle of quiz.js `shuffle`. `Math.random` is replaced
 * by an explicit sequence of draws: `draws[i]` is the index the walk picks
 * when it stands at position `i` (`Math.floor(Math.random() * (i + 1))`, so
 * `0 <= draws[i] <= i`); `draws[0]` is never used.
 */
module Shuffle {

  /** A draw sequence the random source could have produced for `n` elements. */
  predicate ValidDraws(draws: seq<nat>, n: nat) {
    |draws| == n && forall i :: 0 < i < n ==> draws[i] <= i
  }

  /** Exchanges positions `i` and `j` (the destructuring swap at quiz.js:17). */
  function Swap<T>(a: seq<T>, i: nat, j: nat): (r: seq<T>)
    requires i < |a| && j < |a|
    ensures |r| == |a| && multiset(r) == multiset(a)
    ensures r[i] == a[j] && r[j] == a[i]
    ensures forall k :: 0 <= k < |a| && k != i && k != j ==> r[k] == a[k]
  {
    a[i := a[j]][j := a[i]]
  }

  /** The walk's steps at positions `hi - 1`, `hi - 2`, ..., `1`, in that order.
      It only permutes, and positions from `hi` upwards are never touched. */
  function Walk<T>(a: seq<T>, draws: seq<nat>, hi: nat): (r: seq<T>)
    requires hi <= |a| && ValidDraws(draws, |a|)
    ensures |r| == |a| && multiset(r) == multiset(a)
    ensures r[hi..] == a[hi..]
    decreases hi
  {
    if hi <= 1 then a
    else
      var r := Walk(Swap(a, hi - 1, draws[hi - 1]), draws, hi - 1);
      assert Swap(a, hi - 1, draws[hi - 1])[hi..] == a[hi..];
      r
  }

  /** The whole walk, from the last position down to position 1. */
  function Shuffled<T>(a: seq<T>, draws: seq<nat>): seq<T>
    requires ValidDraws(draws, |a|)
  {
    Walk(a, draws, |a|)
  }

  /** quiz.js `shuffle`: copies the input (a Dafny sequence is a value, so the
      caller's sequence is never changed) and swaps position `i` with
      `draws[i]` for `i` from the end down to 1. The result is exactly the
      walk, and hence a permutation of the input. */
  method Shuffle<T>(arr: seq<T>, draws: seq<nat>) returns (a: seq<T>)
    requires ValidDraws(draws, |arr|)
    ensures a == Shuffled(arr, draws)
    ensures |a| == |arr| && multiset(a) == multiset(arr)
  {
    a := arr;
    var i := |a| - 1;
    while i > 0
      invariant -1 <= i < |arr|
      invariant |a| == |arr|
      invariant Walk(a, draws, i + 1) == Shuffled(arr, draws)
    {
      var j := draws[i];
      a := Swap(a, i, j);
      i := i - 1;
    }
  }

  /** If every draw picks its own position, nothing moves. */
  lemma {:induction false} IdentityDraws<T>(a: seq<T>, draws: seq<nat>, hi: nat)
    requires hi <= |a| && ValidDraws(draws, |a|)
    requires forall i :: 0 < i < |a| ==> draws[i] == i
    ensures Walk(a, draws, hi) == a
  {
    if hi > 1 {
      assert Swap(a, hi - 1, draws[hi - 1]) == a;
      IdentityDraws(a, draws, hi - 1);
    }
  }

  /** The walk at `hi` reads only the draws below `hi`. */
  lemma {:induction false} WalkReadsDrawsBelow<T>(a: seq<T>, d1: seq<nat>, d2: seq<nat>, hi: nat)
    requires hi <= |a| && ValidDraws(d1, |a|) && ValidDraws(d2, |a|)
    requires forall i :: 0 < i < hi ==> d1[i] == d2[i]
    ensures Walk(a, d1, hi) == Walk(a, d2, hi)
    decreases hi
  {
    if hi > 1 {
      WalkReadsDrawsBelow(Swap(a, hi - 1, d1[hi - 1]), d1, d2, hi - 1);
    }
  }

  /** Any arrangement of `a[..hi]` that leaves `a[hi..]` in place is produced
      by some draw sequence. */
  lemma {:induction false} WalkReaches<T>(a: seq<T>, b: seq<T>, hi: nat) returns (draws: seq<nat>)
    requires hi <= |a| == |b|
    requires a[hi..] == b[hi..] && multiset(a[..hi]) == multiset(b[..hi])
    ensures ValidDraws(draws, |a|) && Walk(a, draws, hi) == b
    decreases hi
  {
    if hi <= 1 {
      draws := seq(|a|, i => i);
      SameBelowOne(a, b, hi);
    } else {
      var j := PlaceTop(a, b, hi);
      var a' := Swap(a, hi - 1, j);
      var rest := WalkReaches(a', b, hi - 1);
      draws := rest[hi - 1 := j];
      WalkReadsDrawsBelow(a', draws, rest, hi - 1);
    }
  }

  lemma SameBelowOne<T>(a: seq<T>, b: seq<T>, hi: nat)
    requires hi <= 1 && hi <= |a| == |b|
    requires a[hi..] == b[hi..] && multiset(a[..hi]) == multiset(b[..hi])
    ensures a == b
  {
    if hi == 1 {
      assert a[..1] == [a[0]] && b[..1] == [b[0]];
      assert a[0] in multiset(b[..1]);
    }
    assert a == a[..hi] + a[hi..] && b == b[..hi] + b[hi..];
  }

  /** A position holding `x`, for an `x` that occurs in `a`. */
  lemma IndexOf<T>(a: seq<T>, x: T) returns (j: nat)
    requires x in multiset(a)
    ensures j < |a| && a[j] == x
  {
    assert x in a;
    j :| 0 <= j < |a| && a[j] == x;
  }

  /** Equal multisets stay equal when the same last element is removed. */
  lemma DropLast<T>(a: seq<T>, b: seq<T>)
    requires |a| == |b| > 0 && a[|a| - 1] == b[|b| - 1] && multiset(a) == multiset(b)
    ensures multiset(a[..|a| - 1]) == multiset(b[..|b| - 1])
  {
    var x := a[|a| - 1];
    assert a == a[..|a| - 1] + [x];
    assert b == b[..|b| - 1] + [x];
    assert multiset(a[..|a| - 1]) == multiset(a) - multiset{x};
    assert multiset(b[..|b| - 1]) == multiset(b) - multiset{x};
  }

  /** Swapping inside a prefix commutes with taking the prefix. */
  lemma SwapPrefix<T>(a: seq<T>, i: nat, j: nat, hi: nat)
    requires i < hi && j < hi && hi <= |a|
    ensures Swap(a, i, j)[..hi] == Swap(a[..hi], i, j)
  {
  }

  /** One step of `WalkReaches`: a draw `j` that brings `b[hi - 1]` to
      position `hi - 1` and leaves a smaller instance of the same problem. */
  lemma PlaceTop<T>(a: seq<T>, b: seq<T>, hi: nat) returns (j: nat)
    requires 1 < hi <= |a| == |b|
    requires a[hi..] == b[hi..] && multiset(a[..hi]) == multiset(b[..hi])
    ensures j < hi
    ensures var a' := Swap(a, hi - 1, j);
      a'[hi - 1..] == b[hi - 1..] && multiset(a'[..hi - 1]) == multiset(b[..hi - 1])
  {
    var top := b[hi - 1];
    assert b[..hi][hi - 1] == top;
    j := IndexOf(a[..hi], top);
    var a' := Swap(a, hi - 1, j);
    var pa := a'[..hi];
    SwapPrefix(a, hi - 1, j, hi);
    DropLast(pa, b[..hi]);
    assert pa[..hi - 1] == a'[..hi - 1] && b[..hi][..hi - 1] == b[..hi - 1];
    assert a'[hi - 1..] == [top] + a'[hi..];
    assert b[hi - 1..] == [top] + b[hi..];
  }

  /** Every permutation of the input is the result of some draw sequence. */
  lemma ShuffleReachesEveryPermutation<T>(a: seq<T>, b: seq<T>)
    requires multiset(a) == multiset(b)
    ensures exists draws :: ValidDraws(draws, |a|) && Shuffled(a, draws) == b
  {
    assert |a| == |multiset(a)| == |multiset(b)| == |b|;
    assert a[..|a|] == a && b[..|b|] == b;
    var draws := WalkReaches(a, b, |a|);
  }

  /** No element occurs twice. */
  ghost predicate Distinct<T>(a: seq<T>) {
    forall i, j :: 0 <= i < j < |a| ==> a[i] != a[j]
  }

  lemma DistinctIndices<T>(a: seq<T>, i: nat, j: nat)
    requires Distinct(a) && i < |a| && j < |a| && a[i] == a[j]
    ensures i == j
  {
  }

  lemma SwapKeepsDistinct<T>(a: seq<T>, i: nat, j: nat)
    requires Distinct(a) && i < |a| && j < |a|
    ensures Distinct(Swap(a, i, j))
  {
  }

  /** On distinct elements, two draw sequences give the same result only if
      they agree on every draw below `hi`. */
  lemma {:induction false} WalkInjective<T>(a: seq<T>, d1: seq<nat>, d2: seq<nat>, hi: nat)
    requires Distinct(a)
    requires hi <= |a| && ValidDraws(d1, |a|) && ValidDraws(d2, |a|)
    requires Walk(a, d1, hi) == Walk(a, d2, hi)
    ensures forall i :: 0 < i < hi ==> d1[i] == d2[i]
    decreases hi
  {
    if hi > 1 {
      var a1 := Swap(a, hi - 1, d1[hi - 1]);
      var a2 := Swap(a, hi - 1, d2[hi - 1]);
      var w1, w2 := Walk(a1, d1, hi - 1), Walk(a2, d2, hi - 1);
      assert w1 == w2;
      assert w1[hi - 1] == w1[hi - 1..][0] == a1[hi - 1] == a[d1[hi - 1]];
      assert w2[hi - 1] == w2[hi - 1..][0] == a2[hi - 1] == a[d2[hi - 1]];
      DistinctIndices(a, d1[hi - 1], d2[hi - 1]);
      SwapKeepsDistinct(a, hi - 1, d1[hi - 1]);
      WalkInjective(a1, d1, d2, hi - 1);
      forall i | 0 < i < hi
        ensures d1[i] == d2[i]
      {
        if i < hi - 1 {
          assert d1[i] == d2[i];
        }
      }
    }
  }

  /** On distinct elements, the shuffle's result determines every draw it
      used: with the surjectivity above, the valid draw sequences (counting
      `draws[0]` as fixed) correspond one-to-one to the orderings of the input,
      which is what makes independent uniform draws give a uniform
      permutation. */
  lemma ShuffleDeterminesDraws<T>(a: seq<T>, d1: seq<nat>, d2: seq<nat>)
    requires Distinct(a) && ValidDraws(d1, |a|) && ValidDraws(d2, |a|)
    requires Shuffled(a, d1) == Shuffled(a, d2)
    ensures forall i :: 0 < i < |a| ==> d1[i] == d2[i]
  {
    WalkInjective(a, d1, d2, |a|);
  }
}
