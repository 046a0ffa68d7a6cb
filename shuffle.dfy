/** The turn-order randomiser applied once, at activation, to the pending
    thing ids. The repository's own `shuffleInPlace` is not part of this
    model; a Fisher-Yates shuffle stands in for it, with the random draws
    supplied as an input, and only its permutation property is relied on by
    the rest of the model. */
module Shuffle {

  /** The k-th random draw; a missing draw reads as 0. */
  function Draw(draws: seq<nat>, k: nat): nat
  {
    if k < |draws| then draws[k] else 0
  }

  function Swap<T>(s: seq<T>, i: nat, j: nat): (r: seq<T>)
    requires i < |s| && j < |s|
  {
    s[i := s[j]][j := s[i]]
  }

  /** Fisher-Yates from index `i` down to 1: index `i` is swapped with a
      drawn index in [0, i], using draw number |s| - 1 - i. */
  function ShuffleFrom<T>(s: seq<T>, i: nat, draws: seq<nat>): seq<T>
    requires i < |s|
    decreases i
  {
    if i == 0 then s
    else
      var j := Draw(draws, |s| - 1 - i) % (i + 1);
      ShuffleFrom(Swap(s, i, j), i - 1, draws)
  }

  function Shuffled<T>(s: seq<T>, draws: seq<nat>): seq<T>
  {
    if |s| == 0 then s else ShuffleFrom(s, |s| - 1, draws)
  }

  lemma SwapPermutes<T>(s: seq<T>, i: nat, j: nat)
    requires i < |s| && j < |s|
    ensures |Swap(s, i, j)| == |s|
    ensures multiset(Swap(s, i, j)) == multiset(s)
  {
    var t := s[i := s[j]];
    assert multiset(t) == multiset(s) - multiset{s[i]} + multiset{s[j]};
    assert t[j] == (if i == j then s[i] else s[j]);
  }

  lemma {:induction false} ShuffleFromPermutes<T>(s: seq<T>, i: nat, draws: seq<nat>)
    requires i < |s|
    ensures |ShuffleFrom(s, i, draws)| == |s|
    ensures multiset(ShuffleFrom(s, i, draws)) == multiset(s)
    decreases i
  {
    if i > 0 {
      var j := Draw(draws, |s| - 1 - i) % (i + 1);
      SwapPermutes(s, i, j);
      ShuffleFromPermutes(Swap(s, i, j), i - 1, draws);
    }
  }

  /** The shuffled order holds exactly the ids it was given, each as often
      as before: a permutation, whatever the draws. */
  lemma ShufflePermutes<T>(s: seq<T>, draws: seq<nat>)
    ensures |Shuffled(s, draws)| == |s|
    ensures multiset(Shuffled(s, draws)) == multiset(s)
  {
    if |s| > 0 {
      ShuffleFromPermutes(s, |s| - 1, draws);
    }
  }

  /** Shuffles the array in place, as the source's shuffle does to the list
      of pending ids. */
  method ShuffleInPlace<T>(a: array<T>, draws: seq<nat>)
    modifies a
    ensures a[..] == Shuffled(old(a[..]), draws)
  {
    if a.Length == 0 {
      return;
    }
    var i := a.Length - 1;
    while i > 0
      invariant 0 <= i < a.Length
      invariant ShuffleFrom(a[..], i, draws) == Shuffled(old(a[..]), draws)
      decreases i
    {
      var j := Draw(draws, a.Length - 1 - i) % (i + 1);
      ghost var before := a[..];
      a[i], a[j] := a[j], a[i];
      assert a[..] == Swap(before, i, j);
      i := i - 1;
    }
  }

  /** A sequence with the same elements as a duplicate-free one has no
      duplicates either. */
  lemma {:induction false} PermutationKeepsDistinct<T>(s: seq<T>, t: seq<T>)
    requires multiset(s) == multiset(t)
    requires forall i, j :: 0 <= i < j < |s| ==> s[i] != s[j]
    ensures forall i, j :: 0 <= i < j < |t| ==> t[i] != t[j]
  {
    forall i, j | 0 <= i < j < |t|
      ensures t[i] != t[j]
    {
      if t[i] == t[j] {
        var x := t[i];
        assert multiset(t)[x] >= 2 by {
          var w := t[..i] + [x] + t[i+1..j] + [x] + t[j+1..];
          assert w == t;
          assert multiset(w)[x] >= 2;
        }
        DistinctCountsOnce(s, x);
        assert false;
      }
    }
  }

  lemma {:induction false} DistinctCountsOnce<T>(s: seq<T>, x: T)
    requires forall i, j :: 0 <= i < j < |s| ==> s[i] != s[j]
    ensures multiset(s)[x] <= 1
  {
    if |s| > 0 {
      var rest := s[1..];
      DistinctCountsOnce(rest, x);
      assert s == [s[0]] + rest;
      if s[0] == x {
        assert x !in rest;
        assert multiset(rest)[x] == 0;
      }
    }
  }
}
