/**
 * `shuffleArray` (quiz-functions.js): a Fisher-Yates shuffle of a copy of the
 * input. The `Math.random()` draws are replaced by `choices`: at step `i` the
 * source swaps position `i` with the random index drawn at step `i`, which
 * is `choices[i]`, a number in [0, i].
 */
module Shuffle {

  /** A draw for every step `i` of the loop, each in [0, i]. */
  predicate ValidChoices(choices: seq<nat>, n: nat) {
    |choices| == n && forall i :: 0 < i < n ==> choices[i] <= i
  }

  /** The swap of positions `i` and `j`. */
  function Swap<T>(s: seq<T>, i: nat, j: nat): (r: seq<T>)
    requires i < |s| && j < |s|
    ensures |r| == |s| && r[i] == s[j] && r[j] == s[i]
    ensures forall k :: 0 <= k < |s| && k != i && k != j ==> r[k] == s[k]
  {
    s[i := s[j]][j := s[i]]
  }

  /** The steps `i`, `i - 1`, ..., 1 of the loop applied to `s`. */
  function ShuffleFrom<T>(s: seq<T>, choices: seq<nat>, i: int): (r: seq<T>)
    requires ValidChoices(choices, |s|) && i < |s|
    ensures |r| == |s|
    decreases i
  {
    if i <= 0 then s else ShuffleFrom(Swap(s, i, choices[i]), choices, i - 1)
  }

  /** The whole shuffle: the loop starts at the last index. */
  function FisherYates<T>(s: seq<T>, choices: seq<nat>): (r: seq<T>)
    requires ValidChoices(choices, |s|)
    ensures |r| == |s|
  {
    ShuffleFrom(s, choices, |s| - 1)
  }

  lemma SwapPermutes<T>(s: seq<T>, i: nat, j: nat)
    requires i < |s| && j < |s|
    ensures multiset(Swap(s, i, j)) == multiset(s)
  {
    var t := s[i := s[j]];
    assert multiset(t) == multiset(s) - multiset{s[i]} + multiset{s[j]};
    assert multiset(t[j := s[i]]) == multiset(t) - multiset{t[j]} + multiset{s[i]};
  }

  /** Every run of steps keeps the length and the multiset of elements. */
  lemma {:induction false} ShuffleFromPermutes<T>(s: seq<T>, choices: seq<nat>, i: int)
    requires ValidChoices(choices, |s|) && i < |s|
    ensures multiset(ShuffleFrom(s, choices, i)) == multiset(s)
    decreases i
  {
    if i > 0 {
      SwapPermutes(s, i, choices[i]);
      ShuffleFromPermutes(Swap(s, i, choices[i]), choices, i - 1);
    }
  }

  /** The shuffle returns a permutation of its input. */
  lemma FisherYatesPermutes<T>(s: seq<T>, choices: seq<nat>)
    requires ValidChoices(choices, |s|)
    ensures multiset(FisherYates(s, choices)) == multiset(s)
  {
    ShuffleFromPermutes(s, choices, |s| - 1);
  }

  /** Drawing `i` at every step swaps each element with itself: the order is kept. */
  lemma {:induction false} IdentityDrawsKeepOrder<T>(s: seq<T>, choices: seq<nat>, i: int)
    requires ValidChoices(choices, |s|) && i < |s|
    requires forall k :: 0 < k < |s| ==> choices[k] == k
    ensures ShuffleFrom(s, choices, i) == s
    decreases i
  {
    if i > 0 {
      assert Swap(s, i, choices[i]) == s;
      IdentityDrawsKeepOrder(s, choices, i - 1);
    }
  }

  /**
   * The last position is filled at the first step and never touched again:
   * it holds the element that was at the first draw.
   */
  lemma {:induction false} LastSlotIsFirstDraw<T>(s: seq<T>, choices: seq<nat>)
    requires ValidChoices(choices, |s|) && 1 < |s|
    ensures FisherYates(s, choices)[|s| - 1] == s[choices[|s| - 1]]
  {
    var n := |s|;
    var t := Swap(s, n - 1, choices[n - 1]);
    StepsBelowKeepSuffix(t, choices, n - 2, n - 1);
  }

  /** Steps `i`, ..., 1 never touch the positions above `i`. */
  lemma {:induction false} StepsBelowKeepSuffix<T>(s: seq<T>, choices: seq<nat>, i: int, k: nat)
    requires ValidChoices(choices, |s|) && i < k < |s|
    ensures ShuffleFrom(s, choices, i)[k] == s[k]
    decreases i
  {
    if i > 0 {
      StepsBelowKeepSuffix(Swap(s, i, choices[i]), choices, i - 1, k);
    }
  }

  /**
   * The loop itself, on a copy of `a` (`[...array]`): `a` is not in any
   * modifies clause, so the input array is left as it was.
   */
  method ShuffleArray<T>(a: array<T>, choices: seq<nat>) returns (shuffled: array<T>)
    requires ValidChoices(choices, a.Length)
    ensures fresh(shuffled) && shuffled.Length == a.Length
    ensures shuffled[..] == FisherYates(a[..], choices)
  {
    shuffled := new T[a.Length](k requires 0 <= k < a.Length reads a => a[k]);
    assert shuffled[..] == a[..];
    var i := a.Length - 1;
    while i > 0
      invariant -1 <= i < a.Length
      invariant ShuffleFrom(shuffled[..], choices, i) == FisherYates(a[..], choices)
      decreases i
    {
      var j := choices[i];
      shuffled[i], shuffled[j] := shuffled[j], shuffled[i];
      i := i - 1;
    }
  }
}
