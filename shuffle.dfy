/**
  `shuffle`: the Fisher–Yates shuffle both pages run on a copy of a block's questions. The random
  source is injected: `draws[k]` is the index `Math.floor(Math.random() * (i + 1))` chosen when the
  downward loop is at `i = n - 1 - k`, so it lies in `0..i`.
 */
module Shuffling {

  /** One draw per loop step, `n - 1` of them for `n >= 1`, each within `0..i`. */
  predicate ValidDraws(draws: seq<int>, n: int) {
    |draws| == (if n > 0 then n - 1 else 0)
    && forall k | 0 <= k < |draws| :: 0 <= draws[k] <= n - 1 - k
  }

  /** `[arr[i], arr[j]] = [arr[j], arr[i]]`. */
  function Swap<T>(s: seq<T>, i: int, j: int): (r: seq<T>)
    requires 0 <= i < |s| && 0 <= j < |s|
    ensures |r| == |s|
  {
    s[i := s[j]][j := s[i]]
  }

  /** A swap exchanges two elements and keeps the multiset. */
  lemma SwapPermutes<T>(s: seq<T>, i: int, j: int)
    requires 0 <= i < |s| && 0 <= j < |s|
    ensures multiset(Swap(s, i, j)) == multiset(s)
  {
  }

  /** The loop continued from index `i` down to 1 on the current contents `s`. */
  function ShuffleFrom<T>(s: seq<T>, draws: seq<int>, i: int): (r: seq<T>)
    requires ValidDraws(draws, |s|) && i < |s|
    ensures |r| == |s|
    decreases i
  {
    if i <= 0 then s
    else ShuffleFrom(Swap(s, i, draws[|s| - 1 - i]), draws, i - 1)
  }

  /** What `shuffle(items)` returns for the draws `draws`. */
  function Shuffled<T>(items: seq<T>, draws: seq<int>): seq<T>
    requires ValidDraws(draws, |items|)
  {
    ShuffleFrom(items, draws, |items| - 1)
  }

  /** `shuffle`: copies the input and swaps in place from the last index down to 1. */
  method Shuffle<T>(items: seq<T>, draws: seq<int>) returns (r: seq<T>)
    requires ValidDraws(draws, |items|)
    ensures r == Shuffled(items, draws)
  {
    var arr := new T[|items|](k requires 0 <= k < |items| => items[k]);
    assert arr[..] == items;
    var i := |items| - 1;
    while i > 0
      invariant -1 <= i < |items|
      invariant arr.Length == |items|
      invariant ShuffleFrom(arr[..], draws, i) == Shuffled(items, draws)
      decreases i
    {
      var j := draws[|items| - 1 - i];
      ghost var before := arr[..];
      arr[i], arr[j] := arr[j], arr[i];
      assert arr[..] == Swap(before, i, j);
      i := i - 1;
    }
    return arr[..];
  }

  /** The shuffle is a permutation: same length, same elements with the same multiplicities. */
  lemma {:induction false} ShuffleFromPermutes<T>(s: seq<T>, draws: seq<int>, i: int)
    requires ValidDraws(draws, |s|) && i < |s|
    ensures multiset(ShuffleFrom(s, draws, i)) == multiset(s)
    decreases i
  {
    if i > 0 {
      SwapPermutes(s, i, draws[|s| - 1 - i]);
      ShuffleFromPermutes(Swap(s, i, draws[|s| - 1 - i]), draws, i - 1);
    }
  }

  lemma ShuffledPermutes<T>(items: seq<T>, draws: seq<int>)
    requires ValidDraws(draws, |items|)
    ensures |Shuffled(items, draws)| == |items|
    ensures multiset(Shuffled(items, draws)) == multiset(items)
  {
    ShuffleFromPermutes(items, draws, |items| - 1);
  }

  /** Positions above the loop index are final: no later swap touches them. */
  lemma {:induction false} AboveIndexFinal<T>(s: seq<T>, draws: seq<int>, i: int, m: int)
    requires ValidDraws(draws, |s|) && 0 <= i < m < |s|
    ensures ShuffleFrom(s, draws, i)[m] == s[m]
    decreases i
  {
    if i > 0 {
      var j := draws[|s| - 1 - i];
      assert Swap(s, i, j)[m] == s[m];
      AboveIndexFinal(Swap(s, i, j), draws, i - 1, m);
    }
  }

  /** The last position receives the element the first draw points at, as Fisher–Yates promises. */
  lemma LastIsFirstDraw<T>(items: seq<T>, draws: seq<int>)
    requires ValidDraws(draws, |items|) && |items| >= 2
    ensures Shuffled(items, draws)[|items| - 1] == items[draws[0]]
  {
    var n := |items|;
    var s1 := Swap(items, n - 1, draws[0]);
    AboveIndexFinal(s1, draws, n - 2, n - 1);
  }

  /** Draws that always pick the loop index itself leave every element where it was. */
  lemma {:induction false} SelfDrawsKeepOrder<T>(s: seq<T>, draws: seq<int>, i: int)
    requires ValidDraws(draws, |s|) && i < |s|
    requires forall k | 0 <= k < |draws| :: draws[k] == |s| - 1 - k
    ensures ShuffleFrom(s, draws, i) == s
    decreases i
  {
    if i > 0 {
      assert Swap(s, i, draws[|s| - 1 - i]) == s;
      SelfDrawsKeepOrder(s, draws, i - 1);
    }
  }
}
