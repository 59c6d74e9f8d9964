/**
  The server's in-place shuffle: for each position it draws a random index and
  swaps that element with the element at index 0. The random draws are a
  parameter, `picks`, one index per loop iteration.
*/
module Shuffling {

  /** Random draws that the shuffle of a length-`n` array could have made. */
  predicate ValidPicks(picks: seq<int>, n: int)
  {
    |picks| == n && forall i :: 0 <= i < |picks| ==> 0 <= picks[i] < n
  }

  /** One loop iteration: exchange `a[k]` and `a[0]`. */
  function SwapWithFront(a: seq<int>, k: int): (r: seq<int>)
    requires 0 <= k < |a|
    ensures |r| == |a|
    ensures r[0] == a[k] && r[k] == a[0]
    ensures forall j :: 0 < j < |a| && j != k ==> r[j] == a[j]
    ensures multiset(r) == multiset(a)
  {
    var t := a[k];
    a[k := a[0]][0 := t]
  }

  /** The remaining iterations of the loop, driven by the remaining draws. */
  function SwapAll(a: seq<int>, picks: seq<int>): (r: seq<int>)
    requires forall i :: 0 <= i < |picks| ==> 0 <= picks[i] < |a|
    ensures |r| == |a|
    ensures multiset(r) == multiset(a)
    decreases |picks|
  {
    if |picks| == 0 then a
    else SwapAll(SwapWithFront(a, picks[0]), picks[1..])
  }

  /** Draws that are all 0 swap the front element with itself: nothing moves. */
  lemma {:induction false} SwapAllZeros(a: seq<int>, picks: seq<int>)
    requires |a| > 0 && forall i :: 0 <= i < |picks| ==> picks[i] == 0
    ensures SwapAll(a, picks) == a
    decreases |picks|
  {
    if |picks| > 0 {
      assert SwapWithFront(a, 0) == a;
      SwapAllZeros(a, picks[1..]);
    }
  }

  /** The shuffle of the whole array: some permutation of its input. */
  function Shuffle(a: seq<int>, picks: seq<int>): (r: seq<int>)
    requires ValidPicks(picks, |a|)
    ensures |r| == |a|
    ensures multiset(r) == multiset(a)
  {
    SwapAll(a, picks)
  }
}
