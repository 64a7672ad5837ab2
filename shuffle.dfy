/**
 * The in-place Fisher-Yates shuffle used to randomise the order in which the
 * maze carver tries a cell's neighbors.
 *
 * The ambient random source is replaced by injected draws, each a real number
 * in [0, 1). `Pick` turns a draw into the index `Math.floor(draw * counter)`;
 * the shuffle itself is given the resulting indices, the k-th iteration of its
 * loop using the k-th one.
 */
module Shuffling {

  /** Every draw lies in [0, 1), as a value of Math.random does. */
  predicate ValidDraws(draws: seq<real>)
  {
    forall k :: 0 <= k < |draws| ==> 0.0 <= draws[k] < 1.0
  }

  /** `Math.floor(r * counter)`: the index a draw selects among `counter` slots. */
  function Pick(r: real, counter: nat): (index: nat)
    requires 0.0 <= r < 1.0
    requires counter > 0
    ensures index < counter
  {
    assert r * counter as real < counter as real;
    (r * counter as real).Floor
  }

  /**
   * Random indices are fit for the shuffle of a sequence of their own length
   * when the k-th index lies in [0, |picks| - k), the range of the k-th
   * iteration's `counter`.
   */
  predicate ValidPicks(picks: seq<nat>)
  {
    forall k :: 0 <= k < |picks| ==> picks[k] < |picks| - k
  }

  /** The indices the shuffle of `|draws|` elements derives from its draws. */
  function Picks(draws: seq<real>): (picks: seq<nat>)
    requires ValidDraws(draws)
    ensures |picks| == |draws| && ValidPicks(picks)
  {
    seq(|draws|, k requires 0 <= k < |draws| => Pick(draws[k], |draws| - k))
  }

  /** `s` with the elements at `i` and `j` exchanged. */
  function Swap<T>(s: seq<T>, i: nat, j: nat): (t: seq<T>)
    requires i < |s| && j < |s|
    ensures |t| == |s| && t[i] == s[j] && t[j] == s[i]
    ensures forall k :: 0 <= k < |s| && k != i && k != j ==> t[k] == s[k]
  {
    s[i := s[j]][j := s[i]]
  }

  lemma SwapPermutes<T>(s: seq<T>, i: nat, j: nat)
    requires i < |s| && j < |s|
    ensures multiset(Swap(s, i, j)) == multiset(s)
  {
  }

  /**
   * The contents of the array after the loop has run from `counter` down to 0,
   * starting from contents `s`; the iteration with a given `counter` uses the
   * index numbered `|s| - counter`.
   */
  ghost function ShuffleFrom<T>(s: seq<T>, picks: seq<nat>, counter: nat): seq<T>
    requires |picks| == |s| && ValidPicks(picks)
    requires counter <= |s|
    decreases counter
  {
    if counter == 0 then s
    else ShuffleFrom(Swap(s, counter - 1, picks[|s| - counter]), picks, counter - 1)
  }

  /** What the whole shuffle makes of `s` with the given indices. */
  ghost function Shuffled<T>(s: seq<T>, picks: seq<nat>): seq<T>
    requires |picks| == |s| && ValidPicks(picks)
  {
    ShuffleFrom(s, picks, |s|)
  }

  /** Whatever the indices, the loop only rearranges the elements it was given. */
  lemma {:induction false} ShuffleFromPermutes<T>(s: seq<T>, picks: seq<nat>, counter: nat)
    requires |picks| == |s| && ValidPicks(picks)
    requires counter <= |s|
    ensures |ShuffleFrom(s, picks, counter)| == |s|
    ensures multiset(ShuffleFrom(s, picks, counter)) == multiset(s)
    decreases counter
  {
    if counter > 0 {
      SwapPermutes(s, counter - 1, picks[|s| - counter]);
      ShuffleFromPermutes(Swap(s, counter - 1, picks[|s| - counter]), picks, counter - 1);
    }
  }

  /** The shuffle is a permutation of its input, for every choice of indices. */
  lemma ShuffledPermutes<T>(s: seq<T>, picks: seq<nat>)
    requires |picks| == |s| && ValidPicks(picks)
    ensures |Shuffled(s, picks)| == |s|
    ensures multiset(Shuffled(s, picks)) == multiset(s)
  {
    ShuffleFromPermutes(s, picks, |s|);
  }

  /**
   * `shuffle(arr)`: swaps `arr[counter]` with `arr[index]` while counting
   * `counter` down from `arr.Length`, taking one index per iteration, and
   * returns the array it was given.
   */
  method Shuffle<T>(arr: array<T>, picks: seq<nat>) returns (shuffled: array<T>)
    requires |picks| == arr.Length && ValidPicks(picks)
    modifies arr
    ensures shuffled == arr
    ensures arr[..] == Shuffled(old(arr[..]), picks)
    ensures multiset(arr[..]) == multiset(old(arr[..]))
  {
    var counter := arr.Length;
    while counter > 0
      invariant 0 <= counter <= arr.Length
      invariant ShuffleFrom(arr[..], picks, counter) == Shuffled(old(arr[..]), picks)
      decreases counter
    {
      // the index for this iteration is the (arr.Length - counter)-th one
      var index := picks[arr.Length - counter];
      ghost var before := arr[..];
      counter := counter - 1;
      var temp := arr[counter];
      arr[counter] := arr[index];
      arr[index] := temp;
      assert arr[..] == Swap(before, counter, index);
      assert ShuffleFrom(before, picks, counter + 1) == ShuffleFrom(arr[..], picks, counter);
    }
    ShuffledPermutes(old(arr[..]), picks);
    shuffled := arr;
  }
}
