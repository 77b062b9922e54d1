/** Session selection helpers: the in-place Fisher-Yates shuffle, driven by
    an oracle of random indices, and the truncation to ten questions. */
module Shuffle {

  /** The oracle standing for `Math.floor(Math.random() * (i + 1))`: one
      index per position of an `n`-element array, `choices[i]` being the
      partner drawn for position `i`, so `0 <= choices[i] <= i`.
      (`choices[0]` is never read: the loop stops before position 0.) */
  predicate ValidChoices(choices: seq<nat>, n: nat)
  {
    |choices| == n && forall i :: 0 <= i < n ==> choices[i] <= i
  }

  /** `s` with the elements at `i` and `j` exchanged. */
  function Swap<T>(s: seq<T>, i: nat, j: nat): (r: seq<T>)
    requires i < |s| && j < |s|
    ensures |r| == |s|
    ensures r[i] == s[j] && r[j] == s[i]
    ensures forall k :: 0 <= k < |s| && k != i && k != j ==> r[k] == s[k]
  {
    s[i := s[j]][j := s[i]]
  }

  lemma SwapPermutes<T>(s: seq<T>, i: nat, j: nat)
    requires i < |s| && j < |s|
    ensures multiset(Swap(s, i, j)) == multiset(s)
  {
    var t := s[i := s[j]];
    assert multiset(t) == multiset(s) - multiset{s[i]} + multiset{s[j]};
  }

  /** The array after the loop iterations for positions `i`, `i - 1`, ..., 1. */
  function ShuffleDown<T>(s: seq<T>, choices: seq<nat>, i: nat): seq<T>
    requires i < |s| && ValidChoices(choices, |s|)
    decreases i
  {
    if i == 0 then s else ShuffleDown(Swap(s, i, choices[i]), choices, i - 1)
  }

  /** What `shuffleArray` leaves in the array. */
  function Shuffled<T>(s: seq<T>, choices: seq<nat>): seq<T>
    requires ValidChoices(choices, |s|)
  {
    if |s| == 0 then s else ShuffleDown(s, choices, |s| - 1)
  }

  lemma {:induction false} ShuffleDownPermutes<T>(s: seq<T>, choices: seq<nat>, i: nat)
    requires i < |s| && ValidChoices(choices, |s|)
    ensures |ShuffleDown(s, choices, i)| == |s|
    ensures multiset(ShuffleDown(s, choices, i)) == multiset(s)
    decreases i
  {
    if i > 0 {
      SwapPermutes(s, i, choices[i]);
      ShuffleDownPermutes(Swap(s, i, choices[i]), choices, i - 1);
    }
  }

  /** For every oracle, the shuffle is a permutation of its input: the same
      length and the same multiset of elements. */
  lemma ShuffledPermutes<T>(s: seq<T>, choices: seq<nat>)
    requires ValidChoices(choices, |s|)
    ensures |Shuffled(s, choices)| == |s|
    ensures multiset(Shuffled(s, choices)) == multiset(s)
  {
    if |s| > 0 {
      ShuffleDownPermutes(s, choices, |s| - 1);
    }
  }

  /** `shuffleArray`: for `i` from the last index down to 1, exchange
      position `i` with the oracle's `choices[i]`. */
  method ShuffleArray<T>(a: array<T>, choices: seq<nat>)
    requires ValidChoices(choices, a.Length)
    modifies a
    ensures a[..] == Shuffled(old(a[..]), choices)
    ensures multiset(a[..]) == multiset(old(a[..]))
  {
    var i := a.Length - 1;
    while i > 0
      invariant -1 <= i < a.Length
      invariant a.Length > 0 ==> 0 <= i
      invariant a.Length > 0 ==> ShuffleDown(a[..], choices, i) == Shuffled(old(a[..]), choices)
    {
      var j := choices[i];
      ghost var before := a[..];
      a[i], a[j] := a[j], a[i];
      assert a[..] == Swap(before, i, j);
      i := i - 1;
    }
    ShuffledPermutes(old(a[..]), choices);
  }

  /** The first ten questions, or all of them when there are fewer. */
  function Truncate<T>(s: seq<T>): (r: seq<T>)
    ensures |r| <= 10 && |r| <= |s|
    ensures |r| == if |s| > 10 then 10 else |s|
    ensures r == s[..|r|]
    ensures multiset(r) <= multiset(s)
  {
    if |s| > 10 then
      assert s == s[..10] + s[10..];
      s[..10]
    else s
  }
}
