/** `shuffleInPlace`: the Fisher–Yates shuffle, with `Math.random` as an
    oracle. The oracle is a stream `random` of reals in [0, 1); the k-th call
    of `Math.random()` reads `random(k)`, and every consumer says how many
    values it drew. */
module Shuffle {

  /** What `Math.random` promises about each value it returns. */
  ghost predicate IsRandomStream(random: nat -> real) {
    forall k: nat :: 0.0 <= random(k) < 1.0
  }

  /** The whole part of `r` times `n`: a uniform index below `n` when `r` is in [0, 1). */
  function RandomIndex(r: real, n: nat): (j: nat)
    requires 0.0 <= r < 1.0 && n > 0
    ensures j < n
  {
    assert 0.0 <= r * n as real < n as real by {
      assert r * n as real < 1.0 * n as real;
    }
    (r * n as real).Floor
  }

  /** `s` with the elements at `i` and `j` exchanged. */
  function Swap<T>(s: seq<T>, i: nat, j: nat): (r: seq<T>)
    requires i < |s| && j < |s|
  {
    s[i := s[j]][j := s[i]]
  }

  lemma SwapPermutes<T>(s: seq<T>, i: nat, j: nat)
    requires i < |s| && j < |s|
    ensures multiset(Swap(s, i, j)) == multiset(s)
  {
    if i != j {
      var t := s[i := s[j]];
      assert multiset(t) == multiset(s) - multiset{s[i]} + multiset{s[j]};
      assert Swap(s, i, j) == t[j := s[i]];
      assert multiset(t[j := s[i]]) == multiset(t) - multiset{t[j]} + multiset{s[i]};
    }
  }

  /** The loop of `shuffleInPlace` from position `i` down to 1, the first
      swap drawing `random(k)`. */
  function ShuffleFrom<T>(s: seq<T>, i: int, random: nat -> real, k: nat): seq<T>
    requires IsRandomStream(random) && i < |s|
    decreases i
  {
    if i <= 0 then s
    else ShuffleFrom(Swap(s, i, RandomIndex(random(k), i + 1)), i - 1, random, k + 1)
  }

  /** The result of `shuffleInPlace` on `s` when its first draw is `random(k)`. */
  function Shuffled<T>(s: seq<T>, random: nat -> real, k: nat): seq<T>
    requires IsRandomStream(random)
  {
    ShuffleFrom(s, |s| - 1, random, k)
  }

  /** The number of values `shuffleInPlace` draws on `n` elements. */
  function Draws(n: nat): nat {
    if n == 0 then 0 else n - 1
  }

  /** Each step of the loop only swaps, so the loop permutes. */
  lemma {:induction false} ShuffleFromPermutes<T>(s: seq<T>, i: int, random: nat -> real, k: nat)
    requires IsRandomStream(random) && i < |s|
    ensures |ShuffleFrom(s, i, random, k)| == |s|
    ensures multiset(ShuffleFrom(s, i, random, k)) == multiset(s)
    decreases i
  {
    if i > 0 {
      var j := RandomIndex(random(k), i + 1);
      SwapPermutes(s, i, j);
      ShuffleFromPermutes(Swap(s, i, j), i - 1, random, k + 1);
    }
  }

  /** A shuffle keeps exactly the same elements, each as often as before. */
  lemma ShuffledPermutes<T>(s: seq<T>, random: nat -> real, k: nat)
    requires IsRandomStream(random)
    ensures |Shuffled(s, random, k)| == |s|
    ensures multiset(Shuffled(s, random, k)) == multiset(s)
  {
    ShuffleFromPermutes(s, |s| - 1, random, k);
  }


  /** One turn of the loop of `shuffleInPlace`: the entry at `i` is swapped
      with the one at an index `j` drawn uniformly from 0 to `i`. */
  method SwapAt<T>(a: array<T>, i: nat, random: nat -> real, k: nat)
    requires IsRandomStream(random) && 0 < i < a.Length
    modifies a
    ensures ShuffleFrom(a[..], i - 1, random, k + 1) == ShuffleFrom(old(a[..]), i, random, k)
  {
    var j := RandomIndex(random(k), i + 1);
    a[i], a[j] := a[j], a[i];
    assert a[..] == Swap(old(a[..]), i, j);
  }

  /** `shuffleInPlace(arr)`: swaps `arr[i]` with `arr[j]`, `j` drawn below
      `i + 1`, for `i` from the last index down to 1. */
  method ShuffleInPlace<T>(a: array<T>, random: nat -> real, k: nat) returns (next: nat)
    requires IsRandomStream(random)
    modifies a
    ensures a[..] == Shuffled(old(a[..]), random, k)
    ensures multiset(a[..]) == multiset(old(a[..]))
    ensures next == k + Draws(a.Length)
  {
    ghost var s0 := a[..];
    ghost var goal := Shuffled(s0, random, k);
    var i := a.Length - 1;
    next := k;
    while i > 0
      invariant -1 <= i < a.Length && (a.Length > 0 ==> i >= 0)
      invariant next + i == k + a.Length - 1
      invariant ShuffleFrom(a[..], i, random, next) == goal
      decreases i
    {
      SwapAt(a, i, random, next);
      next := next + 1;
      i := i - 1;
    }
    ShuffledPermutes(s0, random, k);
  }
}
