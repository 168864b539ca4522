/**
 * `random.shuffle` as CPython implements it: a Fisher-Yates pass that, for
 * i from len(x) - 1 down to 1, swaps x[i] with x[randbelow(i + 1)]. The
 * Mersenne Twister behind `randbelow` (and the `random.seed(42)` that fixes
 * it) is not modelled: the generator is a parameter, and `randbelow(n) % n`
 * stands for "some index below n", so every sequence of draws is covered.
 */
module PyRandom {
  /** s with the elements at i and j exchanged. */
  function Swap<T>(s: seq<T>, i: nat, j: nat): (r: seq<T>)
    requires i < |s| && j < |s|
    ensures |r| == |s| && multiset(r) == multiset(s)
  {
    s[i := s[j]][j := s[i]]
  }

  /** The swaps for positions n - 1 down to 1, applied to s. */
  function ShuffleSteps<T>(s: seq<T>, n: nat, randbelow: nat -> nat): seq<T>
    requires n <= |s|
    decreases n
  {
    if n <= 1 then s
    else ShuffleSteps(Swap(s, n - 1, randbelow(n) % n), n - 1, randbelow)
  }

  /** The order `random.shuffle` leaves behind for the given draws. */
  function Shuffled<T>(s: seq<T>, randbelow: nat -> nat): seq<T> {
    ShuffleSteps(s, |s|, randbelow)
  }

  /** Whatever the draws, shuffling only permutes: the same elements, each as often as before. */
  lemma {:induction false} ShuffleStepsPermutes<T>(s: seq<T>, n: nat, randbelow: nat -> nat)
    requires n <= |s|
    ensures |ShuffleSteps(s, n, randbelow)| == |s|
    ensures multiset(ShuffleSteps(s, n, randbelow)) == multiset(s)
    decreases n
  {
    if n > 1 {
      ShuffleStepsPermutes(Swap(s, n - 1, randbelow(n) % n), n - 1, randbelow);
    }
  }

  lemma ShuffledPermutes<T>(s: seq<T>, randbelow: nat -> nat)
    ensures |Shuffled(s, randbelow)| == |s|
    ensures multiset(Shuffled(s, randbelow)) == multiset(s)
  {
    ShuffleStepsPermutes(s, |s|, randbelow);
  }

  /** `random.shuffle(a)`, in place. */
  method Shuffle<T>(a: array<T>, randbelow: nat -> nat)
    modifies a
    ensures a[..] == Shuffled(old(a[..]), randbelow)
  {
    var i: nat := a.Length;
    while i > 1
      invariant i <= a.Length
      invariant ShuffleSteps(a[..], i, randbelow) == Shuffled(old(a[..]), randbelow)
    {
      var j := randbelow(i) % i;
      a[i - 1], a[j] := a[j], a[i - 1];
      i := i - 1;
    }
  }
}
