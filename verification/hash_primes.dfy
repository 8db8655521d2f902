/**
 The table lengths of ht-internal.h and the search for the next one (lines 298-327).
 */
module HashPrimes {
  import opened Wrappers

  const PRIMES: seq<nat> := [
    53, 97, 193, 389,
    769, 1543, 3079, 6151,
    12289, 24593, 49157, 98317,
    196613, 393241, 786433, 1572869,
    3145739, 6291469, 12582917, 25165843,
    50331653, 100663319, 201326611, 402653189,
    805306457, 1610612741
  ]

  const N_PRIMES: nat := 26

  /** (unsigned)(load * len) grows with len. */
  ghost predicate Monotone(load: nat -> nat) {
    forall a: nat, b: nat | a <= b :: load(a) <= load(b)
  }

  lemma PrimesIncrease(i: nat, j: nat)
    requires i <= j < N_PRIMES
    ensures 0 < PRIMES[i] <= PRIMES[j]
  {
    if i < j {
      PrimesIncrease(i, j - 1);
      NextPrime(j - 1);
    }
  }

  lemma NextPrime(i: nat)
    requires i + 1 < N_PRIMES
    ensures PRIMES[i] < PRIMES[i + 1]
  {
  }

  ghost predicate Increasing(lens: seq<nat>) {
    forall i, j | 0 <= i <= j < |lens| :: lens[i] <= lens[j]
  }

  ghost predicate GoodLengths(lens: seq<nat>) {
    |lens| == N_PRIMES && Increasing(lens) && forall i | 0 <= i < |lens| :: lens[i] > 0
  }

  lemma PrimesIncreasing()
    ensures GoodLengths(PRIMES)
  {
    forall i, j | 0 <= i <= j < |PRIMES|
      ensures PRIMES[i] <= PRIMES[j]
    {
      PrimesIncrease(i, j);
    }
  }

  /** The index that the do-while loop of HT_GROW stops at, starting above `idx`; None if it steps past the table.
      The loop goes on while the limit is not above `size`, even from the last length. */
  function Search(lens: seq<nat>, load: nat -> nat, idx: int, size: nat): Option<nat>
    requires -1 <= idx < |lens|
    decreases |lens| - idx
  {
    var next := idx + 1;
    if next == |lens| then None
    else if load(lens[next]) > size then Some(next)
    else Search(lens, load, next, size)
  }

  /** The search stays inside the table exactly if the last limit is above `size`; it then finds the first
      later length with such a limit. */
  lemma {:induction false} SearchStaysInside(lens: seq<nat>, load: nat -> nat, idx: int, size: nat)
    requires Increasing(lens) && Monotone(load) && -1 <= idx < |lens| - 1
    ensures Search(lens, load, idx, size).Some? <==> load(lens[|lens| - 1]) > size
    ensures var r := Search(lens, load, idx, size);
            r.Some? ==> && idx < r.value < |lens| && load(lens[r.value]) > size
                        && forall i | idx < i < r.value :: load(lens[i]) <= size
    decreases |lens| - idx
  {
    assert load(lens[idx + 1]) <= load(lens[|lens| - 1]);
    if idx + 2 < |lens| && load(lens[idx + 1]) <= size {
      SearchStaysInside(lens, load, idx + 1, size);
    }
  }

  /** A load of one entry per bucket. */
  function FullLoad(len: nat): nat {
    len
  }

  /** A size at which the search leaves the table, from whichever length it starts. */
  lemma SearchStepsOut(idx: int)
    requires -1 <= idx < N_PRIMES - 1
    ensures Monotone(FullLoad) && Search(PRIMES, FullLoad, idx, 1610612741) == None
  {
    PrimesIncreasing();
    SearchStaysInside(PRIMES, FullLoad, idx, 1610612741);
  }
}
