/**
 How the three generators relate: with a large enough bound they return
 the same list, the sieve's fixed small bound is large enough below six
 primes, and two small concrete cases show what the as-written programs
 return instead.
 */
module Agreement {

  import opened Primes
  import opened Seqs
  import ParallelTrial
  import SegmentedSieve
  import TrialDivision

  /** One more candidate by trial division: `PrimesIn(lo, hi + 1)` extends the list for `hi`
      by `hi` exactly when the trial-division test accepts it. */
  lemma ExtendByTrial(lo: nat, hi: nat, ps: seq<nat>)
    requires lo <= hi && PrimesIn(lo, hi) == ps
    ensures PrimesIn(lo, hi + 1) == ps + (if ParallelTrial.TrialPrime(hi) then [hi] else [])
  {
    ParallelTrial.TrialPrimeCorrect(hi);
  }

  /** The primes below 8, read off by evaluating the trial-division test on each candidate. */
  lemma PrimesBelowEight()
    ensures PrimesIn(2, 8) == [2, 3, 5, 7]
  {
    assert PrimesIn(2, 2) == [];
    ExtendByTrial(2, 2, []);
    ExtendByTrial(2, 3, [2]);
    ExtendByTrial(2, 4, [2, 3]);
    ExtendByTrial(2, 5, [2, 3]);
    ExtendByTrial(2, 6, [2, 3, 5]);
    ExtendByTrial(2, 7, [2, 3, 5]);
  }

  /** The primes of `[8, 16)`, read off the same way. */
  lemma PrimesEightToSixteen()
    ensures PrimesIn(8, 16) == [11, 13]
  {
    assert PrimesIn(8, 8) == [];
    ExtendByTrial(8, 8, []);
    ExtendByTrial(8, 9, []);
    ExtendByTrial(8, 10, []);
    ExtendByTrial(8, 11, []);
    ExtendByTrial(8, 12, [11]);
    ExtendByTrial(8, 13, [11]);
    ExtendByTrial(8, 14, [11, 13]);
    ExtendByTrial(8, 15, [11, 13]);
  }

  /** The primes below 16. */
  lemma PrimesBelowSixteen()
    ensures PrimesIn(2, 16) == [2, 3, 5, 7, 11, 13]
  {
    PrimesBelowEight();
    PrimesEightToSixteen();
    PrimesInSplit(2, 8, 16);
  }

  /** Listing from 0 or from 2 gives the same primes: neither 0 nor 1 is prime. */
  lemma PrimesFromZero(hi: nat)
    ensures PrimesIn(0, hi) == PrimesIn(2, hi)
  {
    EarlyAnswers(0);
    EarlyAnswers(1);
    if hi >= 2 {
      PrimesInSplit(0, 2, hi);
      assert PrimesIn(0, 1) == [];
      assert PrimesIn(0, 2) == [];
    } else {
      assert PrimesIn(0, 1) == [];
    }
  }

  /** Two lists of the first primes of the same length are equal: `PrimesIn(2, c)` is the
      first `|PrimesIn(2, c)|` entries of any listing at least as long. */
  lemma FirstPrimesUnique(c: nat, hi: nat)
    requires |PrimesIn(2, c)| <= |PrimesIn(2, hi)|
    ensures Take(PrimesIn(2, hi), |PrimesIn(2, c)|) == PrimesIn(2, c)
  {
    if c < 2 || hi < 2 {
      assert PrimesIn(2, c) == [];
    } else if c <= hi {
      PrimesInPrefix(2, c, hi);
    } else {
      PrimesInPrefix(2, hi, c);
    }
  }

  /** With a bound holding at least `n` primes, the sequential generator, the corrected segmented
      sieve and the corrected parallel trial division return the same `n` primes, whatever the core count. */
  method VariantsAgree(n: nat, maxN: nat, cores: nat) returns (sequential: seq<nat>, sieve: seq<nat>, trial: seq<nat>)
    requires cores >= 1
    requires |PrimesIn(2, maxN + 1)| >= n
    ensures |sequential| == n
    ensures sequential == sieve && sieve == trial
  {
    var candidate;
    sequential, candidate := TrialDivision.FirstPrimes(n);
    sieve := SegmentedSieve.FirstPrimes(n, maxN, cores);
    trial := ParallelTrial.FirstPrimes(n, maxN, cores);
    FirstPrimesUnique(candidate, maxN + 1);
    PrimesFromZero(maxN + 1);
  }

  /** Below six primes the fixed bound 15 holds enough of them: the first `n` primes are the
      first `n` of 2, 3, 5, 7, 11, 13. */
  lemma SmallBoundSuffices(n: nat, asymptotic: nat)
    requires n < 6
    ensures SegmentedSieve.EstimateMaxN(n, asymptotic) == 15
    ensures |PrimesIn(2, SegmentedSieve.EstimateMaxN(n, asymptotic) + 1)| >= n
    ensures Take(PrimesIn(2, SegmentedSieve.EstimateMaxN(n, asymptotic) + 1), n) == [2, 3, 5, 7, 11, 13][..n]
  {
    PrimesBelowSixteen();
  }

  /** The corrected sieve, called with the small bound, returns the first `n` primes. */
  method SmallBoundSieve(n: nat, cores: nat) returns (primes: seq<nat>)
    requires n < 6 && cores >= 1
    ensures primes == [2, 3, 5, 7, 11, 13][..n]
  {
    SmallBoundSuffices(n, 0);
    primes := SegmentedSieve.FirstPrimes(n, SegmentedSieve.EstimateMaxN(n, 0), cores);
  }

  /** The sieve as written, asked for five primes with the bound 15, returns 0 and 1 among them;
      the corrected extraction returns 2, 3, 5, 7, 11. */
  method SieveKeepsZeroAndOne(cores: nat) returns (asWritten: seq<nat>, corrected: seq<nat>)
    requires cores >= 1
    ensures asWritten == [0, 1, 2, 3, 5]
    ensures corrected == [2, 3, 5, 7, 11]
  {
    asWritten := SegmentedSieve.FirstPrimesAsWritten(5, 15, cores);
    corrected := SegmentedSieve.FirstPrimes(5, 15, cores);
    assert Take([0, 1] + PrimesIn(2, 16), 5) == [0, 1, 2, 3, 5] by {
      PrimesBelowSixteen();
    }
    assert Take(PrimesIn(2, 16), 5) == [2, 3, 5, 7, 11] by {
      PrimesBelowSixteen();
    }
  }

  /** Parallel trial division as written, asked for five primes with the bound 15 on eight cores,
      tries only `[0, 8)` and returns four primes; the corrected partition also finds 11.
      The three values are pinned by the requires rather than written as literals in the
      ensures, so that the verifier does not unroll the whole pipeline on literal arguments. */
  lemma TrialDropsTail(n: nat, maxN: nat, cores: nat)
    requires n == 5 && maxN == 15 && cores == 8
    ensures ParallelTrial.FirstPrimesAsWritten(n, maxN, cores) == [2, 3, 5, 7]
    ensures ParallelTrial.FirstPrimes(n, maxN, cores) == [2, 3, 5, 7, 11]
  {
    assert ParallelTrial.Covered(maxN, cores) == 8;
    assert Take(PrimesIn(0, 8), 5) == [2, 3, 5, 7] by {
      PrimesBelowEight();
      PrimesFromZero(8);
    }
    assert Take(PrimesIn(0, 16), 5) == [2, 3, 5, 7, 11] by {
      PrimesBelowSixteen();
      PrimesFromZero(16);
    }
  }
}
