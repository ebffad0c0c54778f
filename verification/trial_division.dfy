/**
 The sequential generator: test candidates 2, 3, 4, ... by trial division
 and keep the primes until `n` of them have been found.
 */
module TrialDivision {

  import opened Primes
  import opened Seqs

  /** Trial division: reject below 2, accept 2, reject other evens, then try the odd
      divisors 3, 5, ... up to the floor square root. */
  method IsPrimeByTrial(v: nat) returns (b: bool)
    ensures v < 2 ==> !b
    ensures v == 2 ==> b
    ensures v > 2 && v % 2 == 0 ==> !b
    ensures v >= 3 && v % 2 == 1 ==> (b <==> NoOddDivisor(v, FloorSqrt(v)))
    ensures b <==> IsPrime(v)
  {
    EarlyAnswers(v);
    if v < 2 {
      return false;
    }
    if v == 2 {
      return true;
    }
    if v % 2 == 0 {
      return false;
    }
    var r := FloorSqrt(v);
    OddTrialIffPrime(v);
    var d := 3;
    while d <= r
      invariant 3 <= d <= r + 2 && d % 2 == 1
      invariant NoOddDivisor(v, d - 1)
      decreases r + 2 - d
    {
      if v % d == 0 {
        assert Divides(d, v);
        return false;
      }
      d := d + 2;
    }
    return true;
  }

  /** The generation loop: starting from an empty list and candidate 2, append each
      candidate that passes the trial-division test until the list holds `n` primes.
      `candidate` is the first integer not yet tested when the loop stops. */
  method FirstPrimes(n: nat) returns (primes: seq<nat>, candidate: nat)
    ensures |primes| == n
    ensures primes == PrimesIn(2, candidate)
    ensures forall k :: 0 <= k < n ==> IsPrime(primes[k]) && PrimesIn(2, primes[k]) == primes[..k]
    ensures n >= 1 ==> primes[0] == 2
    ensures forall c :: 2 <= c <= candidate ==> PrimesIn(2, c) <= primes
  {
    primes := [];
    candidate := 2;
    // Some bound holds `n` primes, so the loop stops before reaching it.
    ghost var bound := EnoughPrimes(2, n);
    while |primes| < n
      invariant 2 <= candidate
      invariant primes == PrimesIn(2, candidate) && |primes| <= n
      decreases bound - candidate
    {
      if candidate >= bound {
        PrimesInPrefix(2, bound, candidate);
        assert false;
      }
      var isP := IsPrimeByTrial(candidate);
      PrimesInExtend(2, candidate);
      if isP {
        primes := primes + [candidate];
      }
      candidate := candidate + 1;
    }
    PrimesInRanks(2, candidate);
    if n >= 1 {
      FirstPrimeIsTwo(candidate);
    }
    forall c | 2 <= c <= candidate
      ensures PrimesIn(2, c) <= primes
    {
      PrimesInPrefix(2, c, candidate);
    }
  }
}
