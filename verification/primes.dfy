/**
 Number-theoretic vocabulary shared by the three prime generators:
 primality, the integer square root that stands in for `int(x ** 0.5)`,
 divisibility facts, and `PrimesIn`, the reference list of the primes in
 a half-open interval against which every generator is measured.
 */
module Primes {

  import opened Seqs

  /** `d` divides `k`: the source's `k % d == 0`, for a positive `d`. */
  predicate Divides(d: nat, k: nat) {
    d > 0 && k % d == 0
  }

  /** The standard definition: at least 2, and no divisor strictly between 1 and itself. */
  ghost predicate IsPrime(k: nat) {
    k >= 2 && forall d :: 2 <= d < k ==> !Divides(d, k)
  }

  // ---------------------------------------------------------------------------
  // Divisibility
  // ---------------------------------------------------------------------------

  /** Euclidean division is unique: a quotient/remainder pair fixes `a / p` and `a % p`. */
  lemma ModUnique(a: int, p: int, q: int, r: int)
    requires p > 0 && 0 <= r < p && a == p * q + r
    ensures a % p == r && a / p == q
  {
    var q', r' := a / p, a % p;
    assert a == p * q' + r';
    var t := q' - q;
    assert p * t == r - r' by {
      assert p * q' == p * q + p * t;
    }
    if t >= 1 {
      MulAtLeast(p, t);
    } else if t <= -1 {
      MulAtLeast(p, -t);
    }
  }

  lemma MulAtLeast(p: int, t: int)
    requires p > 0 && t >= 1
    ensures p * t >= p
  {
    assert p * t == p * (t - 1) + p;
    assert p * (t - 1) >= 0;
  }

  lemma MultipleDivisible(q: nat, p: nat)
    requires p > 0
    ensures Divides(p, p * q) && (p * q) / p == q
  {
    ModUnique(p * q, p, q, 0);
  }

  /** A multiple of `p` is `p` times its quotient. */
  lemma DivisibleIsMultiple(k: nat, p: nat)
    requires Divides(p, k)
    ensures k == p * (k / p)
  {
  }

  /** Divisibility is transitive. */
  lemma DividesTrans(e: nat, d: nat, k: nat)
    requires Divides(e, d) && Divides(d, k)
    ensures Divides(e, k)
  {
    var a, b := k / d, d / e;
    DivisibleIsMultiple(k, d);
    DivisibleIsMultiple(d, e);
    assert k == e * (b * a) by {
      assert k == d * a;
      assert d == e * b;
    }
    MultipleDivisible(b * a, e);
  }

  /** Two consecutive numbers have no common divisor above 1. */
  lemma SuccessorNotDivisible(a: nat, p: nat)
    requires p >= 2 && Divides(p, a)
    ensures !Divides(p, a + 1)
  {
    DivisibleIsMultiple(a, p);
    ModUnique(a + 1, p, a / p, 1);
  }

  /** An even number does not divide an odd one. */
  lemma EvenDoesNotDivideOdd(v: nat, e: nat)
    requires v % 2 == 1 && e >= 2 && e % 2 == 0
    ensures !Divides(e, v)
  {
    if Divides(e, v) {
      DividesTrans(2, e, v);
    }
  }

  lemma SquareMonotone(a: nat, b: nat)
    requires a <= b
    ensures a * a <= b * b
  {
    assert a * a <= a * b;
    assert a * b <= b * b;
  }

  // ---------------------------------------------------------------------------
  // Integer square root
  // ---------------------------------------------------------------------------

  /** The floor square root: the exact integer that `int(v ** 0.5)` approximates. */
  function FloorSqrt(v: nat): (r: nat)
    ensures r * r <= v < (r + 1) * (r + 1)
  {
    SqrtFrom(v, 0)
  }

  /** Climbs from a root candidate `r` with `r * r <= v` to the floor square root. */
  function SqrtFrom(v: nat, r: nat): (s: nat)
    requires r * r <= v
    ensures r <= s && s * s <= v < (s + 1) * (s + 1)
    decreases v - r * r
  {
    if (r + 1) * (r + 1) <= v then SqrtFrom(v, r + 1) else r
  }

  /** Anything whose square fits under `v` is at most the floor square root. */
  lemma BelowFloorSqrt(v: nat, d: nat)
    requires d * d <= v
    ensures d <= FloorSqrt(v)
  {
    var r := FloorSqrt(v);
    if d > r {
      SquareMonotone(r + 1, d);
    }
  }

  // ---------------------------------------------------------------------------
  // Smallest divisor and the square-root test
  // ---------------------------------------------------------------------------

  /** The least divisor of `k` that is at least `d`, given none lies in `[2, d)`. */
  function SmallestDivisorFrom(k: nat, d: nat): (p: nat)
    requires 2 <= d <= k
    requires forall e :: 2 <= e < d ==> !Divides(e, k)
    ensures d <= p <= k && Divides(p, k)
    ensures forall e :: 2 <= e < p ==> !Divides(e, k)
    decreases k - d
  {
    if k % d == 0 then d else SmallestDivisorFrom(k, d + 1)
  }

  /** The least divisor above 1 of `k`. */
  function SmallestDivisor(k: nat): (p: nat)
    requires k >= 2
    ensures 2 <= p <= k && Divides(p, k)
    ensures forall e :: 2 <= e < p ==> !Divides(e, k)
  {
    SmallestDivisorFrom(k, 2)
  }

  /** The least divisor above 1 is prime. */
  lemma SmallestDivisorIsPrime(k: nat)
    requires k >= 2
    ensures IsPrime(SmallestDivisor(k))
  {
    var p := SmallestDivisor(k);
    forall e | 2 <= e < p
      ensures !Divides(e, p)
    {
      if Divides(e, p) {
        DividesTrans(e, p, k);
      }
    }
  }

  /** A composite number has a prime factor whose square is at most the number. */
  lemma CompositeHasSmallPrimeFactor(k: nat)
    requires k >= 2 && !IsPrime(k)
    ensures IsPrime(SmallestDivisor(k))
    ensures SmallestDivisor(k) * SmallestDivisor(k) <= k
  {
    var p := SmallestDivisor(k);
    SmallestDivisorIsPrime(k);
    assert p < k;
    var m := k / p;
    DivisibleIsMultiple(k, p);
    assert k == m * p;
    assert m != 0 && m != 1 by {
      assert k == m * p && k >= 2 && p < k;
    }
    MultipleDivisible(p, m);
    assert Divides(m, k);
    assert m >= p;
    assert p * p <= p * m;
  }

  /** The square-root test behind trial division: a number above 1 is prime exactly when
      no `d >= 2` whose square is at most the number divides it. */
  lemma PrimeIffNoSquareDivisor(k: nat)
    requires k >= 2
    ensures IsPrime(k) <==> forall d :: 2 <= d && d * d <= k ==> !Divides(d, k)
  {
    if IsPrime(k) {
      forall d | 2 <= d && d * d <= k
        ensures !Divides(d, k)
      {
        assert d < k by {
          assert 2 * d <= d * d;
        }
      }
    } else {
      CompositeHasSmallPrimeFactor(k);
    }
  }

  /** It is enough to try divisors up to the floor square root. */
  lemma PrimeIffNoDivisorToSqrt(k: nat)
    requires k >= 2
    ensures IsPrime(k) <==> forall d :: 2 <= d <= FloorSqrt(k) ==> !Divides(d, k)
  {
    PrimeIffNoSquareDivisor(k);
    var r := FloorSqrt(k);
    forall d | 2 <= d <= r
      ensures d * d <= k
    {
      SquareMonotone(d, r);
    }
    forall d | 2 <= d && d * d <= k
      ensures d <= r
    {
      BelowFloorSqrt(k, d);
    }
  }

  /** No odd divisor in `[3, r]`: what the trial-division loop establishes when it runs out. */
  ghost predicate NoOddDivisor(v: nat, r: nat) {
    forall d {:trigger Divides(d, v)} :: 3 <= d <= r && d % 2 == 1 ==> !Divides(d, v)
  }

  /** For odd `v >= 3`, trying the odd divisors up to the floor square root decides primality. */
  lemma OddTrialIffPrime(v: nat)
    requires v >= 3 && v % 2 == 1
    ensures NoOddDivisor(v, FloorSqrt(v)) <==> IsPrime(v)
  {
    var r := FloorSqrt(v);
    PrimeIffNoDivisorToSqrt(v);
    if NoOddDivisor(v, r) {
      forall d | 2 <= d <= r
        ensures !Divides(d, v)
      {
        if d % 2 == 0 {
          EvenDoesNotDivideOdd(v, d);
        }
      }
    }
  }

  /** The three early answers of trial division agree with primality. */
  lemma EarlyAnswers(v: nat)
    ensures v < 2 ==> !IsPrime(v)
    ensures IsPrime(2)
    ensures v > 2 && v % 2 == 0 ==> !IsPrime(v)
  {
    if v > 2 && v % 2 == 0 {
      assert Divides(2, v);
    }
  }

  // ---------------------------------------------------------------------------
  // The reference list of primes in [lo, hi)
  // ---------------------------------------------------------------------------

  /** The primes of `[lo, hi)` in ascending order. */
  ghost function PrimesIn(lo: nat, hi: nat): seq<nat>
    decreases hi
  {
    if hi <= lo then [] else PrimesIn(lo, hi - 1) + (if IsPrime(hi - 1) then [hi - 1] else [])
  }

  /** `PrimesIn` lists exactly the primes of the interval, each once, ascending. */
  lemma {:induction false} PrimesInSpec(lo: nat, hi: nat)
    ensures StrictlyIncreasing(PrimesIn(lo, hi))
    ensures forall x :: x in PrimesIn(lo, hi) <==> lo <= x < hi && IsPrime(x)
    decreases hi
  {
    if hi > lo {
      var prev := PrimesIn(lo, hi - 1);
      PrimesInSpec(lo, hi - 1);
      assert forall i :: 0 <= i < |prev| ==> prev[i] in prev;
    }
  }

  /** Listing `[a, c)` is listing `[a, b)` then `[b, c)`. */
  lemma {:induction false} PrimesInSplit(a: nat, b: nat, c: nat)
    requires a <= b <= c
    ensures PrimesIn(a, c) == PrimesIn(a, b) + PrimesIn(b, c)
    decreases c
  {
    if c > b {
      PrimesInSplit(a, b, c - 1);
    }
  }

  /** The list for `[lo, hi + 1)` extends the list for `[lo, hi)` by at most `hi` itself. */
  lemma PrimesInExtend(lo: nat, hi: nat)
    requires lo <= hi
    ensures PrimesIn(lo, hi + 1) == PrimesIn(lo, hi) + (if IsPrime(hi) then [hi] else [])
  {
  }

  /** Primes at index `k` have exactly `k` primes of the interval below them: `PrimesIn(lo, hi)[k]`
      is the `(k + 1)`-th prime at or above `lo`. */
  lemma {:induction false} PrimesInRank(lo: nat, hi: nat, k: nat)
    requires k < |PrimesIn(lo, hi)|
    ensures lo <= PrimesIn(lo, hi)[k] < hi
    ensures PrimesIn(lo, PrimesIn(lo, hi)[k]) == PrimesIn(lo, hi)[..k]
  {
    var ps := PrimesIn(lo, hi);
    var p := ps[k];
    PrimesInSpec(lo, hi);
    assert p in ps;
    PrimesInSplit(lo, p, hi);
    var a, b := PrimesIn(lo, p), PrimesIn(p, hi);
    PrimesInSpec(lo, p);
    PrimesInSpec(p, hi);
    assert ps == a + b;
    assert forall i :: 0 <= i < |a| ==> a[i] in a && ps[i] == a[i] && ps[i] < p;
    assert k >= |a|;
    assert p in b;
    var j :| 0 <= j < |b| && b[j] == p;
    assert b[0] in b && b[0] >= p;
    assert j == 0;
    assert ps[|a|] == p;
    assert k == |a|;
    assert ps[..k] == a;
  }

  /** Every entry of `PrimesIn(lo, hi)` is prime and is preceded by exactly the primes below it. */
  lemma {:induction false} PrimesInRanks(lo: nat, hi: nat)
    ensures forall k :: 0 <= k < |PrimesIn(lo, hi)| ==>
      IsPrime(PrimesIn(lo, hi)[k]) && PrimesIn(lo, PrimesIn(lo, hi)[k]) == PrimesIn(lo, hi)[..k]
  {
    var ps := PrimesIn(lo, hi);
    PrimesInSpec(lo, hi);
    forall k | 0 <= k < |ps|
      ensures IsPrime(ps[k]) && PrimesIn(lo, ps[k]) == ps[..k]
    {
      assert ps[k] in ps;
      PrimesInRank(lo, hi, k);
    }
  }

  /** The first prime is 2. */
  lemma FirstPrimeIsTwo(hi: nat)
    requires |PrimesIn(2, hi)| >= 1
    ensures PrimesIn(2, hi)[0] == 2
  {
    var p := PrimesIn(2, hi)[0];
    PrimesInRank(2, hi, 0);
    PrimesInSpec(2, p);
    assert IsPrime(2);
  }

  /** The first `n` primes at or above `lo` do not depend on how far beyond them one lists. */
  lemma {:induction false} PrimesInPrefix(lo: nat, h1: nat, h2: nat)
    requires lo <= h1 <= h2
    ensures |PrimesIn(lo, h1)| <= |PrimesIn(lo, h2)|
    ensures PrimesIn(lo, h2)[..|PrimesIn(lo, h1)|] == PrimesIn(lo, h1)
  {
    PrimesInSplit(lo, h1, h2);
  }

  // ---------------------------------------------------------------------------
  // There are always more primes (needed for the generate-until-n loop to end)
  // ---------------------------------------------------------------------------

  function Factorial(m: nat): (f: nat)
    ensures f >= 1
  {
    if m == 0 then 1 else m * Factorial(m - 1)
  }

  lemma {:induction false} FactorialDivisible(m: nat, d: nat)
    requires 1 <= d <= m
    ensures Divides(d, Factorial(m))
  {
    if d == m {
      MultipleDivisible(Factorial(m - 1), m);
    } else {
      FactorialDivisible(m - 1, d);
      MultipleDivisible(m, Factorial(m - 1));
      assert Factorial(m) == Factorial(m - 1) * m;
      DividesTrans(d, Factorial(m - 1), Factorial(m));
    }
  }

  /** Euclid: above every number lies a prime. */
  lemma PrimeAbove(m: nat) returns (p: nat)
    ensures m < p && IsPrime(p)
  {
    var k := Factorial(m) + 1;
    p := SmallestDivisor(k);
    SmallestDivisorIsPrime(k);
    if p <= m {
      FactorialDivisible(m, p);
      SuccessorNotDivisible(Factorial(m), p);
      assert false;
    }
  }

  /** For every count `n` some bound `b` has at least `n` primes in `[lo, b)`. */
  lemma {:induction false} EnoughPrimes(lo: nat, n: nat) returns (b: nat)
    ensures lo <= b && |PrimesIn(lo, b)| >= n
  {
    if n == 0 {
      b := lo;
    } else {
      var b0 := EnoughPrimes(lo, n - 1);
      var p := PrimeAbove(b0);
      b := p + 1;
      PrimesInSplit(lo, b0, b);
      PrimesInSpec(b0, b);
      assert p in PrimesIn(b0, b);
    }
  }
}
