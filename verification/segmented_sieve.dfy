/**
 The segmented sieve of Eratosthenes: a classic sieve finds the base
 primes below `int(sqrt(MAX_N)) + 1`, `[0, MAX_N]` is split into one
 block per core, each block has the multiples of the base primes cleared,
 and the blocks are concatenated and read back as integers.

 The process pool is modelled as an order-preserving loop over the block
 list (`MarkAll`): block `i`'s result lands at position `i`.
 */
module SegmentedSieve {

  import opened Primes
  import opened Seqs
  import opened Blocks

  // ---------------------------------------------------------------------------
  // Bound estimation
  // ---------------------------------------------------------------------------

  /** `estimate_max_n`: the fixed bound 15 below six primes; from six on the source evaluates
      a floating-point formula, whose value is passed in as `asymptotic`. */
  function EstimateMaxN(n: nat, asymptotic: nat): nat
  {
    if n < 6 then 15 else asymptotic
  }

  // ---------------------------------------------------------------------------
  // Base sieve
  // ---------------------------------------------------------------------------

  /** `primes_up_to_sqrt`: the primes below `int(sqrt(maxN)) + 1`. */
  ghost function BasePrimes(maxN: nat): seq<nat>
  {
    PrimesIn(0, FloorSqrt(maxN) + 1)
  }

  /** After sieving with every `d` in `[2, i)`: no such `d` whose square is at most `k` divides `k`. */
  ghost predicate NoFactorBelow(k: nat, i: nat) {
    forall d :: 2 <= d < i && d * d <= k ==> !Divides(d, k)
  }

  /** Once every candidate factor up to `k` has been tried, surviving means being prime. */
  lemma NoFactorBelowIffPrime(k: nat, i: nat)
    requires 2 <= k <= i
    ensures NoFactorBelow(k, i) <==> IsPrime(k)
  {
    PrimeIffNoSquareDivisor(k);
    forall d | 2 <= d && d * d <= k
      ensures d < i
    {
      assert 2 * d <= d * d;
    }
  }

  /** Sieving with a composite `i` clears nothing new: every multiple of `i` from `i * i` on
      already has a smaller factor whose square fits under it. */
  lemma CompositeClearsNothing(i: nat, k: nat)
    requires i >= 2 && !IsPrime(i)
    ensures NoFactorBelow(k, i + 1) <==> NoFactorBelow(k, i)
  {
    if Divides(i, k) && i * i <= k {
      var d := SmallestDivisor(i);
      CompositeHasSmallPrimeFactor(i);
      DividesTrans(d, i, k);
      assert i <= i * i;
      assert 2 <= d < i && d * d <= k && Divides(d, k);
    }
  }

  /** The multiple of `p` after `m` is `m + p`: nothing strictly between them is one. */
  lemma NextMultiple(p: nat, m: nat)
    requires Divides(p, m)
    ensures Divides(p, m + p)
    ensures forall x {:trigger Divides(p, x)} :: m < x < m + p ==> !Divides(p, x)
  {
    DivisibleIsMultiple(m, p);
    MultipleDivisible(m / p + 1, p);
    assert m + p == p * (m / p + 1);
    forall x | m < x < m + p
      ensures !Divides(p, x)
    {
      ModUnique(x, p, m / p, x - m);
    }
  }

  /** `for multiple in range(first, offset + |a|, p): a[multiple - offset] = False`: clears the flag
      of every multiple of `p` from `first` on, flag `j` standing for the integer `offset + j`. */
  method CrossOff(a: seq<bool>, offset: nat, p: nat, first: nat) returns (b: seq<bool>)
    requires offset <= first && Divides(p, first)
    ensures |b| == |a|
    ensures forall j :: 0 <= j < |a| ==> (b[j] <==> a[j] && !(Divides(p, offset + j) && first <= offset + j))
  {
    b := a;
    var m := first;
    while m < offset + |a|
      invariant first <= m && Divides(p, m) && |b| == |a|
      invariant forall j :: 0 <= j < |a| ==>
        (b[j] <==> a[j] && !(Divides(p, offset + j) && first <= offset + j < m))
      decreases offset + |a| - m
    {
      b := b[m - offset := false];
      NextMultiple(p, m);
      m := m + p;
    }
  }

  /** Sieving with `i` on top of `[2, i)` clears the multiples of `i` from `i * i` on. */
  lemma {:induction false} NoFactorBelowStep(k: nat, i: nat)
    requires i >= 2
    ensures NoFactorBelow(k, i + 1) <==> NoFactorBelow(k, i) && !(Divides(i, k) && i * i <= k)
  {
    if NoFactorBelow(k, i) && !(Divides(i, k) && i * i <= k) {
      forall d | 2 <= d < i + 1 && d * d <= k
        ensures !Divides(d, k)
      {
        if d < i {
          assert !Divides(d, k);
        }
      }
    }
  }

  /** The base sieve over `[0, int(sqrt(maxN)) + 1)`: positions 0 and 1 start false; each `i`
      still marked when reached is recorded and its multiples from `i * i` are cleared.
      For `maxN == 0` the list has one element and the slice assignment `[0:2] = [False, False]`
      grows it to two. */
  method BaseSieve(maxN: nat) returns (crible: seq<bool>, primes: seq<nat>)
    ensures |crible| == if maxN == 0 then 2 else FloorSqrt(maxN) + 1
    ensures forall k :: 0 <= k < |crible| ==> (crible[k] <==> IsPrime(k))
    ensures primes == BasePrimes(maxN)
    ensures StrictlyIncreasing(primes)
  {
    var sqrtMax := FloorSqrt(maxN) + 1;
    EarlyAnswers(1);
    if sqrtMax < 2 {
      assert PrimesIn(0, 1) == [];
      crible, primes := [false, false], [];
      return;
    }
    var a := seq(sqrtMax, k => k >= 2);
    primes := [];
    assert PrimesIn(0, 2) == [] by {
      assert PrimesIn(0, 1) == [];
    }
    var i := 2;
    while i < sqrtMax
      invariant 2 <= i <= sqrtMax && |a| == sqrtMax
      invariant !a[0] && !a[1]
      invariant forall k :: 2 <= k < sqrtMax ==> (a[k] <==> NoFactorBelow(k, i))
      invariant primes == PrimesIn(0, i)
    {
      NoFactorBelowIffPrime(i, i);
      PrimesInExtend(0, i);
      if a[i] {
        primes := primes + [i];
        MultipleDivisible(i, i);
        a := CrossOff(a, 0, i, i * i);
        forall k | 2 <= k < sqrtMax
          ensures a[k] <==> NoFactorBelow(k, i + 1)
        {
          NoFactorBelowStep(k, i);
        }
      } else {
        forall k | 2 <= k < sqrtMax
          ensures NoFactorBelow(k, i + 1) <==> NoFactorBelow(k, i)
        {
          CompositeClearsNothing(i, k);
        }
      }
      i := i + 1;
    }
    forall k | 2 <= k < sqrtMax
      ensures a[k] <==> IsPrime(k)
    {
      NoFactorBelowIffPrime(k, sqrtMax);
    }
    crible := a;
    PrimesInSpec(0, sqrtMax);
  }

  // ---------------------------------------------------------------------------
  // Block marking
  // ---------------------------------------------------------------------------

  /** `x` gets cleared by the base prime `p`: it is a multiple of `p` and at least `p * p`. */
  predicate ClearedBy(x: nat, p: nat) {
    Divides(p, x) && p * p <= x
  }

  /** `x` survives every prime of `ps`. */
  ghost predicate Unmarked(x: nat, ps: seq<nat>) {
    forall t :: 0 <= t < |ps| ==> !ClearedBy(x, ps[t])
  }

  lemma {:induction false} UnmarkedSnoc(x: nat, ps: seq<nat>, t: nat)
    requires t < |ps|
    ensures Unmarked(x, ps[..t + 1]) <==> Unmarked(x, ps[..t]) && !ClearedBy(x, ps[t])
  {
    assert ps[..t + 1] == ps[..t] + [ps[t]];
  }

  /** `max(p * p, ((start + p - 1) // p) * p)`: the least multiple of `p` that is both at least
      `p * p` and at least `start`. */
  function FirstMultiple(start: nat, p: nat): (first: nat)
    requires p >= 1
    ensures ClearedBy(first, p) && start <= first
    ensures forall m: nat {:trigger Divides(p, m)} :: ClearedBy(m, p) && start <= m ==> first <= m
  {
    var up := ((start + p - 1) / p) * p;
    CeilMultiple(start, p);
    MultipleDivisible(p, p);
    assert forall m: nat :: ClearedBy(m, p) ==> p * p <= m;
    if p * p >= up then p * p else up
  }

  /** `((start + p - 1) // p) * p` is the least multiple of `p` at or above `start`. */
  lemma CeilMultiple(start: nat, p: nat)
    requires p >= 1
    ensures Divides(p, ((start + p - 1) / p) * p) && start <= ((start + p - 1) / p) * p
    ensures forall m: nat {:trigger Divides(p, m)} :: Divides(p, m) && start <= m ==> ((start + p - 1) / p) * p <= m
  {
    var q := (start + p - 1) / p;
    var r := (start + p - 1) % p;
    assert start + p - 1 == p * q + r;
    MultipleDivisible(q, p);
    assert q * p == p * q;
    forall m: nat | Divides(p, m) && start <= m
      ensures q * p <= m
    {
      var t := m / p;
      DivisibleIsMultiple(m, p);
      // p * q <= start + p - 1 <= m + p - 1 < p * (t + 1), so q <= t.
      if q > t {
        MulAtLeast(p, q - t);
        assert false;
      }
      assert p * q <= p * t by {
        assert p * t == p * q + p * (t - q);
        assert p * (t - q) >= 0;
      }
    }
  }

  /** `mark_block((start, end, primes_small))`: a list of `end - start` flags (none when
      `end < start`, as `[True] * negative` is empty), with every multiple of each `p` from
      `FirstMultiple(start, p)` up to `end` cleared; flag `j` stands for the integer `start + j`. */
  method MarkBlock(start: nat, end: nat, ps: seq<nat>) returns (block: seq<bool>)
    requires forall t :: 0 <= t < |ps| ==> ps[t] >= 1
    ensures |block| == if start <= end then end - start else 0
    ensures forall j :: 0 <= j < |block| ==> (block[j] <==> Unmarked(start + j, ps))
  {
    var len := if start <= end then end - start else 0;
    var a := seq(len, _ => true);
    var t := 0;
    while t < |ps|
      invariant 0 <= t <= |ps| && |a| == len
      invariant forall j :: 0 <= j < len ==> (a[j] <==> Unmarked(start + j, ps[..t]))
    {
      var p := ps[t];
      var first := FirstMultiple(start, p);
      a := CrossOff(a, start, p, first);
      forall j | 0 <= j < len
        ensures a[j] <==> Unmarked(start + j, ps[..t + 1])
      {
        UnmarkedSnoc(start + j, ps, t);
      }
      t := t + 1;
    }
    assert ps[..|ps|] == ps;
    block := a;
  }

  /** Soundness of marking: a prime is never cleared, since every cleared value is a multiple of
      some `p >= 2` that is at least `p * p`, hence has `p` as a proper divisor. */
  lemma {:induction false} MarkBlockSound(x: nat, ps: seq<nat>)
    requires forall t :: 0 <= t < |ps| ==> ps[t] >= 2
    requires IsPrime(x)
    ensures Unmarked(x, ps)
  {
    forall t | 0 <= t < |ps|
      ensures !ClearedBy(x, ps[t])
    {
      var p := ps[t];
      if p * p <= x {
        assert 2 * p <= p * p;
        assert 2 <= p < x;
      }
    }
  }

  /** Completeness of marking: when `ps` holds every prime whose square is at most `maxN`, each
      composite `x <= maxN` is cleared, by its smallest prime factor. */
  lemma MarkBlockComplete(x: nat, ps: seq<nat>, maxN: nat)
    requires forall q: nat :: IsPrime(q) && q * q <= maxN ==> q in ps
    requires 2 <= x <= maxN && !IsPrime(x)
    ensures !Unmarked(x, ps)
  {
    var q := SmallestDivisor(x);
    CompositeHasSmallPrimeFactor(x);
    assert q in ps;
    var t :| 0 <= t < |ps| && ps[t] == q;
    assert ClearedBy(x, ps[t]);
  }

  /** 0 and 1 are below the square of every base prime, so they are never cleared. */
  lemma {:induction false} ZeroAndOneSurvive(x: nat, ps: seq<nat>)
    requires forall t :: 0 <= t < |ps| ==> ps[t] >= 2
    requires x < 2
    ensures Unmarked(x, ps)
  {
    forall t | 0 <= t < |ps|
      ensures !ClearedBy(x, ps[t])
    {
      assert ps[t] * ps[t] >= 2 * ps[t];
    }
  }

  /** The base primes of `maxN` include every prime whose square is at most `maxN`. */
  lemma BasePrimesSuffice(maxN: nat)
    ensures forall q: nat :: IsPrime(q) && q * q <= maxN ==> q in BasePrimes(maxN)
    ensures forall p :: p in BasePrimes(maxN) ==> p >= 2
  {
    var ps := BasePrimes(maxN);
    PrimesInSpec(0, FloorSqrt(maxN) + 1);
    assert forall t :: 0 <= t < |ps| ==> ps[t] in ps;
    forall q: nat | IsPrime(q) && q * q <= maxN
      ensures q in ps
    {
      BelowFloorSqrt(maxN, q);
    }
  }

  /** With the base primes of `maxN`, the survivors of `[0, maxN]` are exactly the primes
      together with 0 and 1. */
  lemma SurvivorsArePotentialPrimes(x: nat, maxN: nat)
    requires x <= maxN
    ensures Unmarked(x, BasePrimes(maxN)) <==> x < 2 || IsPrime(x)
  {
    var ps := BasePrimes(maxN);
    BasePrimesSuffice(maxN);
    assert forall t :: 0 <= t < |ps| ==> ps[t] in ps;
    if x < 2 {
      ZeroAndOneSurvive(x, ps);
    } else if IsPrime(x) {
      MarkBlockSound(x, ps);
    } else {
      MarkBlockComplete(x, ps, maxN);
    }
  }

  // ---------------------------------------------------------------------------
  // Fan-out over the partition and reassembly
  // ---------------------------------------------------------------------------

  /** `block` is the marking of `r` against `ps`. */
  ghost predicate BlockMatches(block: seq<bool>, r: Range, ps: seq<nat>) {
    && |block| == (if r.start <= r.end then r.end - r.start else 0)
    && forall j :: 0 <= j < |block| ==> (block[j] <==> Unmarked(r.start + j, ps))
  }

  /** `pool.map(mark_block, ranges)`, as an order-preserving loop over the ranges. */
  method MarkAll(rs: seq<Range>, ps: seq<nat>) returns (results: seq<seq<bool>>)
    requires forall t :: 0 <= t < |ps| ==> ps[t] >= 1
    ensures |results| == |rs|
    ensures forall i :: 0 <= i < |rs| ==> BlockMatches(results[i], rs[i], ps)
  {
    results := [];
    var i := 0;
    while i < |rs|
      invariant 0 <= i <= |rs| && |results| == i
      invariant forall k :: 0 <= k < i ==> BlockMatches(results[k], rs[k], ps)
    {
      var block := MarkBlock(rs[i].start, rs[i].end, ps);
      results := results + [block];
      i := i + 1;
    }
  }

  /** Concatenating the markings of ranges laid end to end over `[lo, hi)` gives one flag per
      integer of `[lo, hi)`, position `x - lo` holding the flag of `x`. */
  lemma {:induction false} FlattenBlocks(results: seq<seq<bool>>, rs: seq<Range>, ps: seq<nat>, lo: nat, hi: nat)
    requires Tiles(rs, lo, hi) && |results| == |rs|
    requires forall i :: 0 <= i < |rs| ==> BlockMatches(results[i], rs[i], ps)
    ensures lo <= hi && |Flatten(results)| == hi - lo
    ensures forall x :: lo <= x < hi ==> (Flatten(results)[x - lo] <==> Unmarked(x, ps))
    decreases |rs|
  {
    TilesAscend(rs, lo, hi);
    if |rs| > 0 {
      var mid := rs[0].end;
      assert Tiles(rs[1..], mid, hi);
      FlattenBlocks(results[1..], rs[1..], ps, mid, hi);
      var head, tail := results[0], Flatten(results[1..]);
      assert Flatten(results) == head + tail;
      assert |head| == mid - lo;
      forall x | lo <= x < hi
        ensures Flatten(results)[x - lo] <==> Unmarked(x, ps)
      {
        if x < mid {
          assert Flatten(results)[x - lo] == head[x - lo];
        } else {
          assert Flatten(results)[x - lo] == tail[x - mid];
        }
      }
    }
  }

  /** The full sieve `full_crible` for `[0, maxN]`: base sieve, partition, marking of every
      block, concatenation. Flag `x` is set exactly for the primes and for 0 and 1. */
  method FullSieve(maxN: nat, cores: nat) returns (full: seq<bool>)
    requires cores >= 1
    ensures |full| == maxN + 1
    ensures forall x :: 0 <= x < |full| ==> (full[x] <==> x < 2 || IsPrime(x))
  {
    var _, basePrimes := BaseSieve(maxN);
    PrimesInSpec(0, FloorSqrt(maxN) + 1);
    assert forall t :: 0 <= t < |basePrimes| ==> basePrimes[t] in basePrimes;
    var rs := Partition(maxN, cores);
    var results := MarkAll(rs, basePrimes);
    full := Flatten(results);
    FlattenBlocks(results, rs, basePrimes, 0, maxN + 1);
    forall x | 0 <= x < |full|
      ensures full[x] <==> x < 2 || IsPrime(x)
    {
      SurvivorsArePotentialPrimes(x, maxN);
    }
  }

  // ---------------------------------------------------------------------------
  // Extraction
  // ---------------------------------------------------------------------------

  /** The indices `i >= lo` whose flag is set, ascending: `[i for i, f in enumerate(s) if f]` for `lo == 0`. */
  function IndicesFrom(s: seq<bool>, lo: nat): (r: seq<nat>)
    ensures StrictlyIncreasing(r)
    ensures forall i :: i in r <==> lo <= i < |s| && s[i]
    decreases |s|
  {
    if |s| <= lo then []
    else
      var prev := IndicesFrom(s[..|s| - 1], lo);
      assert forall k :: 0 <= k < |prev| ==> prev[k] in prev;
      prev + (if s[|s| - 1] then [|s| - 1] else [])
  }

  /** Read back from a sieve whose flags from `lo` on mark the primes, the indices are the primes. */
  lemma {:induction false} IndicesOfSieve(s: seq<bool>, lo: nat)
    requires forall x :: lo <= x < |s| ==> (s[x] <==> IsPrime(x))
    ensures IndicesFrom(s, lo) == PrimesIn(lo, |s|)
    decreases |s|
  {
    if |s| > lo {
      IndicesOfSieve(s[..|s| - 1], lo);
    }
  }

  /** Reading from index 0 instead of 2 adds exactly 0 and 1 in front when both flags are set. */
  lemma {:induction false} IndicesFromZero(s: seq<bool>)
    requires |s| >= 2 && s[0] && s[1]
    ensures IndicesFrom(s, 0) == [0, 1] + IndicesFrom(s, 2)
    decreases |s|
  {
    if |s| == 2 {
      assert s[..1][..0] == [];
      assert IndicesFrom(s[..1], 0) == [0];
    } else {
      IndicesFromZero(s[..|s| - 1]);
    }
  }

  /** The extraction as written: `[i for i, is_p in enumerate(full) if is_p][:n]`. */
  function ExtractAsWritten(full: seq<bool>, n: nat): seq<nat>
  {
    Take(IndicesFrom(full, 0), n)
  }

  /** The corrected extraction: only indices from 2 on are read back, then the first `n` kept. */
  function ExtractPrimes(full: seq<bool>, n: nat): (ps: seq<nat>)
    ensures StrictlyIncreasing(ps) && |ps| <= n
    ensures ps <= IndicesFrom(full, 2)
    ensures |ps| == if n <= |IndicesFrom(full, 2)| then n else |IndicesFrom(full, 2)|
  {
    Take(IndicesFrom(full, 2), n)
  }

  /** On a full sieve, the as-written extraction returns 0 and 1 ahead of the primes. */
  lemma AsWrittenKeepsZeroAndOne(full: seq<bool>, n: nat)
    requires |full| >= 2
    requires forall x :: 0 <= x < |full| ==> (full[x] <==> x < 2 || IsPrime(x))
    ensures ExtractAsWritten(full, n) == Take([0, 1] + PrimesIn(2, |full|), n)
  {
    IndicesFromZero(full);
    IndicesOfSieve(full, 2);
  }

  // ---------------------------------------------------------------------------
  // The whole program
  // ---------------------------------------------------------------------------

  /** The program as written, for a given `maxN` and core count: 0 and 1 come out first. */
  method FirstPrimesAsWritten(n: nat, maxN: nat, cores: nat) returns (primes: seq<nat>)
    requires cores >= 1
    ensures maxN >= 1 ==> primes == Take([0, 1] + PrimesIn(2, maxN + 1), n)
    ensures maxN == 0 ==> primes == Take([0], n)
  {
    var full := FullSieve(maxN, cores);
    primes := ExtractAsWritten(full, n);
    if maxN >= 1 {
      AsWrittenKeepsZeroAndOne(full, n);
    } else {
      assert full == [true];
      assert IndicesFrom(full, 0) == [0] by {
        assert full[..0] == [];
      }
    }
  }

  /** The corrected program: the first `n` primes up to `maxN`, whatever the core count
      (all of them when there are fewer than `n`). */
  method FirstPrimes(n: nat, maxN: nat, cores: nat) returns (primes: seq<nat>)
    requires cores >= 1
    ensures primes == Take(PrimesIn(2, maxN + 1), n)
    ensures |PrimesIn(2, maxN + 1)| >= n ==> |primes| == n
  {
    var full := FullSieve(maxN, cores);
    primes := ExtractPrimes(full, n);
    IndicesOfSieve(full, 2);
  }
}
