/**
 The parallel trial-division generator: split `[0, cores * (MAX_N // cores))`
 into one range per core, dropping the tail up to `MAX_N` (see
 `TrialPartitionGap`), let each worker list the primes of its range by
 trial division, then concatenate, sort and keep the first `n`.

 The process pool is modelled as an order-preserving map over the range
 list (`FindAll`): worker `i`'s answer lands at position `i`.
 */
module ParallelTrial {

  import opened Primes
  import opened Seqs
  import opened Blocks

  /** `is_prime` as a pure function: reject below 2, accept 2, reject other evens,
      then scan the odd divisors up to the floor square root. */
  function TrialPrime(v: nat): bool
  {
    if v < 2 then false
    else if v == 2 then true
    else if v % 2 == 0 then false
    else OddTrial(v, 3, FloorSqrt(v))
  }

  /** The `for d in range(d, r + 1, 2)` scan: true exactly when no odd number in `[d, r]` divides `v`. */
  function OddTrial(v: nat, d: nat, r: nat): (ok: bool)
    requires d % 2 == 1
    ensures ok <==> forall e {:trigger Divides(e, v)} :: d <= e <= r && e % 2 == 1 ==> !Divides(e, v)
    decreases r + 2 - d
  {
    if d > r then true
    else if v % d == 0 then
      assert Divides(d, v);
      false
    else OddTrial(v, d + 2, r)
  }

  /** Trial division decides primality: each early answer is right, and for odd `v >= 3`
      the odd scan up to the floor square root finds a divisor exactly when `v` is composite. */
  lemma TrialPrimeCorrect(v: nat)
    ensures v >= 3 && v % 2 == 1 ==> (TrialPrime(v) <==> NoOddDivisor(v, FloorSqrt(v)))
    ensures TrialPrime(v) <==> IsPrime(v)
  {
    EarlyAnswers(v);
    if v >= 3 && v % 2 == 1 {
      OddTrialIffPrime(v);
    }
  }

  /** `find_primes_in_range`: the candidates of `[start, end)` that pass the test, in the order tried. */
  function FindPrimesInRange(r: Range): (ps: seq<nat>)
    ensures ps == PrimesIn(r.start, r.end)
    decreases r.end
  {
    if r.end <= r.start then []
    else
      TrialPrimeCorrect(r.end - 1);
      FindPrimesInRange(Range(r.start, r.end - 1)) + (if TrialPrime(r.end - 1) then [r.end - 1] else [])
  }

  /** `pool.map(find_primes_in_range, ranges)`, as an order-preserving map. */
  function FindAll(rs: seq<Range>): seq<seq<nat>>
  {
    seq(|rs|, i requires 0 <= i < |rs| => FindPrimesInRange(rs[i]))
  }

  /** The merge: concatenate the workers' lists, sort, keep the first `n`. */
  function Merge(parts: seq<seq<nat>>, n: nat): seq<nat>
  {
    Take(Sort(Flatten(parts)), n)
  }

  /** The workers' lists over ranges laid end to end concatenate to the primes of the whole span. */
  lemma {:induction false} FindAllTiles(rs: seq<Range>, lo: nat, hi: nat)
    requires Tiles(rs, lo, hi)
    ensures lo <= hi
    ensures Flatten(FindAll(rs)) == PrimesIn(lo, hi)
    decreases |rs|
  {
    TilesAscend(rs, lo, hi);
    if |rs| > 0 {
      var mid := rs[0].end;
      assert Tiles(rs[1..], mid, hi);
      FindAllTiles(rs[1..], mid, hi);
      assert FindAll(rs)[1..] == FindAll(rs[1..]);
      PrimesInSplit(lo, mid, hi);
    }
  }

  /** When the concatenation is the primes of `[lo, hi)`, sorting changes nothing and the merge
      returns the first `min(n, count)` of them: strictly increasing, all prime. */
  lemma MergeOfPrimes(parts: seq<seq<nat>>, n: nat, lo: nat, hi: nat)
    requires Flatten(parts) == PrimesIn(lo, hi)
    ensures Merge(parts, n) == Take(PrimesIn(lo, hi), n)
    ensures StrictlyIncreasing(Merge(parts, n))
    ensures forall x :: x in Merge(parts, n) ==> lo <= x < hi && IsPrime(x)
    ensures |Merge(parts, n)| == if n <= |PrimesIn(lo, hi)| then n else |PrimesIn(lo, hi)|
  {
    PrimesInSpec(lo, hi);
    SortOfIncreasing(PrimesIn(lo, hi));
    var r := Merge(parts, n);
    assert forall x :: x in r ==> x in PrimesIn(lo, hi);
  }

  /** Where the ranges of this variant stop: `cores * (maxN // cores)`. */
  function Covered(maxN: nat, cores: nat): nat
    requires cores >= 1
  {
    cores * (maxN / cores)
  }

  /** The ranges as this variant builds them: range `i` is `[i * chunk, (i + 1) * chunk)` for every
      `i`, with `chunk = maxN // cores`, so together they cover only `[0, cores * chunk)`. */
  function TrialPartition(maxN: nat, cores: nat): (rs: seq<Range>)
    requires cores >= 1
    ensures |rs| == cores
    ensures forall i :: 0 <= i < cores ==> rs[i] == Range(i * (maxN / cores), (i + 1) * (maxN / cores))
    ensures Tiles(rs, 0, Covered(maxN, cores))
  {
    var chunk := maxN / cores;
    assert (cores - 1) * chunk <= cores * chunk;
    Ranges(cores, chunk, cores * chunk)
  }

  /** The coverage gap of `TrialPartition`: an integer is handed to some worker exactly when it is
      below `cores * (maxN // cores)`, which falls `maxN % cores` short of `maxN`. */
  lemma TrialPartitionGap(maxN: nat, cores: nat, x: nat)
    requires cores >= 1
    ensures (exists i :: 0 <= i < cores && TrialPartition(maxN, cores)[i].Contains(x))
        <==> x < Covered(maxN, cores)
    ensures maxN - Covered(maxN, cores) == maxN % cores
  {
    var chunk := maxN / cores;
    var rs := TrialPartition(maxN, cores);
    TilesCover(rs, 0, cores * chunk, x);
    assert maxN == cores * chunk + maxN % cores;
  }

  /** The program as written: primes of `[0, cores * (maxN // cores))` only, so the top
      `maxN % cores` integers are never tried. */
  function FirstPrimesAsWritten(n: nat, maxN: nat, cores: nat): (ps: seq<nat>)
    requires cores >= 1
    ensures ps == Take(PrimesIn(0, Covered(maxN, cores)), n)
  {
    var rs := TrialPartition(maxN, cores);
    FindAllTiles(rs, 0, Covered(maxN, cores));
    MergeOfPrimes(FindAll(rs), n, 0, Covered(maxN, cores));
    Merge(FindAll(rs), n)
  }

  /** The corrected program: the last range ends at `maxN + 1`, as in the segmented sieve,
      so every integer of `[0, maxN]` is tried and the result is the first `n` primes up to `maxN`. */
  function FirstPrimes(n: nat, maxN: nat, cores: nat): (ps: seq<nat>)
    requires cores >= 1
    ensures ps == Take(PrimesIn(0, maxN + 1), n)
  {
    var rs := Partition(maxN, cores);
    FindAllTiles(rs, 0, maxN + 1);
    MergeOfPrimes(FindAll(rs), n, 0, maxN + 1);
    Merge(FindAll(rs), n)
  }
}
