# First n primes, three ways — a Dafny model

The repository computes the first `n` prime numbers in three ways:

- `premiers.py` tries candidates 2, 3, 4, … one by one with trial division. It stops when `n` primes have been found.
- `premiers+mutli-processing.py` splits `[0, cores * (MAX_N // cores))` into one range per CPU core, dropping the tail up to `MAX_N` (see Findings). Each worker lists the primes of its range by trial division. The lists are then concatenated, sorted and cut to `n`.
- `premiers+multi+crible.py` is a segmented sieve of Eratosthenes. A classic sieve finds the base primes below `int(sqrt(MAX_N)) + 1`. Then `[0, MAX_N]` is split into one block per core, and `mark_block` clears the multiples of every base prime inside each block. The blocks are concatenated and the surviving indices are read back as numbers.

The model is pure Dafny over `nat`, `seq<nat>` and `seq<bool>`:

- **Parameters.** `MAX_N` and the core count are parameters, with `cores >= 1`.
- **Process pool.** `pool.map` is an order-preserving map over the range list.
- **Square roots.** The floating-point square roots become the exact floor square root `Primes.FloorSqrt`.
- **Reference list.** Every result is related to `Primes.PrimesIn(lo, hi)`, the ascending list of the primes of `[lo, hi)`.

Modules:

- `Primes` (`primes.dfy`): divisibility, primality and the floor square root. It also holds why trial division up to the square root is enough, the reference list `PrimesIn`, and Euclid's theorem. Euclid's theorem is what makes the generate-until-`n` loop terminate.
- `Seqs` (`seqs.dfy`): Python's `s[:n]` as `Take`, the `extend` loop as `Flatten`, and `list.sort()` as an insertion sort.
- `Blocks` (`blocks.dfy`): the work ranges and the "laid end to end" predicate `Tiles` with its coverage lemmas.
- `TrialDivision` (`trial_division.dfy`): `premiers.py`.
- `ParallelTrial` (`parallel_trial.dfy`): `premiers+mutli-processing.py`.
- `SegmentedSieve` (`segmented_sieve.dfy`): `premiers+multi+crible.py`.
- `Agreement` (`agreement.dfy`): the three programs agree once a bound holds enough primes. It also holds small concrete cases that show the two findings.

`is_prime` appears twice in the source, with the same logic in both copies:

- `premiers.py` loops over the divisors. It is modelled by the method `TrialDivision.IsPrimeByTrial`, with a loop invariant.
- `premiers+mutli-processing.py` calls it from inside a pure per-range computation. It is modelled by the function `ParallelTrial.TrialPrime`, which recurses over the odd divisors.

## Model

| member | source | states |
|---|---|---|
| Primes.FloorSqrt | premiers+mutli-processing.py:73 | the root `r` is the exact integer square root: `r * r <= v < (r + 1) * (r + 1)` |
| Primes.EarlyAnswers | premiers.py:37-46 | the three early answers are right: nothing below 2 is prime, 2 is prime, no even number above 2 is prime |
| Primes.OddTrialIffPrime | premiers.py:50-59 | for odd `v >= 3`, having no odd divisor in `[3, floor(sqrt v)]` is equivalent to `v` being prime |
| Primes.PrimeIffNoDivisorToSqrt | premiers.py:48-53 | a number above 1 is prime exactly when no `d` in `[2, floor(sqrt v)]` divides it, which is why the scan may stop at the root |
| Primes.CompositeHasSmallPrimeFactor | premiers+multi+crible.py:77-82 | a composite has a prime factor whose square is at most the composite (its smallest divisor) |
| Primes.PrimesInSpec | premiers.py:77-80 | the reference list of `[lo, hi)` is strictly increasing and holds exactly the primes of the interval |
| Primes.PrimesInSplit | premiers+mutli-processing.py:126-128 | the primes of `[a, c)` are the primes of `[a, b)` followed by those of `[b, c)` |
| Primes.PrimesInRanks | premiers.py:77-80 | entry `k` of the list of primes from `lo` is prime, and exactly the `k` entries before it are the primes below it |
| Primes.FirstPrimeIsTwo | premiers.py:63-64 | the first prime from 2 on is 2 |
| Primes.PrimesInPrefix | premiers+mutli-processing.py:133-134 | listing further never changes the first primes: a shorter bound's list is a prefix of a longer bound's list |
| Primes.PrimeAbove | premiers.py:77 | above every number lies a prime |
| Primes.EnoughPrimes | premiers.py:77 | every count `n` of primes is reached below some bound, so the `while len(primes) < n` loop ends |
| Seqs.Take | premiers+mutli-processing.py:134 | `s[:n]` has length `min(n, len(s))` and is a prefix of `s` |
| Seqs.InsertPerm | premiers+mutli-processing.py:131 | one insertion step of the sort adds exactly the inserted element |
| Seqs.InsertSorted | premiers+mutli-processing.py:131 | one insertion step keeps a sorted list sorted |
| Seqs.Sort | premiers+mutli-processing.py:131 | `primes.sort()` returns a sorted permutation of its input |
| Seqs.SortOfIncreasing | premiers+mutli-processing.py:130-131 | sorting a list that is already strictly increasing leaves it unchanged |
| Blocks.Ranges | premiers+multi+crible.py:97-100 | the `cores` ranges built by the loop lie end to end from 0 to the last range's end |
| Blocks.Partition | premiers+multi+crible.py:93-100 | the sieve's partition has one range per core, and the ranges lie end to end over exactly `[0, MAX_N + 1)` |
| Blocks.TilesCover | premiers+multi+crible.py:96-100 | ranges laid end to end over `[lo, hi)` cover exactly `[lo, hi)`, and each point lies in one range only |
| Blocks.TilesAscend | premiers+multi+crible.py:97-99 | ranges laid end to end stay within `[lo, hi)` and come in ascending order |
| TrialDivision.IsPrimeByTrial | premiers.py:26-59 | `is_prime` gives each early answer; for odd `v >= 3` it answers true iff no odd divisor up to the root exists; its answer is primality |
| TrialDivision.FirstPrimes | premiers.py:63-80 | the loop stops with exactly `n` primes, which are the primes below `candidate` in ascending order; entry `k` is the `(k + 1)`-th prime, and entry 0 is 2; the list never loses an element: the primes below every earlier candidate are a prefix of it |
| ParallelTrial.OddTrial | premiers+mutli-processing.py:76-80 | the odd scan from `d` to `r` succeeds exactly when no odd number of `[d, r]` divides `v` |
| ParallelTrial.TrialPrimeCorrect | premiers+mutli-processing.py:52-80 | `is_prime` answers exactly primality; for odd `v >= 3` it answers true iff no odd divisor up to the root exists |
| ParallelTrial.FindPrimesInRange | premiers+mutli-processing.py:86-98 | a worker returns exactly the primes of its range, ascending |
| ParallelTrial.FindAllTiles | premiers+mutli-processing.py:121-128 | over ranges laid end to end, the workers' lists concatenate to the primes of the whole span |
| ParallelTrial.MergeOfPrimes | premiers+mutli-processing.py:126-134 | after concatenation, sort and `[:n]` the result is the first `n` primes of the span: strictly increasing, all prime, of length `min(n, count)` |
| ParallelTrial.TrialPartition | premiers+mutli-processing.py:110-118 | range `i` is `[i * chunk, (i + 1) * chunk)` for every `i`, and the ranges lie end to end over `[0, cores * chunk)` only |
| ParallelTrial.TrialPartitionGap | premiers+mutli-processing.py:110-118 | an integer is handed to a worker exactly when it is below `cores * chunk`, which falls `MAX_N % cores` short of `MAX_N` |
| ParallelTrial.FirstPrimesAsWritten | premiers+mutli-processing.py:104-134 | the program as written returns the first `n` primes below `cores * (MAX_N // cores)` |
| ParallelTrial.FirstPrimes | premiers+mutli-processing.py:104-134 | with the last range ending at `MAX_N + 1`, the result is the first `n` primes up to `MAX_N` |
| SegmentedSieve.NoFactorBelowIffPrime | premiers+multi+crible.py:57-63 | once every candidate factor up to `k` has been tried, `k` surviving means `k` is prime |
| SegmentedSieve.CompositeClearsNothing | premiers+multi+crible.py:58-63 | skipping an index `i` that is already false loses nothing: a composite `i` clears nothing a smaller factor has not cleared |
| SegmentedSieve.NoFactorBelowStep | premiers+multi+crible.py:61-63 | sieving with `i` clears exactly the multiples of `i` from `i * i` on |
| SegmentedSieve.NextMultiple | premiers+multi+crible.py:81 | stepping by `p` from a multiple of `p` skips no multiple of `p` |
| SegmentedSieve.CrossOff | premiers+multi+crible.py:81-82 | the marking loop clears exactly the flags of the multiples of `p` from `first` on and keeps every other flag |
| SegmentedSieve.BaseSieve | premiers+multi+crible.py:52-63 | `crible_small[k]` is true exactly when `k` is prime, so 0 and 1 are false; `primes_up_to_sqrt` is strictly increasing and holds exactly the primes below `sqrt_max` |
| SegmentedSieve.BasePrimesSuffice | premiers+multi+crible.py:52-60 | every prime whose square is at most `MAX_N` is among the base primes, and every base prime is at least 2 |
| SegmentedSieve.UnmarkedSnoc | premiers+multi+crible.py:78-82 | after one more base prime, a flag survives exactly when it survived before and that prime does not clear it |
| SegmentedSieve.CeilMultiple | premiers+multi+crible.py:80 | `((start + p - 1) // p) * p` is the least multiple of `p` at or above `start` |
| SegmentedSieve.FirstMultiple | premiers+multi+crible.py:80 | `first` is the least multiple of `p` that is both at least `p * p` and at least `start` |
| SegmentedSieve.MarkBlock | premiers+multi+crible.py:68-83 | the block has `end - start` flags, and flag `j` is true exactly when no base prime clears `start + j` |
| SegmentedSieve.MarkBlockSound | premiers+multi+crible.py:78-82 | no prime is ever cleared |
| SegmentedSieve.MarkBlockComplete | premiers+multi+crible.py:72-82 | with all primes up to `sqrt(MAX_N)` as base primes, every composite up to `MAX_N` is cleared |
| SegmentedSieve.ZeroAndOneSurvive | premiers+multi+crible.py:75-82 | 0 and 1 are never cleared |
| SegmentedSieve.SurvivorsArePotentialPrimes | premiers+multi+crible.py:68-83 | with the base primes of `MAX_N`, an integer up to `MAX_N` survives exactly when it is prime or below 2 |
| SegmentedSieve.MarkAll | premiers+multi+crible.py:103-104 | block `i` of the results is the marking of range `i` |
| SegmentedSieve.FlattenBlocks | premiers+multi+crible.py:107-109 | the concatenated blocks have one flag per integer of the span, and position `x - lo` holds the flag of `x` |
| SegmentedSieve.FullSieve | premiers+multi+crible.py:88-109 | `full_crible` has length `MAX_N + 1`, and flag `x` is set exactly for the primes and for 0 and 1 |
| SegmentedSieve.IndicesFrom | premiers+multi+crible.py:112 | the indices read back are strictly increasing and are exactly the set positions |
| SegmentedSieve.IndicesOfSieve | premiers+multi+crible.py:112 | read back from flags that mark the primes, the indices are the primes, in order |
| SegmentedSieve.IndicesFromZero | premiers+multi+crible.py:112 | reading from index 0 puts 0 and 1 in front of what is read from index 2 |
| SegmentedSieve.ExtractPrimes | premiers+multi+crible.py:111-113 | the extracted list is strictly increasing, holds at most `n` entries, is a prefix of the surviving indices from 2 on, and has length `min(n, count)` |
| SegmentedSieve.AsWrittenKeepsZeroAndOne | premiers+multi+crible.py:112-113 | on a full sieve the extraction as written returns the first `n` of 0, 1 and then the primes |
| SegmentedSieve.FirstPrimesAsWritten | premiers+multi+crible.py:88-113 | the program as written returns the first `n` of 0, 1, 2, 3, 5, … up to `MAX_N` |
| SegmentedSieve.FirstPrimes | premiers+multi+crible.py:88-113 | reading from index 2, the result is the first `n` primes up to `MAX_N`, whatever the core count, and has `n` entries when `MAX_N` holds enough primes |
| Agreement.ExtendByTrial | premiers+mutli-processing.py:94-96 | testing one more candidate extends the list of primes exactly when `is_prime` accepts it |
| Agreement.PrimesBelowSixteen | premiers+multi+crible.py:39-40 | the primes up to the small bound 15 are 2, 3, 5, 7, 11, 13 |
| Agreement.PrimesFromZero | premiers+mutli-processing.py:61-62 | starting the ranges at 0 instead of 2 adds no prime, since 0 and 1 are rejected |
| Agreement.FirstPrimesUnique | premiers.py:77-80 | any `n`-entry list of the primes from 2 is the first `n` entries of every longer one |
| Agreement.VariantsAgree | premiers.py:63-80 | when `MAX_N` holds at least `n` primes, the sequential loop, the corrected sieve and the corrected parallel trial division return the same `n` primes |
| Agreement.SmallBoundSuffices | premiers+multi+crible.py:39-40 | `estimate_max_n(n)` is 15 for every `n < 6`, and the integers up to 15 hold the first `n` primes |
| Agreement.SmallBoundSieve | premiers+multi+crible.py:37-45 | for `n < 6` the corrected sieve with the small bound returns the first `n` primes |
| Agreement.SieveKeepsZeroAndOne | premiers+multi+crible.py:112-113 | asked for 5 primes with `MAX_N = 15`, the sieve as written returns 0, 1, 2, 3, 5; the corrected one returns 2, 3, 5, 7, 11 |
| Agreement.TrialDropsTail | premiers+mutli-processing.py:115-118 | asked for 5 primes with `MAX_N = 15` on 8 cores, the trial division as written tries only `[0, 8)` and returns 2, 3, 5, 7; the corrected partition adds 11 |

## Left out

- File output and timing (`open`, `f.write`, `time.time`): I/O only.
- `multiprocessing.Pool` and `cpu_count`. The pool is an order-preserving sequential map, and the core count is a parameter with `cores >= 1`.
- The floating-point square roots `MAX_N ** 0.5` and `v ** 0.5`. They are replaced by the exact floor square root. Floating-point rounding for very large inputs is not modelled.
- SegmentedSieve.EstimateMaxN: only the `n < 6` branch is modelled. The `n >= 6` branch computes `n (ln n + ln ln n)` plus a margin in floating point, and its value is passed in as a parameter. The model does not state that this estimate holds `n` primes. Instead, the pipelines are stated for any `MAX_N`, together with how many primes it holds.
- The second copy of `estimate_max_n`, in `premiers+mutli-processing.py` (lines 28-42), is not modelled separately. `MAX_N` is a parameter of every pipeline.
- The commented-out input prompt and the `for` loop kept inside a string literal in `premiers.py` (lines 16 and 66-76). They are dead code.
- Python list details beyond what the results depend on:
  - Lists become immutable sequences, and `append`/`extend` become concatenation.
  - The slice assignment `crible_small[0:2] = [False, False]` is modelled by its result. For `MAX_N == 0` that result is a list of length 2.
- `list.sort()` is modelled by an insertion sort. Timsort's algorithm is not modelled, only its result: a sorted permutation.

## Findings

| source | as written | input that shows it | evidently intended | confidence | as-written member | corrected member |
|---|---|---|---|---|---|---|
| premiers+multi+crible.py:112-113 | the flags of 0 and 1 start true in the first block and are never cleared, since marking starts at `p * p >= 4`; the extraction reads indices from 0, so 0 and 1 are returned as primes and the last two requested primes are pushed out | `n = 5`, `MAX_N = 15`, any core count: the result is `[0, 1, 2, 3, 5]` (Agreement.SieveKeepsZeroAndOne) | only primes are returned, as the program's stated purpose (line 3: find the first `n` primes) and the comment on line 111 (extract exactly `n` primes) say: the first `n` primes up to `MAX_N`, here `[2, 3, 5, 7, 11]` | not executed | SegmentedSieve.FirstPrimesAsWritten | SegmentedSieve.FirstPrimes |
| premiers+mutli-processing.py:117 | every range, the last included, ends at `(i + 1) * chunk_size`, so `[cores * chunk_size, MAX_N]` is never tried | `n = 5`, `MAX_N = 15`, 8 cores: only `[0, 8)` is tried and the result is `[2, 3, 5, 7]` (Agreement.TrialDropsTail) | the ranges cover `[0, MAX_N]`, as the comment on line 114 says and as the sieve's partition does, giving `[2, 3, 5, 7, 11]` | not executed | ParallelTrial.FirstPrimesAsWritten | ParallelTrial.FirstPrimes |
