/**
 The work partition both parallel variants compute before fanning out:
 `cores` half-open ranges of `chunk_size = MAX_N // cores` integers, the
 last one ending wherever the variant decides.
 */
module Blocks {

  /** The half-open interval `[start, end)` handed to one worker. */
  datatype Range = Range(start: nat, end: nat)
  {
    predicate Contains(x: nat) {
      start <= x < end
    }
  }

  /** `rs` lies end to end over `[lo, hi)`: it starts at `lo`, each range begins where the
      previous one ends, none runs backwards, and the last one ends at `hi`. */
  ghost predicate Tiles(rs: seq<Range>, lo: nat, hi: nat) {
    && (|rs| == 0 ==> lo == hi)
    && (|rs| > 0 ==> rs[0].start == lo && rs[|rs| - 1].end == hi)
    && (forall i :: 0 <= i < |rs| ==> rs[i].start <= rs[i].end)
    && (forall i :: 0 <= i < |rs| - 1 ==> rs[i].end == rs[i + 1].start)
  }

  /** The ranges the `for i in range(cores)` loop builds: range `i` starts at `i * chunk`
      and ends at `(i + 1) * chunk`, except the last, which ends at `lastEnd`. */
  function Ranges(cores: nat, chunk: nat, lastEnd: nat): (rs: seq<Range>)
    requires cores >= 1 && (cores - 1) * chunk <= lastEnd
    ensures |rs| == cores
    ensures Tiles(rs, 0, lastEnd)
  {
    var rs := seq(cores, i requires 0 <= i < cores =>
      Range(i * chunk, if i != cores - 1 then (i + 1) * chunk else lastEnd));
    assert forall i :: 0 <= i < cores ==> i * chunk <= (i + 1) * chunk by {
      forall i | 0 <= i < cores
        ensures i * chunk <= (i + 1) * chunk
      {
        assert (i + 1) * chunk == i * chunk + chunk;
      }
    }
    rs
  }

  /** The segmented sieve's partition of `[0, maxN]`: `cores` ranges of `maxN // cores`
      integers, the last stretched to end at `maxN + 1`. */
  function Partition(maxN: nat, cores: nat): (rs: seq<Range>)
    requires cores >= 1
    ensures |rs| == cores
    ensures Tiles(rs, 0, maxN + 1)
  {
    var chunk := maxN / cores;
    assert (cores - 1) * chunk <= maxN + 1 by {
      assert cores * chunk <= maxN;
      assert (cores - 1) * chunk == cores * chunk - chunk;
    }
    Ranges(cores, chunk, maxN + 1)
  }

  /** Ranges laid end to end cover exactly `[lo, hi)`, and each point of it lies in one range only. */
  lemma {:induction false} TilesCover(rs: seq<Range>, lo: nat, hi: nat, x: nat)
    requires Tiles(rs, lo, hi)
    ensures (exists i :: 0 <= i < |rs| && rs[i].Contains(x)) <==> lo <= x < hi
    ensures forall i, j :: 0 <= i < |rs| && 0 <= j < |rs| && rs[i].Contains(x) && rs[j].Contains(x) ==> i == j
    decreases |rs|
  {
    if |rs| > 0 {
      var rest := rs[1..];
      assert Tiles(rest, rs[0].end, hi);
      TilesCover(rest, rs[0].end, hi, x);
      TilesAscend(rs, lo, hi);
      if lo <= x < hi && !rs[0].Contains(x) {
        var i :| 0 <= i < |rest| && rest[i].Contains(x);
        assert rs[i + 1].Contains(x);
      }
      forall i | 0 <= i < |rs| && rs[i].Contains(x)
        ensures lo <= x < hi
      {
        if i > 0 {
          assert rest[i - 1].Contains(x);
        }
      }
      forall i, j | 0 <= i < |rs| && 0 <= j < |rs| && rs[i].Contains(x) && rs[j].Contains(x)
        ensures i == j
      {
        if i > 0 && j > 0 {
          assert rest[i - 1].Contains(x) && rest[j - 1].Contains(x);
        }
      }
    }
  }

  /** Ranges laid end to end start at `lo` or later and end at `hi` or earlier, in order. */
  lemma {:induction false} TilesAscend(rs: seq<Range>, lo: nat, hi: nat)
    requires Tiles(rs, lo, hi)
    ensures lo <= hi
    ensures forall i :: 0 <= i < |rs| ==> lo <= rs[i].start && rs[i].end <= hi
    ensures forall i, j :: 0 <= i < j < |rs| ==> rs[i].end <= rs[j].start
    decreases |rs|
  {
    if |rs| > 0 {
      var rest := rs[1..];
      assert Tiles(rest, rs[0].end, hi);
      TilesAscend(rest, rs[0].end, hi);
      forall i, j | 0 <= i < j < |rs|
        ensures rs[i].end <= rs[j].start
      {
        if i > 0 {
          assert rest[i - 1] == rs[i] && rest[j - 1] == rs[j];
        } else if j > 1 {
          assert rest[j - 1] == rs[j];
        }
      }
    }
  }
}
