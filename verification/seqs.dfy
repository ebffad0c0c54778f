/**
 Sequence operations the generators share: Python's `s[:n]`, the
 `extend` loop that glues worker results together, and `list.sort()`.
 */
module Seqs {

  ghost predicate Sorted(s: seq<nat>) {
    forall i, j :: 0 <= i < j < |s| ==> s[i] <= s[j]
  }

  ghost predicate StrictlyIncreasing(s: seq<nat>) {
    forall i, j :: 0 <= i < j < |s| ==> s[i] < s[j]
  }

  /** Python's `s[:n]` for `n >= 0`: the first `n` elements, or all of them when there are fewer. */
  function Take<T>(s: seq<T>, n: nat): (r: seq<T>)
    ensures |r| == (if n <= |s| then n else |s|)
    ensures r <= s
  {
    if n <= |s| then s[..n] else s
  }

  /** Concatenation of the parts in order, as the `for part in results: acc.extend(part)` loop builds it. */
  function Flatten<T>(parts: seq<seq<T>>): seq<T>
  {
    if |parts| == 0 then [] else parts[0] + Flatten(parts[1..])
  }

  /** Inserts `x` before the first element not smaller than it. */
  function Insert(x: nat, s: seq<nat>): seq<nat>
  {
    if |s| == 0 then [x]
    else if x <= s[0] then [x] + s
    else [s[0]] + Insert(x, s[1..])
  }

  /** Inserting adds exactly one `x` and nothing else, and puts either `x` or the old first element in front. */
  lemma {:induction false} InsertPerm(x: nat, s: seq<nat>)
    ensures multiset(Insert(x, s)) == multiset(s) + multiset{x}
    ensures |Insert(x, s)| > 0
    ensures Insert(x, s)[0] == x || (|s| > 0 && Insert(x, s)[0] == s[0])
  {
    if |s| > 0 && x > s[0] {
      assert s == [s[0]] + s[1..];
      InsertPerm(x, s[1..]);
    }
  }

  /** Inserting into a sorted sequence keeps it sorted. */
  lemma {:induction false} InsertSorted(x: nat, s: seq<nat>)
    requires Sorted(s)
    ensures Sorted(Insert(x, s))
  {
    if |s| > 0 && x > s[0] {
      var rest := s[1..];
      InsertSorted(x, rest);
      InsertPerm(x, rest);
      var tail := Insert(x, rest);
      var r := [s[0]] + tail;
      assert r == Insert(x, s);
      assert s[0] <= tail[0] by {
        if |rest| > 0 {
          assert s[0] <= s[1];
        }
      }
      forall i, j | 0 <= i < j < |r|
        ensures r[i] <= r[j]
      {
        if i > 0 {
          assert r[i] == tail[i - 1] && r[j] == tail[j - 1];
        } else {
          assert r[j] == tail[j - 1];
          assert tail[0] <= tail[j - 1];
        }
      }
    }
  }

  /** A stable ascending sort (insertion sort), standing in for `list.sort()` on integers. */
  function Sort(s: seq<nat>): (r: seq<nat>)
    ensures Sorted(r)
    ensures multiset(r) == multiset(s)
  {
    if |s| == 0 then []
    else
      assert s == [s[0]] + s[1..];
      InsertPerm(s[0], Sort(s[1..]));
      InsertSorted(s[0], Sort(s[1..]));
      Insert(s[0], Sort(s[1..]))
  }

  /** Sorting a list that is already strictly increasing leaves it unchanged. */
  lemma {:induction false} SortOfIncreasing(s: seq<nat>)
    requires StrictlyIncreasing(s)
    ensures Sort(s) == s
  {
    if |s| > 0 {
      SortOfIncreasing(s[1..]);
      assert s == [s[0]] + s[1..];
    }
  }
}
