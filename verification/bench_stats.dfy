/**
 * The result post-processing of the benchmark client: the comparator handed
 * to `qsort`, the flattening of the per-thread latency arrays, the sorted
 * order `qsort` produces, and the unsigned 64-bit total.
 */
module BenchStats {

  /** A C `int`: one latency sample in milliseconds. */
  type int32 = x: int | -0x8000_0000 <= x < 0x8000_0000

  /** 2^64: `tot` is a `uint64_t` and wraps modulo this. */
  const U64: int := 0x1_0000_0000_0000_0000

  /**
   * `int_compare`: the three-way comparison of two samples, negative, zero or
   * positive exactly as the first is below, equal to or above the second.
   */
  function IntCompare(a: int32, b: int32): (r: int)
    ensures r < 0 <==> a < b
    ensures r == 0 <==> a == b
    ensures r > 0 <==> a > b
    ensures r in {-1, 0, 1}
  {
    if a < b then -1 else if a == b then 0 else 1
  }

  /** Swapping the arguments negates the result, as `qsort` requires of its comparator. */
  lemma CompareAntisymmetric(a: int32, b: int32)
    ensures IntCompare(a, b) == -IntCompare(b, a)
  {
  }

  /** The comparator orders transitively, so a sort by it is well defined. */
  lemma CompareTransitive(a: int32, b: int32, c: int32)
    requires IntCompare(a, b) <= 0 && IntCompare(b, c) <= 0
    ensures IntCompare(a, c) <= 0
  {
  }

  /**
   * Non-decreasing: the order `qsort` leaves the array in. `IntCompare(a, b) <= 0`
   * holds exactly when `a <= b`, so this is the order of the comparator.
   */
  ghost predicate Sorted(s: seq<int32>) {
    forall i, j :: 0 <= i < j < |s| ==> s[i] <= s[j]
  }

  /** Every per-thread array holds `n` samples (`num_requests`). */
  ghost predicate Uniform(rows: seq<seq<int32>>, n: nat) {
    forall i :: 0 <= i < |rows| ==> |rows[i]| == n
  }

  /** The per-thread arrays laid end to end, thread 0 first. */
  function Flatten(rows: seq<seq<int32>>): (r: seq<int32>)
    decreases |rows|
  {
    if |rows| == 0 then [] else Flatten(rows[..|rows| - 1]) + rows[|rows| - 1]
  }

  /** One more row of `n` adds `n` to the offset. */
  lemma RowStep(m: nat, n: nat)
    ensures (m + 1) * n == m * n + n
  {
  }

  /** Row `a` ends at or before row `m` starts: `a * n + b < m * n` for `a < m` and `b < n`. */
  lemma RowOffset(a: nat, b: nat, n: nat, m: nat)
    requires a < m && b < n
    ensures a * n + b < m * n
  {
    assert (m - a - 1) * n >= 0;
    assert m * n == a * n + n + (m - a - 1) * n;
  }

  /** With `n` samples per thread the flattened array has `threads * n` entries. */
  lemma {:induction false} FlattenLength(rows: seq<seq<int32>>, n: nat)
    requires Uniform(rows, n)
    ensures |Flatten(rows)| == |rows| * n
    decreases |rows|
  {
    if |rows| > 0 {
      var m := |rows| - 1;
      assert Uniform(rows[..m], n);
      FlattenLength(rows[..m], n);
      RowStep(m, n);
    }
  }

  /** Sample `j` of thread `i` sits at index `i * n + j` of the flattened array. */
  lemma {:induction false} FlattenIndex(rows: seq<seq<int32>>, n: nat, i: nat, j: nat)
    requires Uniform(rows, n)
    requires i < |rows| && j < n
    ensures i * n + j < |Flatten(rows)|
    ensures Flatten(rows)[i * n + j] == rows[i][j]
    decreases |rows|
  {
    var m := |rows| - 1;
    var init := rows[..m];
    assert Uniform(init, n);
    FlattenLength(init, n);
    var offset := i * n + j;
    if i < m {
      RowOffset(i, j, n, m);
      assert init[i] == rows[i];
      FlattenIndex(init, n, i, j);
    } else {
      assert offset == m * n + j;
    }
  }

  /**
   * The copy loop: each thread's samples are copied, in thread order, to
   * offset `i * num_requests` of `results`; `FlattenIndex` gives the offsets.
   */
  method FlattenResults(saved: seq<seq<int32>>, numRequests: nat) returns (results: seq<int32>)
    requires Uniform(saved, numRequests)
    ensures results == Flatten(saved)
  {
    results := [];
    var i := 0;
    while i < |saved|
      invariant 0 <= i <= |saved|
      invariant results == Flatten(saved[..i])
    {
      assert saved[..i + 1][..i] == saved[..i];
      assert Flatten(saved[..i + 1]) == Flatten(saved[..i]) + saved[i];
      results := results + saved[i];
      i := i + 1;
    }
    assert saved[..|saved|] == saved;
  }

  /** Every entry of `s` is at least `lo`. */
  ghost predicate AtLeast(s: seq<int32>, lo: int) {
    forall k :: 0 <= k < |s| ==> lo <= s[k]
  }

  /** A lower bound of two sequences bounds any rearrangement of their union. */
  lemma AtLeastPermutation(s: seq<int32>, x: int32, rest: seq<int32>, lo: int)
    requires AtLeast(s, lo) && lo <= x
    requires multiset(rest) == multiset(s) + multiset{x}
    ensures AtLeast(rest, lo)
  {
    forall k | 0 <= k < |rest|
      ensures lo <= rest[k]
    {
      assert rest[k] in multiset(rest);
      if rest[k] != x {
        assert rest[k] in multiset(s);
      }
    }
  }

  /** Places `x` into a sorted sequence, keeping it sorted. */
  function Insert(x: int32, s: seq<int32>): (r: seq<int32>)
    requires Sorted(s)
    ensures Sorted(r)
    ensures multiset(r) == multiset(s) + multiset{x}
    decreases |s|
  {
    if |s| == 0 then [x]
    else if IntCompare(x, s[0]) <= 0 then [x] + s
    else
      var rest := Insert(x, s[1..]);
      assert s == [s[0]] + s[1..];
      AtLeastPermutation(s[1..], x, rest, s[0]);
      [s[0]] + rest
  }

  /**
   * The result of `qsort(results, length, sizeof(int), int_compare)`: the same
   * samples, non-decreasing. Any sorting algorithm gives this very sequence
   * (see `SortedPermutationUnique`).
   */
  function SortSamples(s: seq<int32>): (r: seq<int32>)
    ensures Sorted(r)
    ensures multiset(r) == multiset(s)
    decreases |s|
  {
    if |s| == 0 then []
    else
      assert s == [s[0]] + s[1..];
      Insert(s[0], SortSamples(s[1..]))
  }

  /** Taking the same first element off two equal multisets leaves equal multisets. */
  lemma TailsPermuted(a: seq<int32>, b: seq<int32>)
    requires |a| > 0 && |b| > 0 && a[0] == b[0]
    requires multiset(a) == multiset(b)
    ensures multiset(a[1..]) == multiset(b[1..])
  {
    assert a == [a[0]] + a[1..];
    assert b == [b[0]] + b[1..];
    assert multiset(a) == multiset{a[0]} + multiset(a[1..]);
    assert multiset(b) == multiset{b[0]} + multiset(b[1..]);
    assert forall y :: multiset(a[1..])[y] == multiset(a)[y] - multiset{a[0]}[y] == multiset(b[1..])[y];
  }

  /** A sample of a sorted sequence is no smaller than its first entry. */
  lemma FirstIsLeast(s: seq<int32>, x: int32)
    requires Sorted(s) && x in multiset(s)
    ensures |s| > 0 && s[0] <= x
  {
    var k :| 0 <= k < |s| && s[k] == x;
  }

  /**
   * There is only one sorted permutation of a multiset of samples, so the
   * model of `qsort` does not depend on the algorithm the C library uses.
   */
  lemma {:induction false} SortedPermutationUnique(a: seq<int32>, b: seq<int32>)
    requires Sorted(a) && Sorted(b)
    requires multiset(a) == multiset(b)
    ensures a == b
    decreases |a|
  {
    if |a| == 0 {
      assert |b| == |multiset(b)| == 0;
    } else {
      assert a[0] in multiset(a);
      FirstIsLeast(b, a[0]);
      assert b[0] in multiset(b);
      FirstIsLeast(a, b[0]);
      TailsPermuted(a, b);
      SortedPermutationUnique(a[1..], b[1..]);
      assert a == [a[0]] + a[1..];
      assert b == [b[0]] + b[1..];
    }
  }

  /** A sample of a sorted sequence is no larger than its last entry. */
  lemma LastIsGreatest(s: seq<int32>, x: int32)
    requires Sorted(s) && x in multiset(s)
    ensures |s| > 0 && x <= s[|s| - 1]
  {
    var k :| 0 <= k < |s| && s[k] == x;
  }

  /**
   * The first and last entries after the sort are the least and greatest
   * samples, and both are samples.
   */
  lemma SortedExtremes(samples: seq<int32>)
    requires |samples| >= 1
    ensures var r := SortSamples(samples);
      && |r| == |samples|
      && r[0] in samples && r[|r| - 1] in samples
      && forall x :: x in samples ==> r[0] <= x <= r[|r| - 1]
  {
    var r := SortSamples(samples);
    assert |r| == |multiset(r)| == |multiset(samples)| == |samples|;
    assert r[0] in multiset(r) && r[|r| - 1] in multiset(r);
    assert r[0] in multiset(samples) && r[|r| - 1] in multiset(samples);
    forall x | x in samples
      ensures r[0] <= x <= r[|r| - 1]
    {
      assert x in multiset(samples);
      FirstIsLeast(r, x);
      LastIsGreatest(r, x);
    }
  }

  /** The mathematical sum of the samples. */
  function Sum(s: seq<int>): int
    decreases |s|
  {
    if |s| == 0 then 0 else Sum(s[..|s| - 1]) + s[|s| - 1]
  }

  /** Removing one entry from anywhere takes exactly that entry off the sum. */
  lemma {:induction false} SumRemove(s: seq<int>, k: int)
    requires 0 <= k < |s|
    ensures Sum(s) == Sum(s[..k] + s[k + 1..]) + s[k]
    decreases |s|
  {
    var n := |s| - 1;
    if k < n {
      var t := s[..k] + s[k + 1..];
      assert s[..n][..k] + s[..n][k + 1..] == t[..|t| - 1];
      assert t[|t| - 1] == s[n];
      SumRemove(s[..n], k);
    } else {
      assert s[..k] + s[k + 1..] == s[..n];
    }
  }

  /** The sum does not depend on the order of the samples, so summing after the sort is summing the samples. */
  lemma {:induction false} SumPermutation(a: seq<int>, b: seq<int>)
    requires multiset(a) == multiset(b)
    ensures Sum(a) == Sum(b)
    decreases |a|
  {
    if |a| == 0 {
      assert |b| == |multiset(b)| == 0;
    } else {
      var n := |a| - 1;
      var x := a[n];
      assert x in multiset(b);
      var k :| 0 <= k < |b| && b[k] == x;
      var rest := b[..k] + b[k + 1..];
      assert b == b[..k] + [x] + b[k + 1..];
      assert a == a[..n] + [x];
      assert multiset(b) == multiset(b[..k]) + multiset{x} + multiset(b[k + 1..]);
      assert multiset(a) == multiset(a[..n]) + multiset{x};
      assert multiset(rest) == multiset(b[..k]) + multiset(b[k + 1..]);
      assert forall y :: multiset(a[..n])[y] == multiset(a)[y] - multiset{x}[y] == multiset(rest)[y];
      assert multiset(a[..n]) == multiset(rest);
      SumPermutation(a[..n], rest);
      SumRemove(b, k);
    }
  }

  /**
   * The summing loop: `tot += results[i]` on a `uint64_t`, so every sample is
   * added modulo 2^64 (a negative sample wraps).
   */
  method Total(results: seq<int32>) returns (tot: nat)
    ensures tot < U64
    ensures tot == Sum(results) % U64
  {
    tot := 0;
    var i := 0;
    while i < |results|
      invariant 0 <= i <= |results|
      invariant tot < U64
      invariant tot == Sum(results[..i]) % U64
    {
      assert results[..i + 1][..i] == results[..i];
      tot := (tot + results[i]) % U64;
      i := i + 1;
    }
    assert results[..|results|] == results;
  }

  /** Bounds of a sum of non-negative samples: between 0 and `|s|` times the largest `int`. */
  lemma {:induction false} SumOfLatenciesBounds(s: seq<int32>)
    requires forall k :: 0 <= k < |s| ==> s[k] >= 0
    ensures 0 <= Sum(s) <= |s| * 0x7fff_ffff
    decreases |s|
  {
    if |s| > 0 {
      SumOfLatenciesBounds(s[..|s| - 1]);
    }
  }

  /**
   * For non-negative samples and an `int`-sized array, `tot` never wraps: it
   * is the exact total the mean is computed from.
   */
  lemma TotalIsExactForLatencies(s: seq<int32>)
    requires forall k :: 0 <= k < |s| ==> s[k] >= 0
    requires |s| < 0x8000_0000
    ensures Sum(s) % U64 == Sum(s)
  {
    SumOfLatenciesBounds(s);
    assert |s| * 0x7fff_ffff < U64;
  }
}
