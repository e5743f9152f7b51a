/**
 * The percentile lines the benchmark prints from the sorted latencies: the
 * indices as the client computes them, and a corrected computation that the
 * report and the summary use.
 */
module BenchReport {
  import opened Wrappers
  import opened BenchStats

  /** The printed percentiles in per-mille, in print order: 0th, 10th … 90th, 95th, 99th, 99.5th, 99.9th, 100th. */
  const PerMille: seq<nat> := [0, 100, 200, 300, 400, 500, 600, 700, 800, 900, 950, 990, 995, 999, 1000]

  /**
   * The indices read from `results` as written: `ten_inc * k` for the deciles,
   * then `95 * hundred_inc`, `99 * hundred_inc`, `995 * thousand_inc`,
   * `999 * thousand_inc` and `length - 1`, each increment truncated by
   * integer division.
   */
  function AsWrittenIndices(length: nat): (r: seq<int>)
    ensures |r| == |PerMille|
    ensures r[0] == 0 && r[|r| - 1] == length - 1
  {
    var tenInc := length / 10;
    var hundredInc := length / 100;
    var thousandInc := length / 1000;
    [0, tenInc * 1, tenInc * 2, tenInc * 3, tenInc * 4, tenInc * 5,
     tenInc * 6, tenInc * 7, tenInc * 8, tenInc * 9,
     95 * hundredInc, 99 * hundredInc, 995 * thousandInc, 999 * thousandInc,
     length - 1]
  }

  /** A product with a factor of at least one is no smaller than the other factor. */
  lemma {:induction false} ProductAtLeast(q: nat, e: nat)
    requires e >= 1
    ensures q * e >= q
    decreases e
  {
    if e > 1 {
      ProductAtLeast(q, e - 1);
      assert q * e == q * (e - 1) + q;
    }
  }

  /** Multiplication distributes over a split of its second factor. */
  lemma SplitProduct(q: nat, k: nat, e: nat)
    ensures q * (k + e) == q * k + q * e
  {
  }

  /** `d` whole steps of `length / d` do not pass `length`. */
  lemma QuotientTimesDivisor(length: nat, d: nat)
    requires d > 0
    ensures (length / d) * d <= length
  {
  }

  /** `k` steps of `length / d`, for `k < d`, stay below `length`. */
  lemma ScaledQuotientBelow(length: nat, d: nat, k: nat)
    requires length >= 1 && 0 < k < d
    ensures 0 <= (length / d) * k < length
  {
    var q := length / d;
    QuotientTimesDivisor(length, d);
    SplitProduct(q, k, d - k);
    if q > 0 {
      ProductAtLeast(q, d - k);
    } else {
      assert q * k == 0;
    }
  }

  /** With at least one sample, every index the report reads lies inside the array. */
  lemma AsWrittenInBounds(length: nat)
    requires length >= 1
    ensures forall k :: 0 <= k < |PerMille| ==> 0 <= AsWrittenIndices(length)[k] < length
  {
    var r := AsWrittenIndices(length);
    forall k | 1 <= k <= 9
      ensures 0 <= (length / 10) * k < length
    {
      ScaledQuotientBelow(length, 10, k);
    }
    ScaledQuotientBelow(length, 100, 95);
    ScaledQuotientBelow(length, 100, 99);
    ScaledQuotientBelow(length, 1000, 995);
    ScaledQuotientBelow(length, 1000, 999);
  }

  /**
   * With no samples (REQUESTS of 0) the report still reads index 0 and index
   * -1 of a zero-length array.
   */
  lemma AsWrittenEmptyOutOfBounds()
    ensures AsWrittenIndices(0)[0] == 0 && AsWrittenIndices(0)[|PerMille| - 1] == -1
  {
  }

  /**
   * With ten samples the 90th percentile reads index 9 but the 95th reads
   * index 0: the printed "95th" is the minimum, below the "90th".
   */
  lemma AsWrittenNotMonotone()
    ensures AsWrittenIndices(10)[9] == 9
    ensures AsWrittenIndices(10)[10] == 0
  {
  }

  /**
   * The index of the `perMille`-th per-mille of `length` sorted samples: the
   * floor of `perMille * length / 1000`, and the last sample for the 100th.
   */
  function PercentileIndex(length: nat, perMille: nat): (i: nat)
    requires length >= 1 && perMille <= 1000
    ensures i < length
    ensures perMille < 1000 ==> i * 1000 <= perMille * length < (i + 1) * 1000
    ensures perMille == 1000 ==> i == length - 1
  {
    if perMille == 1000 then length - 1
    else
      assert perMille * length < 1000 * length by {
        assert (1000 - perMille) * length > 0;
      }
      perMille * length / 1000
  }

  /** A higher percentile never reads an earlier sample. */
  lemma PercentileIndexMonotone(length: nat, p: nat, q: nat)
    requires length >= 1 && p <= q <= 1000
    ensures PercentileIndex(length, p) <= PercentileIndex(length, q)
  {
    if q < 1000 {
      assert (q - p) * length >= 0;
      assert p * length <= q * length;
    }
  }

  /** The printed per-mille levels increase. */
  lemma PerMilleIncreasing()
    ensures forall a, b :: 0 <= a < b < |PerMille| ==> PerMille[a] < PerMille[b]
  {
  }

  /** The corrected indices, in print order. */
  function ReportIndices(length: nat): (r: seq<nat>)
    requires length >= 1
    ensures |r| == |PerMille|
    ensures forall k :: 0 <= k < |r| ==> r[k] < length
    ensures forall a, b :: 0 <= a < b < |r| ==> r[a] <= r[b]
    ensures r[0] == 0 && r[|r| - 1] == length - 1
  {
    PerMilleIncreasing();
    var r := seq(|PerMille|, k requires 0 <= k < |PerMille| => PercentileIndex(length, PerMille[k]));
    assert forall a, b :: 0 <= a < b < |r| ==> r[a] <= r[b] by {
      forall a, b | 0 <= a < b < |r|
        ensures r[a] <= r[b]
      {
        PercentileIndexMonotone(length, PerMille[a], PerMille[b]);
      }
    }
    r
  }

  /**
   * Where the truncated increments are exact (a multiple of 1000 samples) the
   * indices as written are the corrected ones; the defect is the truncation.
   */
  lemma AsWrittenMatchesWhenWhole(length: nat)
    requires length >= 1 && length % 1000 == 0
    ensures AsWrittenIndices(length) == ReportIndices(length)
  {
    var m := length / 1000;
    assert length == 1000 * m;
    assert length / 10 == 100 * m;
    assert length / 100 == 10 * m;
    var w := AsWrittenIndices(length);
    var c := ReportIndices(length);
    forall k | 0 <= k < |PerMille| - 1
      ensures w[k] == c[k]
    {
      var p := PerMille[k];
      assert p * length == (p * m) * 1000;
      assert c[k] == p * m;
    }
  }

  /**
   * The percentile report over the sorted samples: nothing when there are no
   * samples; otherwise the 15 printed values, which are non-decreasing and
   * run from the smallest sample to the largest.
   */
  function Report(results: seq<int32>): (r: Option<seq<int32>>)
    requires Sorted(results)
    ensures r.None? <==> |results| == 0
    ensures r.Some? ==> |r.value| == |PerMille|
    ensures r.Some? ==> Sorted(r.value)
    ensures r.Some? ==> r.value[0] == results[0] && r.value[|PerMille| - 1] == results[|results| - 1]
    ensures r.Some? ==> forall k :: 0 <= k < |PerMille| ==> r.value[k] in results
  {
    if |results| == 0 then None
    else
      var idx := ReportIndices(|results|);
      Some(seq(|PerMille|, k requires 0 <= k < |PerMille| => results[idx[k]]))
  }

  /** The post-processing of a run: the sorted samples, their 64-bit total, and the report. */
  datatype Summary = Summary(results: seq<int32>, tot: nat, report: Option<seq<int32>>)

  /**
   * The end of the client's `main`: flatten the per-thread arrays, sort them,
   * total them and pick the percentiles. The total is that of the samples
   * whatever the order, and the report is present exactly when there was at
   * least one sample.
   */
  method Summarize(saved: seq<seq<int32>>, numRequests: nat) returns (s: Summary)
    requires Uniform(saved, numRequests)
    ensures |s.results| == |saved| * numRequests
    ensures Sorted(s.results)
    ensures multiset(s.results) == multiset(Flatten(saved))
    ensures s.tot == Sum(Flatten(saved)) % U64
    ensures s.report.None? <==> |saved| * numRequests == 0
    ensures s.report.Some? ==> |s.report.value| == |PerMille|
    ensures s.report.Some? ==> s.report.value[0] == s.results[0]
    ensures s.report.Some? ==> s.report.value[|PerMille| - 1] == s.results[|s.results| - 1]
  {
    var flat := FlattenResults(saved, numRequests);
    FlattenLength(saved, numRequests);
    var sorted := SortSamples(flat);
    assert |sorted| == |multiset(sorted)| == |multiset(flat)| == |flat|;
    var tot := Total(sorted);
    SumPermutation(sorted, flat);
    s := Summary(sorted, tot, Report(sorted));
  }
}
