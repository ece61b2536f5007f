/** The nearest-rank percentile of the latency report (src/main.rs). */
module Percentile {
  import opened Base
  import opened Leases

  const USIZE_MAX: nat := U64_MAX

  predicate Sorted(samples: seq<Duration>) {
    forall i, j | 0 <= i <= j < |samples| :: samples[i] <= samples[j]
  }

  /** `usize::saturating_mul`. */
  function SaturatingMul(a: nat, b: nat): nat {
    if a * b > USIZE_MAX then USIZE_MAX else a * b
  }

  /** `usize::div_ceil`. */
  function DivCeil(a: nat, b: nat): nat
    requires b > 0
  {
    if a % b == 0 then a / b else a / b + 1
  }

  function Rank(n: nat, percentile: nat): nat {
    DivCeil(SaturatingMul(n, percentile), 100)
  }

  /** `percentile`; the code stops on no samples and on more than 100 percent. The index is in range
      even when the product saturates. */
  function Percentile(sorted: seq<Duration>, percentile: nat): (v: Duration)
    requires 0 < |sorted| <= USIZE_MAX && percentile <= 100
    ensures v in sorted
  {
    RankInRange(|sorted|, percentile);
    var rank := Rank(|sorted|, percentile);
    sorted[if rank == 0 then 0 else rank - 1]
  }

  lemma RankInRange(n: nat, percentile: nat)
    requires 0 < n <= 18_446_744_073_709_551_615 && percentile <= 100
    ensures Rank(n, percentile) <= n
  {
    var product := n * percentile;
    assert product <= 100 * n by {
      ProductGrows(n, percentile, 100);
    }
    assert SaturatingMul(n, percentile) <= product;
    DivCeilBound(SaturatingMul(n, percentile), n);
  }

  lemma ProductGrows(n: nat, a: nat, b: nat)
    requires a <= b
    ensures n * a <= b * n
  {
    assert n * (b - a) >= 0;
  }

  lemma DivCeilBound(a: nat, n: nat)
    requires a <= 100 * n
    ensures DivCeil(a, 100) <= n
  {
  }

  // ---------- What a percentile is ----------

  function CountAtMost(samples: seq<Duration>, v: Duration): nat {
    if samples == [] then 0
    else
      var n := |samples| - 1;
      CountAtMost(samples[..n], v) + if samples[n] <= v then 1 else 0
  }

  /** At least `percentile` percent of the samples are at or below `v`. */
  predicate Covers(samples: seq<Duration>, percentile: nat, v: Duration) {
    100 * CountAtMost(samples, v) >= percentile * |samples|
  }

  /** `v` is the least sample that covers the percentage. */
  predicate IsNearestRank(samples: seq<Duration>, percentile: nat, v: Duration) {
    && v in samples && Covers(samples, percentile, v)
    && forall w | w in samples && w < v :: !Covers(samples, percentile, w)
  }

  lemma {:induction false} CountBounds(samples: seq<Duration>, v: Duration, k: nat)
    requires k <= |samples|
    ensures (forall i | 0 <= i < k :: samples[i] <= v) ==> CountAtMost(samples, v) >= k
    ensures (forall i | k <= i < |samples| :: v < samples[i]) ==> CountAtMost(samples, v) <= k
  {
    if samples != [] {
      var n := |samples| - 1;
      CountBounds(samples[..n], v, if k <= n then k else n);
    }
  }

  /** The largest product of samples and percentage for which the result is right. */
  const LARGEST_PRODUCT: nat := 100 * 184_467_440_737_095_517

  /** Saturation changes the rank exactly above that product. */
  lemma RankIsExact(n: nat, percentile: nat)
    ensures n * percentile <= LARGEST_PRODUCT ==>
              100 * Rank(n, percentile) >= n * percentile > 100 * (Rank(n, percentile) - 1)
    ensures n * percentile > LARGEST_PRODUCT ==> 100 * Rank(n, percentile) < n * percentile
  {
  }

  lemma SampleAtRank(sorted: seq<Duration>, percentile: nat)
    requires 0 < |sorted| <= USIZE_MAX && percentile <= 100 && Sorted(sorted)
    requires |sorted| * percentile <= LARGEST_PRODUCT
    ensures IsNearestRank(sorted, percentile, Percentile(sorted, percentile))
  {
    var n, rank := |sorted|, Rank(|sorted|, percentile);
    RankInRange(n, percentile);
    RankIsExact(n, percentile);
    var index := if rank == 0 then 0 else rank - 1;
    var v := sorted[index];
    CountBounds(sorted, v, index + 1);
    forall w | w in sorted && w < v
      ensures !Covers(sorted, percentile, w)
    {
      CountBounds(sorted, w, index);
    }
  }

  /** `0, 1, …, n - 1`. */
  function Ramp(n: nat): seq<Duration> {
    seq(n, i => i)
  }

  /** The function returns the nearest-rank percentile of every sorted list of `n` samples exactly
      when `n * percentile` is at most `LARGEST_PRODUCT`. */
  lemma PercentileCorrectExactly(n: nat, percentile: nat)
    requires 0 < n <= 18_446_744_073_709_551_615 && percentile <= 100
    ensures (forall s: seq<Duration> | |s| == n && Sorted(s) :: IsNearestRank(s, percentile, Percentile(s, percentile)))
            <==> n * percentile <= 100 * 184_467_440_737_095_517
  {
    if n * percentile <= LARGEST_PRODUCT {
      forall s: seq<Duration> | |s| == n && Sorted(s)
        ensures IsNearestRank(s, percentile, Percentile(s, percentile))
      {
        SampleAtRank(s, percentile);
      }
    } else {
      var s := Ramp(n);
      var rank := Rank(n, percentile);
      RankInRange(n, percentile);
      RankIsExact(n, percentile);
      CountBounds(s, Percentile(s, percentile), rank);
      assert !IsNearestRank(s, percentile, Percentile(s, percentile));
    }
  }
}
