/**
 * `Histogram<N>` (src/stats.rs): a fixed number of bins over `[0, 1]`, a
 * count of the observations and their sum. The class mutates its `bins`
 * array, `count` and `sum` in place; `HistogramValue` and `Observe` are
 * the value it stands for and what one `update` does to that value.
 * Floating point is modelled by `real`, the `u32`/`u64` counters by `nat`.
 */
module Histograms {
  import opened Wrappers

  /** What a histogram holds. */
  datatype HistogramValue = HistogramValue(bins: seq<nat>, count: nat, sum: real)

  /** `Histogram::default`: `n` empty bins, no observations. */
  function EmptyHistogram(n: nat): (h: HistogramValue)
    ensures |h.bins| == n && h.count == 0 && h.sum == 0.0
    ensures forall i :: 0 <= i < n ==> h.bins[i] == 0
  {
    HistogramValue(seq(n, _ => 0), 0, 0.0)
  }

  /** `f64::clamp(0.0, 1.0)` (NaN is not modelled). */
  function Clamp(v: real): (c: real)
    ensures 0.0 <= c <= 1.0
    ensures 0.0 <= v <= 1.0 ==> c == v
    ensures v < 0.0 ==> c == 0.0
    ensures 1.0 < v ==> c == 1.0
  {
    if v < 0.0 then 0.0 else if v > 1.0 then 1.0 else v
  }

  /**
   * The bin `update` increments: `(clamp(v) * N) as usize`, capped at `N - 1`.
   * The cast truncates, which for the non-negative product is the floor.
   */
  function BinIndex(v: real, n: nat): (idx: nat)
    requires n > 0
    ensures idx < n
  {
    var scaled := (Clamp(v) * n as real).Floor;
    if scaled < n - 1 then scaled else n - 1
  }

  /**
   * Bin `k` of `n` takes exactly the values whose clamped, scaled value lies
   * in `[k, k + 1)`; the last bin also takes `1.0` and everything above it.
   */
  lemma BinIndexSpec(v: real, n: nat, k: nat)
    requires k < n
    ensures BinIndex(v, n) == k <==>
      (k as real) <= Clamp(v) * n as real && (Clamp(v) * n as real < (k + 1) as real || k == n - 1)
  {
    BinIndexIn(v, n);
  }

  lemma BinIndexIn(v: real, n: nat)
    requires n > 0
    ensures var x := Clamp(v) * n as real;
      var k := BinIndex(v, n);
      (k as real) <= x && (x < (k + 1) as real || k == n - 1)
  {
    var x := Clamp(v) * n as real;
    assert (x.Floor as real) <= x < (x.Floor + 1) as real;
  }

  /** Larger values never land in a lower bin. */
  lemma BinIndexMonotone(v: real, w: real, n: nat)
    requires n > 0 && v <= w
    ensures BinIndex(v, n) <= BinIndex(w, n)
  {
    var x, y := Clamp(v) * n as real, Clamp(w) * n as real;
    assert Clamp(v) <= Clamp(w);
    assert x <= y;
    assert (x.Floor as real) <= x && y < (y.Floor + 1) as real;
  }

  /**
   * `Histogram::update`: one more observation, in one of the same number of
   * bins, counted and summed unclamped.
   */
  function Observe(h: HistogramValue, v: real): (h': HistogramValue)
    requires |h.bins| > 0
    ensures |h'.bins| == |h.bins| && h'.count == h.count + 1 && h'.sum == h.sum + v
  {
    var idx := BinIndex(v, |h.bins|);
    HistogramValue(h.bins[idx := h.bins[idx] + 1], h.count + 1, h.sum + v)
  }

  /** The total of the bins. */
  function Sum(s: seq<nat>): nat {
    if s == [] then 0 else s[0] + Sum(s[1..])
  }

  /** The bins account for every observation. */
  predicate Balanced(h: HistogramValue) {
    Sum(h.bins) == h.count
  }

  lemma {:induction false} SumBump(s: seq<nat>, i: nat)
    requires i < |s|
    ensures Sum(s[i := s[i] + 1]) == Sum(s) + 1
  {
    if i == 0 {
      assert s[i := s[i] + 1][1..] == s[1..];
    } else {
      assert s[i := s[i] + 1][1..] == s[1..][i - 1 := s[i] + 1];
      SumBump(s[1..], i - 1);
    }
  }

  lemma {:induction false} SumZeros(n: nat)
    ensures Sum(seq(n, _ => 0)) == 0
  {
    if n > 0 {
      assert seq(n, _ => 0)[1..] == seq(n - 1, _ => 0);
      SumZeros(n - 1);
    }
  }

  lemma EmptyIsBalanced(n: nat)
    ensures Balanced(EmptyHistogram(n))
  {
    SumZeros(n);
  }

  /**
   * One observation adds 1 to exactly one bin, the one `BinIndex` picks, and
   * keeps the bins summing to the count.
   */
  lemma ObserveSpec(h: HistogramValue, v: real)
    requires |h.bins| > 0
    ensures var h' := Observe(h, v);
      && |h'.bins| == |h.bins|
      && (forall i :: 0 <= i < |h.bins| ==>
            h'.bins[i] == h.bins[i] + (if i == BinIndex(v, |h.bins|) then 1 else 0))
      && h'.count == h.count + 1 && h'.sum == h.sum + v
      && (Balanced(h) ==> Balanced(h'))
  {
    SumBump(h.bins, BinIndex(v, |h.bins|));
  }

  /** The order of observations does not matter. */
  lemma ObserveCommutes(h: HistogramValue, v: real, w: real)
    requires |h.bins| > 0
    ensures Observe(Observe(h, v), w) == Observe(Observe(h, w), v)
  {
    var i, j := BinIndex(v, |h.bins|), BinIndex(w, |h.bins|);
    assert Observe(Observe(h, v), w).bins == Observe(Observe(h, w), v).bins by {
      if i == j {
      } else {
        assert h.bins[i := h.bins[i] + 1][j := h.bins[j] + 1] == h.bins[j := h.bins[j] + 1][i := h.bins[i] + 1];
      }
    }
  }

  class Histogram {
    const bins: array<nat>
    var count: nat
    var sum: real

    function Value(): HistogramValue
      reads this, bins
    {
      HistogramValue(bins[..], count, sum)
    }

    /** `Histogram::<N>::default()`. */
    constructor(n: nat)
      ensures Value() == EmptyHistogram(n)
      ensures fresh(bins)
    {
      bins := new nat[n](_ => 0);
      count := 0;
      sum := 0.0;
    }

    /** `Histogram::update`. */
    method Update(value: real)
      requires bins.Length > 0
      modifies this, bins
      ensures Value() == Observe(old(Value()), value)
    {
      var idx := (Clamp(value) * bins.Length as real).Floor;
      if idx > bins.Length - 1 {
        idx := bins.Length - 1;
      }
      assert idx == BinIndex(value, bins.Length);
      bins[idx] := bins[idx] + 1;
      count := count + 1;
      sum := sum + value;
    }

    /**
     * `Histogram::mean`: `sum / count`; with no observations it is `0.0 / 0.0`,
     * which is NaN, modelled as no value.
     */
    function Mean(): (r: Option<real>)
      reads this
      ensures r.Some? <==> count > 0
      ensures r.Some? ==> r.value * count as real == sum
    {
      if count == 0 then None else Some(sum / count as real)
    }
  }
}
