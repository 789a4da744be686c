/** EvaluateHarmonicSeries: the strength of each harmonic of a fundamental
    below MAX_FREQ, read as the largest spectrum value near the harmonic's
    bin. Math.Log is a parameter. */
module Harmonics {
  import opened Common

  /** How many harmonics fit below MAX_FREQ: (int)Math.Floor(4000 / f0). */
  function HarmonicCount(f0: real): int
    requires f0 > 0.0
  {
    (MaxFreq as real / f0).Floor
  }

  /** The bin of harmonic n. */
  function HarmonicBin(f0: real, n: int): real {
    n as real * (f0 / FreqPerIndex)
  }

  /** The tolerance around harmonic n: max(4 ln(f0 bins), bin / 100). */
  function Tolerance(f0: real, n: int, log: real -> real): real {
    MaxR(log(f0 / FreqPerIndex) * 4.0, HarmonicBin(f0, n) / 100.0)
  }

  /** The half-open range of bins searched for harmonic n of a spectrum of
      `len` bins: [max(0, floor(h - tol)), min(len - 1, ceil(h + tol))). */
  function RangeLow(f0: real, n: int, log: real -> real): int {
    MaxI(0, (HarmonicBin(f0, n) - Tolerance(f0, n, log)).Floor)
  }

  function RangeHigh(len: int, f0: real, n: int, log: real -> real): int {
    MinI(len - 1, Ceil(HarmonicBin(f0, n) + Tolerance(f0, n, log)))
  }

  /** Harmonic n's range holds at least one bin (otherwise Range or Max throws). */
  predicate RangeNonEmpty(len: int, f0: real, n: int, log: real -> real) {
    RangeLow(f0, n, log) < RangeHigh(len, f0, n, log)
  }

  /** The strength of harmonic n: the largest value in its range. */
  function HarmonicMax(s: seq<real>, f0: real, n: int, log: real -> real): (m: real)
    requires RangeNonEmpty(|s|, f0, n, log)
    ensures var lo, hi := RangeLow(f0, n, log), RangeHigh(|s|, f0, n, log);
            0 <= lo < hi < |s|
            && (forall k :: lo <= k < hi ==> s[k] <= m)
            && (exists k :: lo <= k < hi && s[k] == m)
  {
    var lo, hi := RangeLow(f0, n, log), RangeHigh(|s|, f0, n, log);
    var m := MaxOf(s[lo..hi]);
    assert forall k :: lo <= k < hi ==> s[k] == s[lo..hi][k - lo];
    m
  }

  /** Harmonics 1..count, in order; None as soon as one range is empty. */
  function Series(s: seq<real>, f0: real, log: real -> real, count: nat): (r: Option<seq<real>>)
    ensures r.Some? <==> forall n :: 1 <= n <= count ==> RangeNonEmpty(|s|, f0, n, log)
    ensures r.Some? ==> |r.value| == count
    ensures r.Some? ==> forall n :: 1 <= n <= count ==> r.value[n - 1] == HarmonicMax(s, f0, n, log)
  {
    if count == 0 then Some([])
    else
      match Series(s, f0, log, count - 1)
      case None => None
      case Some(xs) =>
        if RangeNonEmpty(|s|, f0, count, log) then Some(xs + [HarmonicMax(s, f0, count, log)])
        else None
  }

  /** EvaluateHarmonicSeries. A fundamental that is not positive makes the
      harmonic count negative (or the cast of an infinity), and
      Enumerable.Range throws: None. */
  function EvaluateHarmonicSeries(spectrum: seq<real>, f0: real, log: real -> real): (r: Option<seq<real>>)
    ensures f0 <= 0.0 ==> r.None?
    ensures f0 > 0.0 ==> (r.Some? <==> forall n :: 1 <= n <= HarmonicCount(f0) ==> RangeNonEmpty(|spectrum|, f0, n, log))
    ensures r.Some? ==> f0 > 0.0 && |r.value| == HarmonicCount(f0)
    ensures r.Some? ==> forall n :: 1 <= n <= |r.value| ==> r.value[n - 1] == HarmonicMax(spectrum, f0, n, log)
  {
    if f0 <= 0.0 then None
    else
      var count := HarmonicCount(f0);
      assert count >= 0;
      Series(spectrum, f0, log, count)
  }

  /** Every harmonic below MAX_FREQ lies at most 4000 bins up. */
  lemma HarmonicBelowMaxFreq(f0: real, n: int)
    requires f0 > 0.0 && 1 <= n <= HarmonicCount(f0)
    ensures HarmonicBin(f0, n) <= MaxFreq as real
  {
    assert n as real <= MaxFreq as real / f0;
    MulBelow(n as real, MaxFreq as real / f0, f0);
  }

  lemma MulBelow(a: real, b: real, c: real)
    requires a <= b && c > 0.0
    ensures a * c <= b * c
  {
  }

  /** A positive fundamental's ranges are never empty on a spectrum of at
      least MAX_FREQ bins (the display passes 4000): the tolerance is at
      least 1% of the harmonic's bin, so the range starts below bin 3961. */
  lemma SeriesDefinedOnDisplaySpectrum(spectrum: seq<real>, f0: real, log: real -> real)
    requires f0 > 0.0 && |spectrum| >= MaxFreq
    ensures EvaluateHarmonicSeries(spectrum, f0, log).Some?
  {
    forall n | 1 <= n <= HarmonicCount(f0)
      ensures RangeNonEmpty(|spectrum|, f0, n, log)
    {
      HarmonicBelowMaxFreq(f0, n);
      var h := HarmonicBin(f0, n);
      var tol := Tolerance(f0, n, log);
      assert h > 0.0 by {
        assert n as real >= 1.0;
        MulBelow(1.0, n as real, f0);
      }
      assert tol >= h / 100.0;
      assert h - tol <= 3960.0;
      assert h + tol > 0.0;
    }
  }
}
