/** The formant stage of the older analyzer (AccentTutor's SpectrumAnalyzer):
    IdentifyApparentFormants finds the same peaks of the harmonic series as
    the current one, but reports each formant as a harmonic INDEX (counted
    from 0) and was written to merge runs of consecutive peaks into one
    formant. Peaks are never adjacent, so no run ever forms: each peak gives
    its own formant. */
module LegacyFormants {
  import opened Common
  import opened Vowels
  import opened Formants

  /** The older merge test of two neighbouring values: |a - b| / max(a, b)
      below 0.2. A zero maximum divides to an infinity or NaN, which never
      compares below 0.2. */
  predicate Similar(a: real, b: real) {
    MaxR(a, b) != 0.0 && Abs(a - b) / MaxR(a, b) < 0.2
  }

  /** The value before peak p joins its formant. */
  predicate BeforeJoins(v: seq<real>, p: int)
    requires 0 <= p < |v|
  {
    p - 1 >= 0 && Similar(v[p - 1], v[p])
  }

  /** The value after peak p joins its formant. */
  predicate AfterJoins(v: seq<real>, p: int)
    requires 0 <= p < |v|
  {
    p + 1 < |v| && Similar(v[p + 1], v[p])
  }

  /** The summed strength of peak p's formant. */
  function JoinedStrength(v: seq<real>, p: int): real
    requires 0 <= p < |v|
  {
    v[p] + (if BeforeJoins(v, p) then v[p - 1] else 0.0)
         + (if AfterJoins(v, p) then v[p + 1] else 0.0)
  }

  /** The strength-weighted sum of the indices of peak p's formant. */
  function WeightedIndex(v: seq<real>, p: int): real
    requires 0 <= p < |v|
  {
    Times(p as real, v[p])
    + (if BeforeJoins(v, p) then Times((p - 1) as real, v[p - 1]) else 0.0)
    + (if AfterJoins(v, p) then Times((p + 1) as real, v[p + 1]) else 0.0)
  }

  /** The formant of a single peak p: the strength-weighted mean index of
      the peak and the neighbours similar to it, with the peak's own value
      (the largest of the run, never below the 0 it starts from). */
  function LegacyFormant(v: seq<real>, p: int): (f: Formant)
    requires NonNegative(v) && IsPeak(v, p)
    ensures f.value == v[p] > 0.0
    ensures p as real - 1.0 < f.freq < p as real + 1.0
    ensures !BeforeJoins(v, p) && !AfterJoins(v, p) ==> f.freq == p as real
  {
    assert v[p] > 0.0 by {
      if p == 0 { assert v[1] < v[0]; } else { assert v[p - 1] < v[p]; }
    }
    var wb := if BeforeJoins(v, p) then v[p - 1] else 0.0;
    var wc := if AfterJoins(v, p) then v[p + 1] else 0.0;
    assert WeightedIndex(v, p)
        == Times(p as real, v[p]) + Times((p - 1) as real, wb) + Times((p + 1) as real, wc);
    StrictMean(p as real, v[p], (p - 1) as real, wb, (p + 1) as real, wc, p as real - 1.0, p as real + 1.0);
    Formant(WeightedIndex(v, p) / JoinedStrength(v, p), MaxR(0.0, v[p]))
  }

  /** A weighted mean in which a point strictly inside (lo, hi) has positive
      weight lies strictly inside (lo, hi); it is that point when the other
      weights are 0. */
  lemma StrictMean(a: real, wa: real, b: real, wb: real, c: real, wc: real, lo: real, hi: real)
    requires wa > 0.0 && wb >= 0.0 && wc >= 0.0
    requires lo < a < hi && lo <= b <= hi && lo <= c <= hi
    ensures lo < (Times(a, wa) + Times(b, wb) + Times(c, wc)) / (wa + wb + wc) < hi
    ensures wb == 0.0 && wc == 0.0 ==> (Times(a, wa) + Times(b, wb) + Times(c, wc)) / (wa + wb + wc) == a
  {
    var s := wa + wb + wc;
    var w := Times(a, wa) + Times(b, wb) + Times(c, wc);
    MulStrict(lo, a, hi, wa);
    MulBetween(lo, b, hi, wb);
    MulBetween(lo, c, hi, wc);
    Distributes(lo, wa, wb, wc);
    Distributes(hi, wa, wb, wc);
    DivStrict(lo, w, hi, s);
    if wb == 0.0 && wc == 0.0 {
      assert w == Times(a, wa);
    }
  }

  lemma MulStrict(lo: real, a: real, hi: real, w: real)
    requires lo < a < hi && w > 0.0
    ensures Times(lo, w) < Times(a, w) < Times(hi, w)
  {
  }

  lemma DivStrict(lo: real, w: real, hi: real, s: real)
    requires s > 0.0 && Times(lo, s) < w < Times(hi, s)
    ensures lo < w / s < hi
  {
    assert w / s - lo == (w - Times(lo, s)) / s;
    assert hi - w / s == (Times(hi, s) - w) / s;
  }

  /** The run test of the loop never fails: the next peak index is never
      the one right after the current one, so consecutivePeakCount stays 0
      and its merge branch is never taken. */
  lemma RunAlwaysEnds(v: seq<real>, peaks: seq<int>, i: nat)
    requires forall j :: j in peaks <==> IsPeak(v, j)
    requires i < |peaks|
    ensures i + 1 == |peaks| || peaks[i + 1] != peaks[i] + 1
  {
    if i + 1 < |peaks| {
      assert peaks[i] in peaks && peaks[i + 1] in peaks;
      if peaks[i + 1] == peaks[i] + 1 {
        PeaksApart(v, peaks[i]);
      }
    }
  }

  /** Peak indices in increasing order are at least two apart. */
  lemma {:induction false} PeaksTwoApart(v: seq<real>, peaks: seq<int>)
    requires forall j :: j in peaks <==> IsPeak(v, j)
    requires StrictlyIncreasing(peaks)
    ensures forall k :: 0 <= k < |peaks| - 1 ==> peaks[k] + 2 <= peaks[k + 1]
  {
    forall k | 0 <= k < |peaks| - 1
      ensures peaks[k] + 2 <= peaks[k + 1]
    {
      RunAlwaysEnds(v, peaks, k);
    }
  }

  /** IdentifyApparentFormants of the older analyzer: one formant per peak,
      in the order of the peaks (`at` lists the peak indices). A null series
      gives no formants. The threshold argument is not used: the merge test
      is fixed at 0.2. */
  method IdentifyApparentFormants(values: Option<seq<real>>, sameFormantDifference: real)
    returns (formants: seq<Formant>, ghost at: seq<int>)
    requires values.Some? ==> NonNegative(values.value)
    ensures values.None? ==> formants == []
    ensures |at| == |formants| && StrictlyIncreasing(at)
    ensures values.Some? ==> forall j :: j in at <==> IsPeak(values.value, j)
    ensures values.Some? ==> forall k :: 0 <= k < |at| ==>
              IsPeak(values.value, at[k]) && formants[k] == LegacyFormant(values.value, at[k])
    ensures forall a, b :: 0 <= a < b < |formants| ==> formants[a].freq < formants[b].freq
  {
    var peaks := FindPeaks(values);
    formants := [];
    at := [];
    if values.Some? {
      var v := values.value;
      PeaksTwoApart(v, peaks);
      var i := 0;
      while i < |peaks|
        invariant 0 <= i <= |peaks| && at == peaks[..i] && |formants| == i
        invariant forall k :: 0 <= k < i ==> IsPeak(v, at[k]) && formants[k] == LegacyFormant(v, at[k])
        invariant forall k :: 0 <= k < i ==> formants[k].freq < at[k] as real + 1.0
        invariant forall a, b :: 0 <= a < b < i ==> formants[a].freq < formants[b].freq
      {
        var p := peaks[i];
        assert p in peaks;
        RunAlwaysEnds(v, peaks, i);
        var f := LegacyFormant(v, p);
        if i > 0 {
          assert peaks[i - 1] + 2 <= p;
        }
        formants := formants + [f];
        at := at + [p];
        i := i + 1;
      }
      assert at == peaks;
    }
  }
}
