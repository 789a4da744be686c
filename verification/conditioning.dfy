/** The spectral conditioning both displays apply before analysis: a
    one-pole high-pass filter over the bins and a z-score, with or without
    a floor at 0. Math.Sqrt is a parameter. A z-score by a standard
    deviation of 0 divides by zero and yields no numbers (NaN and the
    infinities); the model reports that frame as None. */
module Conditioning {
  import opened Common

  /** A spectrum frame as the displays hold it: a null reference, a frame
      z-scored by a deviation of 0 (no numbers), or numbers. */
  datatype Frame = Null | NotNumbers | Values(v: seq<real>)

  /** sqrt(FFT_LENGTH), the normalisation divisor: 210 exactly. */
  const RootFftLength: real := 210.0

  lemma RootOfFftLength()
    ensures RootFftLength * RootFftLength == FftLength as real
  {
  }

  /** The high-pass coefficient (0.96f). */
  const Alpha: real := 0.96

  /** The filter's recurrence: out[0] = in[0] and
      out[i] = 0.96 (out[i - 1] + in[i] - in[i - 1]). */
  ghost predicate HighPassed(s: seq<real>, r: seq<real>) {
    |r| == |s| && (|s| > 0 ==> r[0] == s[0])
    && forall i :: 1 <= i < |s| ==> r[i] == Alpha * (r[i - 1] + s[i] - s[i - 1])
  }

  /** The filter loop of both displays: it keeps the last input and output
      while it overwrites the bins in place. */
  method HighPass(s: seq<real>) returns (r: seq<real>)
    ensures HighPassed(s, r)
  {
    if |s| == 0 {
      return [];
    }
    var lastIn := s[0];
    var lastOut := lastIn;
    r := [s[0]];
    var i := 1;
    while i < |s|
      invariant 1 <= i <= |s| && |r| == i && r[0] == s[0]
      invariant lastIn == s[i - 1] && lastOut == r[i - 1]
      invariant forall k :: 1 <= k < i ==> r[k] == Alpha * (r[k - 1] + s[k] - s[k - 1])
    {
      var inValue := s[i];
      var outValue := Alpha * (lastOut + inValue - lastIn);
      lastIn := inValue;
      lastOut := outValue;
      r := r + [outValue];
      i := i + 1;
    }
  }

  /** The recurrence fixes the output: the filter is a function of its input. */
  lemma {:induction false} HighPassedUnique(s: seq<real>, r1: seq<real>, r2: seq<real>)
    requires HighPassed(s, r1) && HighPassed(s, r2)
    ensures r1 == r2
  {
    if |s| > 0 {
      var n := |s|;
      forall i | 0 <= i < n
        ensures r1[i] == r2[i]
      {
        SameUpTo(s, r1, r2, i);
      }
    }
  }

  lemma {:induction false} SameUpTo(s: seq<real>, r1: seq<real>, r2: seq<real>, i: nat)
    requires HighPassed(s, r1) && HighPassed(s, r2) && i < |s|
    ensures r1[i] == r2[i]
  {
    if i > 0 {
      SameUpTo(s, r1, r2, i - 1);
    }
  }

  /** 0.96^i. */
  function Decay(i: nat): real {
    if i == 0 then 1.0 else Alpha * Decay(i - 1)
  }

  /** A constant input (a pure DC level c) decays geometrically: bin i of
      the output is 0.96^i c. */
  lemma {:induction false} DcDecays(s: seq<real>, r: seq<real>, c: real, i: nat)
    requires HighPassed(s, r) && i < |s|
    requires forall k :: 0 <= k < |s| ==> s[k] == c
    ensures r[i] == Decay(i) * c
  {
    if i > 0 {
      DcDecays(s, r, c, i - 1);
    }
  }

  /** Bins that start at 0 stay 0 through the filter. */
  lemma {:induction false} ZeroPrefixStays(s: seq<real>, r: seq<real>, n: nat, i: nat)
    requires HighPassed(s, r) && i < n <= |s|
    requires forall k :: 0 <= k < n ==> s[k] == 0.0
    ensures r[i] == 0.0
  {
    if i > 0 {
      ZeroPrefixStays(s, r, n, i - 1);
    }
  }

  // ---------------------------------------------------------------------
  // Z-scores

  /** The squared deviations from `avg`. */
  function SquaredDeviations(s: seq<real>, avg: real): (d: seq<real>)
    ensures |d| == |s|
  {
    seq(|s|, i requires 0 <= i < |s| => Times(s[i] - avg, s[i] - avg))
  }

  /** The population standard deviation: sqrt of the mean squared deviation. */
  function StdDev(s: seq<real>, sqrt: real -> real): real
    requires |s| > 0
  {
    sqrt(Mean(SquaredDeviations(s, Mean(s))))
  }

  /** (s[i] - avg) / sd for each bin. */
  function Standardize(s: seq<real>, avg: real, sd: real): (z: seq<real>)
    requires sd != 0.0
    ensures |z| == |s|
  {
    seq(|s|, i requires 0 <= i < |s| => (s[i] - avg) / sd)
  }

  /** The z-score of a frame; None for a deviation of 0. The frame must
      not be empty (Average() throws). */
  function ZScore(s: seq<real>, sqrt: real -> real): (r: Option<seq<real>>)
    requires |s| > 0
    ensures r.None? <==> StdDev(s, sqrt) == 0.0
    ensures r.Some? ==> |r.value| == |s|
    ensures r.Some? ==> forall i :: 0 <= i < |s| ==>
              Mean(s) + Times(StdDev(s, sqrt), r.value[i]) == s[i]
  {
    var sd := StdDev(s, sqrt);
    if sd == 0.0 then None
    else
      var z := Standardize(s, Mean(s), sd);
      assert forall i :: 0 <= i < |s| ==> Times(sd, z[i]) == s[i] - Mean(s);
      Some(z)
  }

  /** The z-score with negative values put at 0 (Math.Max(z, 0)). */
  function FlooredZScore(s: seq<real>, sqrt: real -> real): (r: Option<seq<real>>)
    requires |s| > 0
    ensures r.None? <==> StdDev(s, sqrt) == 0.0
    ensures r.Some? ==> |r.value| == |s| && forall i :: 0 <= i < |s| ==> r.value[i] >= 0.0
  {
    var sd := StdDev(s, sqrt);
    if sd == 0.0 then None
    else
      var z := Standardize(s, Mean(s), sd);
      Some(seq(|s|, i requires 0 <= i < |s| => MaxR(z[i], 0.0)))
  }

  /** The floored z-score clips the plain one at 0; with a positive
      deviation a bin stays above 0 exactly when it lies above the mean. */
  lemma FlooredClips(s: seq<real>, sqrt: real -> real)
    requires |s| > 0
    ensures var z := ZScore(s, sqrt);
            var f := FlooredZScore(s, sqrt);
            z.Some? <==> f.Some?
    ensures var z := ZScore(s, sqrt);
            var f := FlooredZScore(s, sqrt);
            z.Some? ==> forall i :: 0 <= i < |s| ==> f.value[i] == MaxR(z.value[i], 0.0)
    ensures var f := FlooredZScore(s, sqrt);
            f.Some? && StdDev(s, sqrt) > 0.0 ==>
              forall i :: 0 <= i < |s| ==> (f.value[i] > 0.0 <==> s[i] > Mean(s))
  {
    var sd := StdDev(s, sqrt);
    if sd > 0.0 {
      forall i | 0 <= i < |s|
        ensures (s[i] - Mean(s)) / sd > 0.0 <==> s[i] > Mean(s)
      {
        QuotientSign(s[i] - Mean(s), sd);
      }
    }
  }

  lemma QuotientSign(a: real, d: real)
    requires d > 0.0
    ensures a / d > 0.0 <==> a > 0.0
  {
    if a > 0.0 {
      assert a / d > 0.0;
    } else {
      assert a / d <= 0.0;
    }
  }

  /** The z-scored frame sums to 0. */
  lemma ZScoreSumsToZero(s: seq<real>, sqrt: real -> real)
    requires |s| > 0
    ensures var z := ZScore(s, sqrt);
            z.Some? ==> Sum(z.value) == 0.0
  {
    var sd := StdDev(s, sqrt);
    if sd != 0.0 {
      var m := Mean(s);
      StandardizeSum(s, m, sd);
      assert Times(|s| as real, m) == Sum(s);
    }
  }

  /** Sum((s[i] - m) / d) = (Sum(s) - |s| m) / d. */
  lemma {:induction false} StandardizeSum(s: seq<real>, m: real, d: real)
    requires d != 0.0
    ensures Sum(Standardize(s, m, d)) == (Sum(s) - Times(|s| as real, m)) / d
  {
    var z := Standardize(s, m, d);
    if |s| > 0 {
      var n := |s|;
      var s' := s[..n - 1];
      assert z[..n - 1] == Standardize(s', m, d);
      StandardizeSum(s', m, d);
      assert Times(n as real, m) == Times((n - 1) as real, m) + m;
      assert (Sum(s') - Times((n - 1) as real, m)) / d + (s[n - 1] - m) / d
          == (Sum(s') + s[n - 1] - Times(n as real, m)) / d;
    }
  }
}
