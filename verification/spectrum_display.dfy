/** The desktop spectrum display: HandleFftData trims, normalises and
    rectifies each transform, and prepareVisualization conditions the frame
    (square, high-pass, floored z-score) and runs the analysis stages. The
    display calls a fundamental identifier and smoother of signatures other
    than the analyzer's modelled here, so those two stages are parameters,
    as are the later stages (harmonics, formants, vowels) and Math.Sqrt. */
module SpectrumDisplay {
  import opened Common
  import opened Conditioning
  import Peaks

  /** Bins the display keeps: (int)(MAX_FREQ / deltaFreq + 0.5). */
  const DisplayBins: int := Trunc(MaxFreq as real / FreqPerIndex + 0.5)

  lemma DisplayBinsCount()
    ensures DisplayBins == 4000
  {
  }

  /** HandleFftData: the first DisplayBins values (fewer if the transform is
      shorter), divided by sqrt(FFT_LENGTH), as magnitudes, with bins 0 to
      2 set to 0. A transform of fewer than 3 values makes that last step
      index out of range (None). */
  function TrimmedSpectrum(fftData: seq<real>): (r: Option<seq<real>>)
    ensures r.None? <==> |fftData| < 3
    ensures r.Some? ==> |r.value| == MinI(|fftData|, DisplayBins)
    ensures r.Some? ==> forall i :: 0 <= i < |r.value| ==> r.value[i] >= 0.0
    ensures r.Some? ==> r.value[0] == 0.0 && r.value[1] == 0.0 && r.value[2] == 0.0
    ensures r.Some? ==> forall i :: 3 <= i < |r.value| ==> r.value[i] == Abs(fftData[i]) / RootFftLength
  {
    var taken := fftData[..MinI(|fftData|, DisplayBins)];
    if |taken| < 3 then None
    else Some(seq(|taken|, i requires 0 <= i < |taken| => if i < 3 then 0.0 else Abs(taken[i] / RootFftLength)))
  }

  /** A transform's sign (its phase) does not change what is displayed. */
  lemma PhaseBlind(fftData: seq<real>, negated: seq<real>)
    requires |negated| == |fftData| && forall i :: 0 <= i < |fftData| ==> negated[i] == -fftData[i]
    ensures TrimmedSpectrum(negated) == TrimmedSpectrum(fftData)
  {
    var a := TrimmedSpectrum(fftData);
    var b := TrimmedSpectrum(negated);
    if a.Some? {
      forall i | 3 <= i < |a.value|
        ensures a.value[i] == b.value[i]
      {
        assert negated[i] / RootFftLength == -(fftData[i] / RootFftLength);
      }
      assert a.value == b.value;
    }
  }

  /** Power instead of amplitude: each value squared. */
  function Squares(s: seq<real>): (r: seq<real>)
    ensures |r| == |s|
    ensures forall i :: 0 <= i < |s| ==> r[i] >= 0.0 && r[i] == Times(s[i], s[i])
  {
    seq(|s|, i requires 0 <= i < |s| => Times(s[i], s[i]))
  }

  /** What prepareVisualization leaves for drawing: the conditioned
      spectrum, the top peaks, the smoothed fundamental and, when the later
      stages ran, their result. */
  datatype Visualization<A> = Visualization(spectrum: Frame, topPeaks: Option<seq<Peaks.Peak>>,
                                            fundamental: real, analysis: Option<A>)

  /** prepareVisualization. A null spectrum gives fundamental -1 and null
      peaks. Otherwise a copy is squared, high-passed and z-scored with a
      floor at 0, its top 32 peaks found, the fundamental identified and
      smoothed, and the later stages run only when the smoothed fundamental
      is not -1. A frame of no numbers has no peaks: every comparison with
      NaN fails. An empty spectrum makes the filter's first read index out
      of range (None). */
  method PrepareVisualization<A>(fft: Option<seq<real>>, sqrt: real -> real,
                                 fundamentalOf: seq<Peaks.Peak> -> real, smooth: real -> real,
                                 later: (Frame, real) -> A)
    returns (r: Option<Visualization<A>>, ghost hp: seq<real>)
    ensures fft.None? ==> r == Some(Visualization(Null, None, -1.0, None))
    ensures r.None? <==> fft == Some([])
    ensures r.Some? ==> (r.value.analysis.Some? <==> fft.Some? && r.value.fundamental != -1.0)
    ensures r.Some? && fft.Some? ==>
              HighPassed(Squares(fft.value), hp)
              && r.value.topPeaks.Some?
              && r.value.fundamental == smooth(fundamentalOf(r.value.topPeaks.value))
              && (r.value.spectrum == NotNumbers <==> StdDev(hp, sqrt) == 0.0)
              && (r.value.spectrum == NotNumbers ==> r.value.topPeaks == Some([]))
              && (r.value.spectrum.Values? ==>
                    FlooredZScore(hp, sqrt) == Some(r.value.spectrum.v)
                    && r.value.topPeaks == Peaks.GetTopPeaks(r.value.spectrum.v, 32)
                    && forall i :: 0 <= i < |r.value.spectrum.v| ==> r.value.spectrum.v[i] >= 0.0)
    ensures r.Some? && r.value.analysis.Some? ==>
              r.value.analysis.value == later(r.value.spectrum, r.value.fundamental)
  {
    hp := [];
    if fft.None? {
      return Some(Visualization(Null, None, -1.0, None)), hp;
    }
    var s := fft.value;
    if |s| == 0 {
      return None, hp;
    }
    var filtered := HighPass(Squares(s));
    hp := filtered;
    var z := FlooredZScore(filtered, sqrt);
    var frame := if z.Some? then Values(z.value) else NotNumbers;
    var peaks := if z.Some? then Peaks.GetTopPeaks(z.value, 32) else Some([]);
    var smoothed := smooth(fundamentalOf(peaks.value));
    var analysis := if smoothed != -1.0 then Some(later(frame, smoothed)) else None;
    r := Some(Visualization(frame, peaks, smoothed, analysis));
  }
}
