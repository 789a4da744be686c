/** The fundamental-frequency estimate of the current analyzer: a harmonic
    product spectrum (HPS) over 26 harmonics, searched for its first
    largest value from 70 Hz up. Math.Log10 is a parameter. */
module Fundamental {
  import opened Common

  /** The floor that keeps a silent bin from zeroing a product. */
  const MinValue: real := 0.0001

  /** The highest harmonic the product runs over. */
  const LastHarmonic: int := 26

  /** The first bin the search considers, (int)(70 / freqPerIndex): the bin
      of 70 Hz. */
  const LowestBin: int := 70

  lemma LowestBinOf70Hz()
    ensures LowestBin == Trunc(70.0 / FreqPerIndex)
  {
  }

  /** How far either side of bin i * h the peak of harmonic h is looked for:
      (int)max(1.5 log10 i, i h / 100). */
  function PlusMinus(log10: real -> real, i: nat, h: nat): (pm: int)
    ensures pm >= 0
  {
    var x := MaxR(log10(i as real) * 1.5, (i * h) as real / 100.0);
    assert x >= (i * h) as real / 100.0 >= 0.0;
    Trunc(x)
  }

  /** The largest of spectrum[lo..hi) and 0 (the scan starts from 0). */
  function WindowMax(s: seq<real>, lo: int, hi: int): (m: real)
    requires 0 <= lo && hi <= |s|
    ensures m >= 0.0
    ensures forall k :: lo <= k < hi ==> s[k] <= m
    ensures m == 0.0 || exists k :: lo <= k < hi && s[k] == m
    decreases hi - lo
  {
    if hi <= lo then 0.0 else MaxR(WindowMax(s, lo, hi - 1), s[hi - 1])
  }

  /** The bins searched for harmonic h of bin i. */
  function WindowLow(log10: real -> real, i: nat, h: nat): int {
    MaxI(0, i * h - PlusMinus(log10, i, h))
  }

  function WindowHigh(s: seq<real>, log10: real -> real, i: nat, h: nat): int {
    MinI(i * h + PlusMinus(log10, i, h) + 1, |s|)
  }

  /** The factor harmonic h contributes to bin i: the floor when bin i * h
      is past the spectrum, else max(floor, m * i / h) for the window's
      largest value m. */
  function Factor(s: seq<real>, log10: real -> real, i: nat, h: nat): (f: real)
    requires h > 0
    ensures f >= MinValue
  {
    if i * h >= |s| then MinValue
    else MaxR(MinValue, Scaled(WindowMax(s, WindowLow(log10, i, h), WindowHigh(s, log10, i, h)), i, h))
  }

  /** m * i / h, as the program weights a harmonic's peak. */
  function Scaled(m: real, i: nat, h: nat): real
    requires h > 0
  {
    m * i as real / h as real
  }

  /** The product for bin i over harmonics 1..h: the bin's own (floored)
      value times i, then one factor per further harmonic. */
  function Hps(s: seq<real>, log10: real -> real, i: nat, h: nat): real
    requires i < |s| && h >= 1
  {
    if h == 1 then Times(MaxR(MinValue, s[i]), i as real)
    else Times(Hps(s, log10, i, h - 1), Factor(s, log10, i, h))
  }

  /** The harmonic product spectrum. */
  function HpsSpectrum(s: seq<real>, log10: real -> real): (hps: seq<real>)
    ensures |hps| == |s|
  {
    seq(|s|, i requires 0 <= i < |s| => Hps(s, log10, i, LastHarmonic))
  }

  /** Every bin above 0 gets a positive product; bin 0 gets 0. */
  lemma {:induction false} HpsPositive(s: seq<real>, log10: real -> real, i: nat, h: nat)
    requires i < |s| && h >= 1
    ensures i >= 1 ==> Hps(s, log10, i, h) > 0.0
    ensures i == 0 ==> Hps(s, log10, i, h) == 0.0
  {
    if h == 1 {
      Sign(MaxR(MinValue, s[i]), i as real);
    } else {
      HpsPositive(s, log10, i, h - 1);
      Sign(Hps(s, log10, i, h - 1), Factor(s, log10, i, h));
    }
  }

  lemma Sign(a: real, b: real)
    ensures a > 0.0 && b > 0.0 ==> Times(a, b) > 0.0
    ensures a == 0.0 || b == 0.0 ==> Times(a, b) == 0.0
  {
  }

  /** i is where the search settles: the first bin from LowestBin on that
      holds the largest product. */
  ghost predicate FirstBest(hps: seq<real>, i: int) {
    LowestBin <= i < |hps|
    && (forall k :: LowestBin <= k < |hps| ==> hps[k] <= hps[i])
    && (forall k :: LowestBin <= k < i ==> hps[k] < hps[i])
  }

  /** Harmonic h's window maximum, by the program's scan over j. */
  method ScanWindow(s: seq<real>, log10: real -> real, i: nat, h: nat) returns (m: real)
    requires i * h < |s|
    ensures m == WindowMax(s, WindowLow(log10, i, h), WindowHigh(s, log10, i, h))
  {
    var pm := PlusMinus(log10, i, h);
    var lo := WindowLow(log10, i, h);
    m := 0.0;
    var j := lo;
    while j <= i * h + pm && j < |s|
      invariant lo <= j <= WindowHigh(s, log10, i, h)
      invariant m == WindowMax(s, lo, j)
    {
      m := MaxR(m, s[j]);
      j := j + 1;
    }
  }

  /** The program's two nested passes: every bin's own value times its
      index, then harmonic by harmonic, bin by bin, one factor each. */
  method HarmonicProductSpectrum(s: seq<real>, log10: real -> real) returns (hps: seq<real>)
    ensures hps == HpsSpectrum(s, log10)
  {
    hps := [];
    for i := 0 to |s|
      invariant |hps| == i
      invariant forall k :: 0 <= k < i ==> hps[k] == Hps(s, log10, k, 1)
    {
      hps := hps + [Times(MaxR(MinValue, s[i]), i as real)];
    }
    for h := 2 to LastHarmonic + 1
      invariant |hps| == |s|
      invariant forall k :: 0 <= k < |s| ==> hps[k] == Hps(s, log10, k, h - 1)
    {
      hps := MultiplyHarmonic(s, log10, hps, h);
    }
  }

  /** One pass of the outer loop: every bin times its factor for harmonic h. */
  method MultiplyHarmonic(s: seq<real>, log10: real -> real, hps: seq<real>, h: nat) returns (r: seq<real>)
    requires |hps| == |s| && h > 0
    ensures |r| == |s|
    ensures forall k :: 0 <= k < |s| ==> r[k] == Times(hps[k], Factor(s, log10, k, h))
  {
    r := hps;
    for i := 0 to |s|
      invariant |r| == |s|
      invariant forall k :: 0 <= k < i ==> r[k] == Times(hps[k], Factor(s, log10, k, h))
      invariant forall k :: i <= k < |s| ==> r[k] == hps[k]
    {
      var factor := ComputeFactor(s, log10, i, h);
      r := r[i := Times(r[i], factor)];
    }
  }

  /** The factor of bin i for harmonic h, as the program's loop body computes it. */
  method ComputeFactor(s: seq<real>, log10: real -> real, i: nat, h: nat) returns (factor: real)
    requires h > 0
    ensures factor == Factor(s, log10, i, h)
  {
    if i * h >= |s| {
      factor := MinValue;
    } else {
      var m := ScanWindow(s, log10, i, h);
      factor := MaxR(MinValue, Scaled(m, i, h));
    }
  }

  /** The search of the program's last loop over any sequence of scores
      that are positive from bin 1 on: -1 when it has no bin from
      LowestBin on, else the first largest such bin times the bin width. */
  method FirstBestBin(hps: seq<real>) returns (f: real)
    requires forall k :: 1 <= k < |hps| ==> hps[k] > 0.0
    ensures f == -1.0 <==> |hps| <= LowestBin
    ensures |hps| > LowestBin ==> exists i :: FirstBest(hps, i) && f == i as real * FreqPerIndex
  {
    var bestFrequency := -1.0;
    var bestScore := 0.0;
    ghost var best := -1;
    var i := LowestBin;
    while i < |hps|
      invariant LowestBin <= i && (|hps| > LowestBin ==> i <= |hps|)
      invariant best == -1 ==> i == LowestBin && bestFrequency == -1.0 && bestScore == 0.0
      invariant best != -1 ==> LowestBin <= best < i <= |hps| && bestScore == hps[best]
                               && bestFrequency == best as real * FreqPerIndex
                               && (forall k :: LowestBin <= k < i ==> hps[k] <= hps[best])
                               && (forall k :: LowestBin <= k < best ==> hps[k] < hps[best])
    {
      if hps[i] > bestScore {
        bestScore := hps[i];
        bestFrequency := i as real * FreqPerIndex;
        best := i;
      }
      i := i + 1;
    }
    f := bestFrequency;
    if |hps| > LowestBin {
      assert FirstBest(hps, best);
    }
  }

  /** The fundamental in Hz: the first bin from 70 Hz up with the largest
      harmonic product, or -1 when the spectrum has no such bin. */
  method IdentifyFundamental(spectrum: seq<real>, log10: real -> real) returns (f: real)
    ensures f == -1.0 <==> |spectrum| <= LowestBin
    ensures |spectrum| > LowestBin ==>
              exists i :: FirstBest(HpsSpectrum(spectrum, log10), i) && f == i as real * FreqPerIndex
  {
    var hps := HarmonicProductSpectrum(spectrum, log10);
    forall k | 1 <= k < |hps|
      ensures hps[k] > 0.0
    {
      HpsPositive(spectrum, log10, k, LastHarmonic);
    }
    f := FirstBestBin(hps);
  }

  /** At most one bin is the first largest. */
  lemma FirstBestUnique(hps: seq<real>, i: int, j: int)
    requires FirstBest(hps, i) && FirstBest(hps, j)
    ensures i == j
  {
    assert hps[i] <= hps[j] && hps[j] <= hps[i];
  }

  /** MinValue to the power h. */
  function FloorPower(h: nat): (p: real)
    ensures p > 0.0
  {
    if h == 0 then 1.0 else Times(FloorPower(h - 1), MinValue)
  }

  /** On a silent spectrum every factor is the floor, so bin i scores
      i * MinValue^h: the product grows with the bin. */
  lemma {:induction false} SilentHps(s: seq<real>, log10: real -> real, i: nat, h: nat)
    requires i < |s| && h >= 1
    requires forall k :: 0 <= k < |s| ==> s[k] == 0.0
    ensures Hps(s, log10, i, h) == Times(i as real, FloorPower(h))
  {
    if h == 1 {
      SilentBase(s, log10, i);
    } else {
      SilentHps(s, log10, i, h - 1);
      SilentStep(s, log10, i, h);
    }
  }

  lemma SilentBase(s: seq<real>, log10: real -> real, i: nat)
    requires i < |s| && s[i] == 0.0
    ensures Hps(s, log10, i, 1) == Times(i as real, FloorPower(1))
  {
    assert FloorPower(1) == Times(1.0, MinValue) == MinValue;
    assert Hps(s, log10, i, 1) == Times(MinValue, i as real);
  }

  lemma SilentStep(s: seq<real>, log10: real -> real, i: nat, h: nat)
    requires i < |s| && h >= 2
    requires forall k :: 0 <= k < |s| ==> s[k] == 0.0
    requires Hps(s, log10, i, h - 1) == Times(i as real, FloorPower(h - 1))
    ensures Hps(s, log10, i, h) == Times(i as real, FloorPower(h))
  {
    SilentFactor(s, log10, i, h);
    TimesAssociates(i as real, FloorPower(h - 1), MinValue);
  }

  lemma TimesAssociates(a: real, b: real, c: real)
    ensures Times(Times(a, b), c) == Times(a, Times(b, c))
  {
  }

  lemma TimesGrows(a: real, b: real, c: real)
    requires a < b && c > 0.0
    ensures Times(a, c) < Times(b, c)
  {
  }

  /** On a silent spectrum every harmonic contributes the floor. */
  lemma SilentFactor(s: seq<real>, log10: real -> real, i: nat, h: nat)
    requires h > 0
    requires forall k :: 0 <= k < |s| ==> s[k] == 0.0
    ensures Factor(s, log10, i, h) == MinValue
  {
    if i * h < |s| {
      var m := WindowMax(s, WindowLow(log10, i, h), WindowHigh(s, log10, i, h));
      assert m == 0.0;
      assert Scaled(m, i, h) == 0.0;
    }
  }

  /** On silence the estimate is the highest bin of the spectrum. */
  lemma SilenceGivesTopBin(s: seq<real>, log10: real -> real)
    requires |s| > LowestBin
    requires forall k :: 0 <= k < |s| ==> s[k] == 0.0
    ensures FirstBest(HpsSpectrum(s, log10), |s| - 1)
    ensures forall i :: FirstBest(HpsSpectrum(s, log10), i) ==> i == |s| - 1
  {
    var hps := HpsSpectrum(s, log10);
    var c := FloorPower(LastHarmonic);
    forall k | 0 <= k < |s|
      ensures hps[k] == Times(k as real, c)
    {
      SilentHps(s, log10, k, LastHarmonic);
    }
    forall k | LowestBin <= k < |s| - 1
      ensures hps[k] < hps[|s| - 1]
    {
      TimesGrows(k as real, (|s| - 1) as real, c);
    }
    assert FirstBest(hps, |s| - 1);
    forall i | FirstBest(hps, i)
      ensures i == |s| - 1
    {
      FirstBestUnique(hps, i, |s| - 1);
    }
  }
}
