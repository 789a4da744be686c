/** The Android tutor display: its conditioning of each FFT frame (power,
    equalisation, DC removal, high-pass, z-score), the history windows the
    frames and fundamentals are shifted into, and two integer helpers of
    its drawing code. Math.Sqrt and Math.Log10 are parameters. */
module TutorDisplay {
  import opened Common
  import opened Conditioning
  import Fundamental

  /** Bins the display keeps: (int)(MAX_FREQ / (SAMPLE_RATE / FFT_LENGTH)). */
  const TutorBins: int := Trunc(MaxFreq as real / (SampleRate as real / FftLength as real))

  /** The display keeps the bins from 0 Hz through 3999 Hz. */
  lemma TutorBinsCount()
    ensures TutorBins == 4000
  {
  }

  /** The equalisation of bin i: x 0.0025 below 250 Hz, x 0.2 below 400 Hz. */
  function Equalized(i: nat, x: real): real {
    var freq := i as real * FreqPerIndex;
    if freq < 250.0 then x * 0.0025
    else if freq < 400.0 then x * 0.2
    else x
  }

  /** The frame after normalising, squaring, equalising and zeroing bins
      0 to 2. The raw transform must reach the last kept bin. */
  function PowerSpectrum(raw: seq<real>): (p: seq<real>)
    requires |raw| >= TutorBins
    ensures |p| == TutorBins
    ensures p[0] == 0.0 && p[1] == 0.0 && p[2] == 0.0
    ensures forall i :: 0 <= i < |p| ==> p[i] >= 0.0
    ensures forall i :: 3 <= i < 250 ==> p[i] == 0.0025 * Times(raw[i] / RootFftLength, raw[i] / RootFftLength)
    ensures forall i :: 250 <= i < 400 ==> p[i] == 0.2 * Times(raw[i] / RootFftLength, raw[i] / RootFftLength)
    ensures forall i :: 400 <= i < |p| ==> p[i] == Times(raw[i] / RootFftLength, raw[i] / RootFftLength)
  {
    seq(TutorBins, i requires 0 <= i < TutorBins =>
      if i < 3 then 0.0
      else Equalized(i, Times(raw[i] / RootFftLength, raw[i] / RootFftLength)))
  }

  /** The tutor's state: the current frame, the last 8 frames, the last 16
      fundamentals, the frames processed and the last deviation. */
  datatype Tutor = Tutor(fft: Frame, lastFfts: seq<Frame>, lastFundamentals: seq<real>,
                         processed: nat, stdDev: real)

  /** The history windows have their fixed sizes. */
  predicate TutorShape(t: Tutor) {
    |t.lastFfts| == 8 && |t.lastFundamentals| == 16
  }

  /** The state on construction: a zero frame, null frames, zero
      fundamentals. */
  const InitialTutor: Tutor :=
    Tutor(Values(seq(4000, i => 0.0)), seq(8, i => Null), seq(16, i => 0.0), 0, 0.0)

  /** The conditioning of one frame: power spectrum, high-pass filter and
      z-score without a floor. It returns the frame and its deviation. */
  method ConditionFrame(raw: seq<real>, sqrt: real -> real)
    returns (frame: Frame, sd: real, ghost hp: seq<real>)
    requires |raw| >= TutorBins
    ensures HighPassed(PowerSpectrum(raw), hp) && |hp| == TutorBins
    ensures hp[0] == 0.0 && hp[1] == 0.0 && hp[2] == 0.0
    ensures sd == StdDev(hp, sqrt)
    ensures frame != Null && (frame == NotNumbers <==> sd == 0.0)
    ensures frame.Values? ==> ZScore(hp, sqrt) == Some(frame.v) && Sum(frame.v) == 0.0
  {
    var power := PowerSpectrum(raw);
    var filtered := HighPass(power);
    hp := filtered;
    ZeroPrefixStays(power, hp, 3, 0);
    ZeroPrefixStays(power, hp, 3, 1);
    ZeroPrefixStays(power, hp, 3, 2);
    sd := StdDev(filtered, sqrt);
    var z := ZScore(filtered, sqrt);
    ZScoreSumsToZero(filtered, sqrt);
    frame := if z.Some? then Values(z.value) else NotNumbers;
  }

  /** The fundamental of a conditioned frame. A frame of no numbers has no
      harmonic product above 0 to win, so its fundamental is -1. */
  method FrameFundamental(frame: Frame, log10: real -> real) returns (f: real)
    requires frame != Null
    ensures frame == NotNumbers ==> f == -1.0
    ensures frame.Values? ==> (f == -1.0 <==> |frame.v| <= Fundamental.LowestBin)
    ensures frame.Values? && |frame.v| > Fundamental.LowestBin ==>
              exists i :: Fundamental.FirstBest(Fundamental.HpsSpectrum(frame.v, log10), i)
                          && f == i as real * FreqPerIndex
  {
    f := -1.0;
    if frame.Values? {
      f := Fundamental.IdentifyFundamental(frame.v, log10);
    }
  }

  /** HandleFftData: condition the frame, then (the program's noise test reads
      `true || ...`, so every frame is kept) shift it into the frame window and its
      fundamental into the fundamental window. The silence branch, which
      would shift in null and 0, is never taken. */
  method HandleFftData(t: Tutor, raw: seq<real>, sqrt: real -> real, log10: real -> real)
    returns (t': Tutor, ghost hp: seq<real>)
    requires TutorShape(t) && |raw| >= TutorBins
    ensures TutorShape(t') && t'.processed == t.processed + 1
    ensures HighPassed(PowerSpectrum(raw), hp) && t'.stdDev == StdDev(hp, sqrt)
    ensures t'.fft != Null && (t'.fft == NotNumbers <==> StdDev(hp, sqrt) == 0.0)
    ensures t'.fft.Values? ==> ZScore(hp, sqrt) == Some(t'.fft.v) && Sum(t'.fft.v) == 0.0
    ensures forall i :: 0 <= i < 7 ==> t'.lastFfts[i] == t.lastFfts[i + 1]
    ensures t'.lastFfts[7] == t'.fft
    ensures forall i :: 0 <= i < 15 ==> t'.lastFundamentals[i] == t.lastFundamentals[i + 1]
    ensures t'.fft == NotNumbers ==> t'.lastFundamentals[15] == -1.0
    ensures t'.fft.Values? ==>
              exists i :: Fundamental.FirstBest(Fundamental.HpsSpectrum(t'.fft.v, log10), i)
                          && t'.lastFundamentals[15] == i as real * FreqPerIndex
  {
    var frame, sd, h := ConditionFrame(raw, sqrt);
    hp := h;
    TutorBinsCount();
    var fundamental := FrameFundamental(frame, log10);
    t' := Tutor(frame, ShiftIn(t.lastFfts, frame), ShiftIn(t.lastFundamentals, fundamental),
                t.processed + 1, sd);
  }

  // ---------------------------------------------------------------------
  // Integer helpers of the drawing code

  /** Roundedness(int, int, int): the two smaller of three formant levels
      (in dB) are swapped below the first, then the gap from the largest to
      the next, Min(0, next - largest) / -50, is capped at 1. */
  function Roundedness(db1: int, db2: int, db3: int): (r: real)
    ensures 0.0 <= r <= 1.0
  {
    var a := if db2 > db1 then db2 else db1;
    var b := if db2 > db1 then db1 else db2;
    var top := if db3 > a then db3 else a;
    var c := if db3 > a then a else db3;
    MinR(MinI(0, MaxI(b, c) - top) as real / -50.0, 1.0)
  }

  /** The largest of three. */
  function Largest(a: int, b: int, c: int): int {
    MaxI(a, MaxI(b, c))
  }

  /** The middle of three: what remains without the largest and smallest. */
  function Middle(a: int, b: int, c: int): int {
    a + b + c - Largest(a, b, c) - MinI(a, MinI(b, c))
  }

  /** Roundedness is the gap from the loudest formant to the next, in
      units of 50 dB, capped at 1. */
  lemma RoundednessIsGap(a: int, b: int, c: int)
    ensures Roundedness(a, b, c) == MinR((Largest(a, b, c) - Middle(a, b, c)) as real / 50.0, 1.0)
  {
  }

  /** The order of the three levels does not matter. */
  lemma RoundednessSymmetric(a: int, b: int, c: int)
    ensures Roundedness(a, b, c) == Roundedness(b, a, c)
    ensures Roundedness(a, b, c) == Roundedness(a, c, b)
    ensures Roundedness(a, b, c) == Roundedness(c, b, a)
  {
    RoundednessIsGap(a, b, c);
    RoundednessIsGap(b, a, c);
    RoundednessIsGap(a, c, b);
    RoundednessIsGap(c, b, a);
    assert Largest(a, b, c) == Largest(b, a, c) == Largest(a, c, b) == Largest(c, b, a);
    assert Middle(a, b, c) == Middle(b, a, c) == Middle(a, c, b) == Middle(c, b, a);
  }

  /** Two equally loud top formants give roundedness 0, as for (0, 0, -30). */
  lemma RoundednessTie(a: int, c: int)
    requires c <= a
    ensures Roundedness(a, a, c) == 0.0 && Roundedness(0, 0, -30) == 0.0
  {
  }

  /** Clamp to 0..255. */
  function Clamp(i: int): (r: int)
    ensures 0 <= r <= 255
    ensures 0 <= i <= 255 ==> r == i
    ensures i < 0 ==> r == 0
    ensures i > 255 ==> r == 255
  {
    if i < 0 then 0 else if i > 255 then 255 else i
  }

  /** Clamping is idempotent and keeps order. */
  lemma ClampMonotone(i: int, j: int)
    requires i <= j
    ensures Clamp(i) <= Clamp(j) && Clamp(Clamp(i)) == Clamp(i)
  {
  }
}
