/** Vowel matching of the older analyzer (AccentTutor's SpectrumAnalyzer).
    IdentifyVowel tries the same eleven interpolation points per vowel as
    the current one, with a different cost: the apparent formants are
    harmonic indices, a misalignment of up to half a harmonic is forgiven
    in either direction, and the frequency penalty is in Hz. A trial
    replaces the best so far only when it scores strictly less, so the
    earliest c wins a tie, and every vowel is ranked, the unmatched ones
    included. IdentifyVowel2's interpolation constant is clamped to [0, 1].
    Math.Pow is a parameter, and so is the bin width deltaFreq (the sample
    rate over the FFT size of AccentTutor's FftProcessor). */
module LegacyMatching {
  import opened Common
  import opened Vowels
  import opened Matching
  import MunkresDefs
  import Munkres

  // ---------------------------------------------------------------------
  // Costs

  /** The older misalignment: |a - b|, forgiven (0) when at most half a
      harmonic, whichever side the apparent formant lies on. */
  function LegacyMisalign(a: real, b: real): (m: real)
    ensures m >= 0.0
    ensures m == 0.0 <==> Abs(a - b) <= 0.5
    ensures m != 0.0 ==> m == Abs(a - b)
  {
    var d := Abs(a - b);
    if d <= 0.5 then 0.0 else d
  }

  /** The older rule is symmetric and never stricter than the current one,
      which forgives only an apparent formant at or above the vowel's; the
      two agree on that side. */
  lemma MisalignForgivesMore(a: real, b: real)
    ensures LegacyMisalign(a, b) == LegacyMisalign(b, a)
    ensures LegacyMisalign(a, b) <= Misalign(a, b)
    ensures a >= b ==> LegacyMisalign(a, b) == Misalign(a, b)
    ensures a < b && Abs(a - b) <= 0.5 ==> LegacyMisalign(a, b) < Misalign(a, b)
  {
  }

  /** The relative amplitude of vowel formant k: 10^(dB/20) for its level
      in decibels relative to F1. */
  function Amplitude(v: Vowel, k: nat, pow10: real -> real): real
    requires WellFormed(v) && k < 3
  {
    pow10((v.formantAmplitudes[k] - v.formantAmplitudes[0]) as real / 20.0)
  }

  /** The cost of pairing apparent formant f (at harmonic index f.freq) with
      vowel formant k at c: float.MaxValue for a formant of strength 0;
      otherwise the misalignment in Hz and the excess of the larger over the
      smaller of the desired and the actual strength, both weighted by the
      formant's amplitude, plus 4 / strength. */
  function LegacyFormantCost(f: Formant, f0: real, v: Vowel, k: nat, c: real,
                             pow10: real -> real, deltaFreq: real): (x: real)
    requires f0 != 0.0 && WellFormed(v) && k < 3
    requires forall y :: pow10(y) > 0.0
    requires deltaFreq > 0.0 && f.value >= 0.0
    ensures x >= 0.0
    ensures f.value == 0.0 ==> x == FloatMax
    ensures f.value > 0.0 ==> x >= 4.0 / f.value
  {
    if f.value == 0.0 then FloatMax
    else
      var misalign := LegacyMisalign(f.freq, HarmonicPos(VowelFormantFreq(v, k, c), f0));
      var amplitude := Amplitude(v, k, pow10);
      var ratio := MaxR(DesiredValue(v, k, pow10), f.value) / MinR(DesiredValue(v, k, pow10), f.value);
      RatioAtLeastOne(DesiredValue(v, k, pow10), f.value);
      NonNegativeProduct(deltaFreq, misalign);
      NonNegativeProduct(Times(deltaFreq, misalign), amplitude);
      NonNegativeProduct(amplitude, ratio - 1.0);
      Times(Times(deltaFreq, misalign), amplitude) + Times(amplitude, ratio - 1.0) + 4.0 / f.value
  }

  lemma RatioAtLeastOne(a: real, b: real)
    requires a > 0.0 && b > 0.0
    ensures MaxR(a, b) / MinR(a, b) >= 1.0
  {
    if a <= b {
      QuotientAtLeastOne(b, a);
    } else {
      QuotientAtLeastOne(a, b);
    }
  }

  /** A quotient of a positive divisor into a dividend at least as large. */
  lemma QuotientAtLeastOne(hi: real, lo: real)
    requires lo > 0.0 && hi >= lo
    ensures hi / lo >= 1.0
  {
    var q := hi / lo;
    assert (q - 1.0) * lo == hi - lo;
  }

  lemma NonNegativeProduct(a: real, b: real)
    requires a >= 0.0 && b >= 0.0
    ensures Times(a, b) >= 0.0
  {
  }

  /** A formant within half a harmonic of the vowel's, at exactly the
      desired strength, costs the least any formant of its strength can:
      4 / strength. */
  lemma PerfectFit(f: Formant, f0: real, v: Vowel, k: nat, c: real, pow10: real -> real, deltaFreq: real)
    requires f0 != 0.0 && WellFormed(v) && k < 3
    requires forall y :: pow10(y) > 0.0
    requires deltaFreq > 0.0 && f.value > 0.0
    requires Abs(f.freq - HarmonicPos(VowelFormantFreq(v, k, c), f0)) <= 0.5
    requires f.value == DesiredValue(v, k, pow10)
    ensures LegacyFormantCost(f, f0, v, k, c, pow10, deltaFreq) == 4.0 / f.value
  {
    var amplitude := Amplitude(v, k, pow10);
    assert MaxR(f.value, f.value) / MinR(f.value, f.value) == 1.0;
    assert Times(deltaFreq, 0.0) == 0.0;
    assert Times(0.0, amplitude) == 0.0;
    assert Times(amplitude, 0.0) == 0.0;
  }

  /** The older costs matrix: one row per apparent formant, one column per
      vowel formant. */
  function LegacyCostMatrix(apparent: seq<Formant>, f0: real, v: Vowel, c: real,
                            pow10: real -> real, deltaFreq: real): (m: seq<seq<real>>)
    requires f0 != 0.0 && WellFormed(v)
    requires forall y :: pow10(y) > 0.0
    requires deltaFreq > 0.0 && forall j :: 0 <= j < |apparent| ==> apparent[j].value >= 0.0
    ensures Munkres.IsMatrix(m, |apparent|, |v.formantLows|)
    ensures forall j, k :: 0 <= j < |m| && 0 <= k < |m[j]| ==> m[j][k] >= 0.0
    ensures forall j, k :: 0 <= j < |m| && 0 <= k < |m[j]| && apparent[j].value == 0.0 ==> m[j][k] == FloatMax
  {
    seq(|apparent|, j requires 0 <= j < |apparent| =>
      seq(3, k requires 0 <= k < 3 => LegacyFormantCost(apparent[j], f0, v, k, c, pow10, deltaFreq)))
  }

  // ---------------------------------------------------------------------
  // Trials

  /** The formants and parameters the older matcher accepts: well-formed
      vowel, non-zero fundamental, positive powers and bin width, and
      strengths that are not negative. */
  ghost predicate Admissible(apparent: seq<Formant>, f0: real, pow10: real -> real, deltaFreq: real) {
    f0 != 0.0 && (forall y :: pow10(y) > 0.0)
    && deltaFreq > 0.0 && forall j :: 0 <= j < |apparent| ==> apparent[j].value >= 0.0
  }

  /** t is trial i of the older matching of v: the vowel's name, c = i / 10
      and a cheapest pairing of the older costs matrix at c. */
  ghost predicate LegacyTrial(apparent: seq<Formant>, f0: real, v: Vowel, pow10: real -> real, deltaFreq: real,
                              i: nat, t: VowelMatching)
    requires Admissible(apparent, f0, pow10, deltaFreq) && WellFormed(v)
  {
    t.vowel == Some(v.vowel) && t.c == TrialC(i)
    && Cheapest(LegacyCostMatrix(apparent, f0, v, TrialC(i), pow10, deltaFreq), |apparent|, t)
  }

  /** One trial: the older costs matrix at c = i / 10, its Munkres pairing
      and the pairing's score. */
  method RunLegacyTrial(apparent: seq<Formant>, f0: real, v: Vowel, pow10: real -> real, deltaFreq: real, i: nat)
    returns (t: VowelMatching)
    requires Admissible(apparent, f0, pow10, deltaFreq) && WellFormed(v)
    ensures LegacyTrial(apparent, f0, v, pow10, deltaFreq, i, t)
  {
    var c := TrialC(i);
    var m := LegacyCostMatrix(apparent, f0, v, c, pow10, deltaFreq);
    var pairs := Munkres.MunkresAssignment(m, |apparent|, |v.formantLows|);
    PairingInside(m, pairs, |apparent|, 3);
    PairSumNonNegative(m, pairs);
    t := VowelMatching(Some(v.vowel), c, Some(pairs), ToFloat(PairSum(m, pairs)));
  }

  /** Each of the trials is the trial of its index. */
  ghost predicate LegacyTrials(apparent: seq<Formant>, f0: real, v: Vowel, pow10: real -> real, deltaFreq: real,
                               tried: seq<VowelMatching>)
    requires Admissible(apparent, f0, pow10, deltaFreq) && WellFormed(v)
  {
    forall j :: 0 <= j < |tried| ==> LegacyTrial(apparent, f0, v, pow10, deltaFreq, j, tried[j])
  }

  // ---------------------------------------------------------------------
  // The strict replacement rule

  /** The loop over the trials from `best`: a trial replaces the best so
      far only when its score is strictly less. */
  function Earliest(tried: seq<VowelMatching>, best: VowelMatching): VowelMatching
    decreases |tried|
  {
    if |tried| == 0 then best
    else Earliest(tried[1..], if ScoreLt(tried[0].score, best.score) then tried[0] else best)
  }

  /** best is the first trial of the least score when that score is below
      the start's, and the start itself otherwise: no trial scores less
      than best, and every trial before the chosen one scores more. */
  ghost predicate FirstLowest(best: VowelMatching, start: VowelMatching, tried: seq<VowelMatching>) {
    ScoreLe(best.score, start.score)
    && (forall j :: 0 <= j < |tried| ==> ScoreLe(best.score, tried[j].score))
    && ((best == start && forall j :: 0 <= j < |tried| ==> ScoreLe(start.score, tried[j].score))
        || exists i :: 0 <= i < |tried| && best == tried[i] && ScoreLt(best.score, start.score)
                       && forall j :: 0 <= j < i ==> ScoreLt(best.score, tried[j].score))
  }

  /** The strict rule picks the first lowest trial. */
  lemma {:induction false} EarliestLowest(tried: seq<VowelMatching>, start: VowelMatching)
    ensures FirstLowest(Earliest(tried, start), start, tried)
    decreases |tried|
  {
    if |tried| > 0 {
      var t := tried[0];
      var rest := tried[1..];
      var next := if ScoreLt(t.score, start.score) then t else start;
      EarliestLowest(rest, next);
      var r := Earliest(rest, next);
      assert r == Earliest(tried, start);
      if ScoreLt(t.score, start.score) {
        LowerHead(tried, start, r);
      } else {
        HigherHead(tried, start, r);
      }
    }
  }

  /** The first trial scores less than the start: the rest's first lowest
      from it is the whole's. */
  lemma LowerHead(tried: seq<VowelMatching>, start: VowelMatching, r: VowelMatching)
    requires |tried| > 0 && ScoreLt(tried[0].score, start.score)
    requires FirstLowest(r, tried[0], tried[1..])
    ensures FirstLowest(r, start, tried)
  {
    var rest := tried[1..];
    assert forall j :: 1 <= j < |tried| ==> tried[j] == rest[j - 1];
    if r == tried[0] && forall j :: 0 <= j < |rest| ==> ScoreLe(tried[0].score, rest[j].score) {
      assert ScoreLt(r.score, start.score);
    } else {
      var i :| 0 <= i < |rest| && r == rest[i] && ScoreLt(r.score, tried[0].score)
               && forall j :: 0 <= j < i ==> ScoreLt(r.score, rest[j].score);
      assert r == tried[i + 1];
      assert forall j :: 0 <= j < i + 1 ==> ScoreLt(r.score, tried[j].score);
    }
  }

  /** The first trial does not score less than the start: the rest's first
      lowest from the start is the whole's. */
  lemma HigherHead(tried: seq<VowelMatching>, start: VowelMatching, r: VowelMatching)
    requires |tried| > 0 && !ScoreLt(tried[0].score, start.score)
    requires FirstLowest(r, start, tried[1..])
    ensures FirstLowest(r, start, tried)
  {
    var rest := tried[1..];
    assert forall j :: 1 <= j < |tried| ==> tried[j] == rest[j - 1];
    assert ScoreLe(start.score, tried[0].score);
    if r == start && forall j :: 0 <= j < |rest| ==> ScoreLe(start.score, rest[j].score) {
    } else {
      var i :| 0 <= i < |rest| && r == rest[i] && ScoreLt(r.score, start.score)
               && forall j :: 0 <= j < i ==> ScoreLt(r.score, rest[j].score);
      assert r == tried[i + 1];
      assert forall j :: 0 <= j < i + 1 ==> ScoreLt(r.score, tried[j].score);
    }
  }

  /** After the trials from the default: the default exactly when no trial
      scores below float.MaxValue; otherwise a trial of the vowel, finite
      and below float.MaxValue. */
  lemma LegacySettled(v: Vowel, best: VowelMatching, tried: seq<VowelMatching>)
    requires FirstLowest(best, NoMatch, tried)
    requires forall j :: 0 <= j < |tried| ==> tried[j].vowel == Some(v.vowel)
    ensures best.vowel.None? <==> forall j :: 0 <= j < |tried| ==> ScoreLe(Finite(FloatMax), tried[j].score)
    ensures best.vowel.None? ==> best == NoMatch
    ensures best.vowel.Some? ==> best.vowel == Some(v.vowel) && best.score.Finite? && best.score.x < FloatMax
  {
    if best != NoMatch {
      var i :| 0 <= i < |tried| && best == tried[i] && ScoreLt(best.score, NoMatch.score)
               && forall j :: 0 <= j < i ==> ScoreLt(best.score, tried[j].score);
      assert !ScoreLe(Finite(FloatMax), tried[i].score);
    }
  }

  /** IdentifyVowel's matching of one vowel: trials for c = 0, 0.1, ..., 1;
      the first trial of the least score, when it is below float.MaxValue,
      and the default matching otherwise. */
  method LegacyMatchVowel(apparent: seq<Formant>, f0: real, v: Vowel, pow10: real -> real, deltaFreq: real)
    returns (best: VowelMatching, tried: seq<VowelMatching>)
    requires Admissible(apparent, f0, pow10, deltaFreq) && WellFormed(v)
    ensures |tried| == 11 && LegacyTrials(apparent, f0, v, pow10, deltaFreq, tried)
    ensures FirstLowest(best, NoMatch, tried)
    ensures best.vowel.None? <==> forall j :: 0 <= j < |tried| ==> ScoreLe(Finite(FloatMax), tried[j].score)
    ensures best.vowel.None? ==> best == NoMatch
    ensures best.vowel.Some? ==> best.vowel == Some(v.vowel) && best.score.Finite? && best.score.x < FloatMax
  {
    tried := [];
    var i := 0;
    while i <= 10
      invariant 0 <= i <= 11 && |tried| == i
      invariant LegacyTrials(apparent, f0, v, pow10, deltaFreq, tried)
    {
      var t := RunLegacyTrial(apparent, f0, v, pow10, deltaFreq, i);
      Append(tried, t);
      tried := tried + [t];
      i := i + 1;
    }
    best := Earliest(tried, NoMatch);
    EarliestLowest(tried, NoMatch);
    LegacySettled(v, best, tried);
  }

  // ---------------------------------------------------------------------
  // Ranking

  /** Entry j of `results` is what the older matching returned for vowel j
      after trials[j]. */
  ghost predicate AllLegacyMatched(apparent: seq<Formant>, f0: real, vowels: seq<Vowel>,
                                   pow10: real -> real, deltaFreq: real,
                                   results: seq<VowelMatching>, trials: seq<seq<VowelMatching>>)
    requires Admissible(apparent, f0, pow10, deltaFreq)
    requires forall k :: 0 <= k < |vowels| ==> WellFormed(vowels[k])
  {
    |results| == |trials| <= |vowels|
    && forall j :: 0 <= j < |results| ==>
         LegacyMatchedOne(apparent, f0, vowels[j], pow10, deltaFreq, results[j], trials[j])
  }

  /** `m` is what the older matching returned for vowel `v` after `tried`. */
  ghost predicate LegacyMatchedOne(apparent: seq<Formant>, f0: real, v: Vowel, pow10: real -> real, deltaFreq: real,
                                   m: VowelMatching, tried: seq<VowelMatching>)
    requires Admissible(apparent, f0, pow10, deltaFreq) && WellFormed(v)
  {
    |tried| == 11 && LegacyTrials(apparent, f0, v, pow10, deltaFreq, tried)
    && FirstLowest(m, NoMatch, tried)
    && (m.vowel.None? ==> m == NoMatch)
    && (m.vowel.Some? ==> m.vowel == Some(v.vowel))
    && m.score.Finite? && m.score.x <= FloatMax
  }

  lemma LegacyMatchedSnoc(apparent: seq<Formant>, f0: real, vowels: seq<Vowel>, pow10: real -> real, deltaFreq: real,
                          results: seq<VowelMatching>, trials: seq<seq<VowelMatching>>,
                          m: VowelMatching, tried: seq<VowelMatching>)
    requires Admissible(apparent, f0, pow10, deltaFreq)
    requires forall k :: 0 <= k < |vowels| ==> WellFormed(vowels[k])
    requires |results| < |vowels|
    requires AllLegacyMatched(apparent, f0, vowels, pow10, deltaFreq, results, trials)
    requires LegacyMatchedOne(apparent, f0, vowels[|results|], pow10, deltaFreq, m, tried)
    ensures AllLegacyMatched(apparent, f0, vowels, pow10, deltaFreq, results + [m], trials + [tried])
  {
    var rs := results + [m];
    var ts := trials + [tried];
    forall j | 0 <= j < |rs|
      ensures LegacyMatchedOne(apparent, f0, vowels[j], pow10, deltaFreq, rs[j], ts[j])
    {
      if j < |results| {
        assert rs[j] == results[j] && ts[j] == trials[j];
      }
    }
  }

  /** One turn of IdentifyVowel's loop: match vowel |results|. */
  method LegacyVowelStep(apparent: seq<Formant>, f0: real, vowels: seq<Vowel>, pow10: real -> real, deltaFreq: real,
                         k: nat, results: seq<VowelMatching>, ghost trials: seq<seq<VowelMatching>>)
    returns (results': seq<VowelMatching>, ghost trials': seq<seq<VowelMatching>>)
    requires Admissible(apparent, f0, pow10, deltaFreq)
    requires forall k :: 0 <= k < |vowels| ==> WellFormed(vowels[k])
    requires k == |results| < |vowels|
    requires AllLegacyMatched(apparent, f0, vowels, pow10, deltaFreq, results, trials)
    ensures |results'| == k + 1
    ensures AllLegacyMatched(apparent, f0, vowels, pow10, deltaFreq, results', trials')
  {
    var m, tried := LegacyMatchVowel(apparent, f0, vowels[k], pow10, deltaFreq);
    LegacyMatchedSnoc(apparent, f0, vowels, pow10, deltaFreq, results, trials, m, tried);
    results' := results + [m];
    trials' := trials + [tried];
  }

  /** The older IdentifyVowel: every vowel's matching, the unmatched
      defaults included, in ascending order of score. */
  method LegacyIdentifyVowel(apparent: seq<Formant>, f0: real, vowels: seq<Vowel>,
                             pow10: real -> real, deltaFreq: real)
    returns (ranked: seq<VowelMatching>, ghost all: seq<VowelMatching>, ghost trials: seq<seq<VowelMatching>>)
    requires Admissible(apparent, f0, pow10, deltaFreq)
    requires forall k :: 0 <= k < |vowels| ==> WellFormed(vowels[k])
    ensures |all| == |vowels|
    ensures AllLegacyMatched(apparent, f0, vowels, pow10, deltaFreq, all, trials)
    ensures multiset(ranked) == multiset(all)
    ensures forall a, b :: 0 <= a < b < |ranked| ==> ScoreLe(ranked[a].score, ranked[b].score)
    ensures forall v :: WithKey(ranked, RankKey, v) == WithKey(all, RankKey, v)
  {
    var results: seq<VowelMatching> := [];
    trials := [];
    var k := 0;
    while k < |vowels|
      invariant 0 <= k <= |vowels| && |results| == k
      invariant AllLegacyMatched(apparent, f0, vowels, pow10, deltaFreq, results, trials)
    {
      results, trials := LegacyVowelStep(apparent, f0, vowels, pow10, deltaFreq, k, results, trials);
      k := k + 1;
    }
    all := results;
    ranked := SortBy(results, RankKey);
    FiniteMembers(results, ranked);
    RankedScores(ranked);
    forall v
      ensures WithKey(ranked, RankKey, v) == WithKey(all, RankKey, v)
    {
      SortByStable(results, RankKey, v);
    }
  }

  lemma FiniteMembers(results: seq<VowelMatching>, ranked: seq<VowelMatching>)
    requires multiset(ranked) == multiset(results)
    requires forall j :: 0 <= j < |results| ==> results[j].score.Finite?
    ensures forall j :: 0 <= j < |ranked| ==> ranked[j].score.Finite?
  {
    forall j | 0 <= j < |ranked|
      ensures ranked[j].score.Finite?
    {
      assert ranked[j] in multiset(results);
    }
  }

  // ---------------------------------------------------------------------
  // IdentifyVowel2's interpolation constant

  /** ((freqI + 1) f0 - low) / (high - low) clamped to [0, 1] by
      Max(0, Min(1, c)). An empty range divides to an infinity, which
      clamps to 0 or 1 by the numerator's sign, or to NaN (None) when the
      numerator is 0 as well; NaN passes both Min and Max unchanged. */
  function InterpolationConstant(freqI: real, f0: real, low: real, high: real): (c: Option<real>)
    ensures c.None? <==> high == low && Times(freqI + 1.0, f0) == low
    ensures c.Some? ==> 0.0 <= c.value <= 1.0
  {
    var num := Times(freqI + 1.0, f0) - low;
    var den := high - low;
    if den == 0.0 then
      if num == 0.0 then None else if num > 0.0 then Some(1.0) else Some(0.0)
    else
      Some(MaxR(0.0, MinR(1.0, num / den)))
  }

  /** A first formant inside the vowel's F1 range gives its position in the
      range, unchanged by the clamp; one beyond either end gives that end. */
  lemma InterpolationInside(freqI: real, f0: real, low: real, high: real)
    requires low < high
    ensures var x := Times(freqI + 1.0, f0);
            var c := InterpolationConstant(freqI, f0, low, high);
            (low <= x <= high ==> c == Some((x - low) / (high - low)))
            && (x <= low ==> c == Some(0.0))
            && (x >= high ==> c == Some(1.0))
  {
    var x := Times(freqI + 1.0, f0);
    var d := high - low;
    var q := (x - low) / d;
    QuotientAgainstOne(x - low, d);
    assert InterpolationConstant(freqI, f0, low, high) == Some(MaxR(0.0, MinR(1.0, q)));
    if low <= x <= high {
      assert 0.0 <= q <= 1.0;
    } else if x < low {
      assert q < 0.0;
    } else if x > high {
      assert q > 1.0;
    }
  }

  /** How a quotient by a positive d compares with 0 and 1. */
  lemma QuotientAgainstOne(a: real, d: real)
    requires d > 0.0
    ensures 0.0 <= a ==> 0.0 <= a / d
    ensures a < 0.0 ==> a / d < 0.0
    ensures a <= d ==> a / d <= 1.0
    ensures a > d ==> a / d > 1.0
  {
    var q := a / d;
    assert Times(q, d) == a;
    if q < 0.0 {
      assert Times(q, d) < 0.0;
    } else if q > 1.0 {
      assert Times(q - 1.0, d) > 0.0;
      assert Times(q - 1.0, d) == Times(q, d) - d;
    } else {
      assert Times(q, d) >= 0.0;
      assert Times(1.0 - q, d) >= 0.0;
      assert Times(1.0 - q, d) == d - Times(q, d);
    }
  }
}
