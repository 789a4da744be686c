/** Vowel matching of the current analyzer: MatchVowel scores how well the
    apparent formants fit one vowel at eleven interpolation points between
    the vowel's low and high formant frequencies, pairing formants with the
    Munkres solver; IdentifyVowel ranks the vowels by that score. Math.Pow
    and Math.Sqrt are parameters. */
module Matching {
  import opened Common
  import opened Vowels
  import MunkresDefs
  import opened MunkresOptimal
  import Munkres

  /** A single-precision value a score takes: finite, or +Infinity. */
  datatype Score = Finite(x: real) | Infinity

  /** Half a unit in the last place of float.MaxValue: 2^103. */
  const HalfUlpAtMax: real := 10141204801825835211973625643008.0

  /** The (float) conversion of a non-negative double: beyond float.MaxValue
      by half a unit in the last place or more it rounds to +Infinity, the
      rest of the overflow range rounds down to float.MaxValue. (Rounding of
      in-range values is not modelled.) */
  function ToFloat(x: real): (s: Score)
    requires x >= 0.0
    ensures x <= FloatMax ==> s == Finite(x)
    ensures s.Finite? ==> 0.0 <= s.x <= FloatMax
  {
    if x >= FloatMax + HalfUlpAtMax then Infinity
    else if x > FloatMax then Finite(FloatMax)
    else Finite(x)
  }

  /** The float comparison a <= b. */
  predicate ScoreLe(a: Score, b: Score) {
    match (a, b)
    case (Finite(x), Finite(y)) => x <= y
    case (_, Infinity) => true
    case (Infinity, Finite(_)) => false
  }

  /** The float comparison a < b. */
  predicate ScoreLt(a: Score, b: Score) {
    ScoreLe(a, b) && a != b
  }

  /** The conversion keeps the order of the sums it converts. */
  lemma ToFloatMonotone(x: real, y: real)
    requires 0.0 <= x <= y
    ensures ScoreLe(ToFloat(x), ToFloat(y))
  {
  }

  /** The result of matching one vowel: its name (null for the default
      result), the interpolation constant, the Munkres pairs (null for the
      default result) and the score. */
  datatype VowelMatching = VowelMatching(vowel: Option<string>, c: real, matches: Option<seq<MunkresDefs.Cell>>, score: Score)

  /** The initial best matching: every field default, score float.MaxValue. */
  const NoMatch: VowelMatching := VowelMatching(None, 0.0, None, Finite(FloatMax))

  /** A frequency's position in the harmonic series of f0, counted from 0. */
  function HarmonicPos(freq: real, f0: real): real
    requires f0 != 0.0
  {
    freq / f0 - 1.0
  }

  /** Vowel formant k at interpolation constant c: (1 - c) low + c high. */
  function VowelFormantFreq(v: Vowel, k: nat, c: real): real
    requires WellFormed(v) && k < 3
  {
    Times(1.0 - c, v.formantLows[k]) + Times(c, v.formantHighs[k])
  }

  /** The misalignment of an apparent formant at position a with a vowel
      formant at position b: |a - b|, except that it is forgiven when the
      apparent formant lies at most half a harmonic above. */
  function Misalign(a: real, b: real): (m: real)
    ensures m >= 0.0
    ensures m == 0.0 <==> b <= a <= b + 0.5 || a == b
    ensures m != 0.0 ==> m == Abs(a - b)
  {
    var d := Abs(a - b);
    if d <= 0.5 && a >= b then 0.0 else d
  }

  /** The strength vowel formant k should have: 10 times its amplitude in
      decibels relative to F1, 10^(dB/20). */
  function DesiredValue(v: Vowel, k: nat, pow10: real -> real): real
    requires WellFormed(v) && k < 3
  {
    10.0 * pow10((v.formantAmplitudes[k] - v.formantAmplitudes[0]) as real / 20.0)
  }

  /** The cost of pairing apparent formant f with vowel formant k at c:
      float.MaxValue for a formant of strength 0; otherwise the misalignment
      plus sqrt(ratio - 1) for the ratio of the larger to the smaller of the
      desired and the actual strength, scaled by 0.33 for F3. */
  function FormantCost(f: Formant, f0: real, v: Vowel, k: nat, c: real,
                       pow10: real -> real, sqrt: real -> real): (x: real)
    requires f0 != 0.0 && WellFormed(v) && k < 3
    requires forall y :: pow10(y) > 0.0
    requires forall y :: sqrt(y) >= 0.0
    ensures x >= 0.0
    ensures f.value == 0.0 ==> x == FloatMax
  {
    if f.value == 0.0 then FloatMax
    else
      var misalign := Misalign(HarmonicPos(f.freq, f0), HarmonicPos(VowelFormantFreq(v, k, c), f0));
      var desired := DesiredValue(v, k, pow10);
      var ratio := MaxR(desired, f.value) / MinR(desired, f.value);
      var cost := misalign + sqrt(ratio - 1.0);
      if k == 2 then cost * 0.33 else cost
  }

  /** The costs matrix: one row per apparent formant, one column per vowel
      formant. */
  function CostMatrix(apparent: seq<Formant>, f0: real, v: Vowel, c: real,
                      pow10: real -> real, sqrt: real -> real): (m: seq<seq<real>>)
    requires f0 != 0.0 && WellFormed(v)
    requires forall y :: pow10(y) > 0.0
    requires forall y :: sqrt(y) >= 0.0
    ensures Munkres.IsMatrix(m, |apparent|, |v.formantLows|)
    ensures forall j, k :: 0 <= j < |m| && 0 <= k < |m[j]| ==> m[j][k] >= 0.0
  {
    seq(|apparent|, j requires 0 <= j < |apparent| =>
      seq(3, k requires 0 <= k < 3 => FormantCost(apparent[j], f0, v, k, c, pow10, sqrt)))
  }

  /** The cells of P lie inside m. */
  ghost predicate Inside(m: seq<seq<real>>, P: seq<MunkresDefs.Cell>) {
    forall i :: 0 <= i < |P| ==> 0 <= P[i].0 < |m| && 0 <= P[i].1 < |m[P[i].0]|
  }

  /** The summed cost of the cells of P, in their order. */
  function PairSum(m: seq<seq<real>>, P: seq<MunkresDefs.Cell>): real
    requires Inside(m, P)
  {
    if |P| == 0 then 0.0 else PairSum(m, P[..|P| - 1]) + m[P[|P| - 1].0][P[|P| - 1].1]
  }

  lemma {:induction false} PairSumNonNegative(m: seq<seq<real>>, P: seq<MunkresDefs.Cell>)
    requires Inside(m, P)
    requires forall j, k :: 0 <= j < |m| && 0 <= k < |m[j]| ==> m[j][k] >= 0.0
    ensures PairSum(m, P) >= 0.0
  {
    if |P| > 0 {
      PairSumNonNegative(m, P[..|P| - 1]);
    }
  }

  /** The interpolation constant of trial i: i / 10. */
  function TrialC(i: nat): real {
    i as real / 10.0
  }

  /** t carries a cheapest complete pairing of the (scaled) costs matrix m
      of `rows` apparent formants by three vowel formants, scored by the
      pairing's summed cost as a float. */
  ghost predicate Cheapest(m: seq<seq<real>>, rows: nat, t: VowelMatching) {
    t.matches.Some?
    && IsCompletePairing(t.matches.value, rows, 3)
    && Indexes(Munkres.QuantizeMatrix(m), t.matches.value)
    && (forall Q :: IsCompletePairing(Q, rows, 3) ==>
          Indexes(Munkres.QuantizeMatrix(m), Q)
          && PairCost(Munkres.QuantizeMatrix(m), t.matches.value) <= PairCost(Munkres.QuantizeMatrix(m), Q))
    && Inside(m, t.matches.value)
    && PairSum(m, t.matches.value) >= 0.0
    && t.score == ToFloat(PairSum(m, t.matches.value))
  }

  /** t is trial i of matching v: the vowel's name, c = i / 10 and a
      cheapest pairing of the costs matrix at c. */
  ghost predicate Trial(apparent: seq<Formant>, f0: real, v: Vowel, pow10: real -> real, sqrt: real -> real,
                        i: nat, t: VowelMatching)
    requires f0 != 0.0 && WellFormed(v)
    requires forall y :: pow10(y) > 0.0
    requires forall y :: sqrt(y) >= 0.0
  {
    t.vowel == Some(v.vowel) && t.c == TrialC(i)
    && Cheapest(CostMatrix(apparent, f0, v, TrialC(i), pow10, sqrt), |apparent|, t)
  }

  /** The pairing Munkres gives lies inside the matrix it was given. */
  lemma PairingInside(m: seq<seq<real>>, P: seq<MunkresDefs.Cell>, rows: nat, cols: nat)
    requires Munkres.IsMatrix(m, rows, cols) && IsCompletePairing(P, rows, cols)
    ensures Inside(m, P)
  {
  }

  /** One trial: the costs matrix at c = i / 10, its Munkres pairing and
      the pairing's score. */
  method RunTrial(apparent: seq<Formant>, f0: real, v: Vowel, pow10: real -> real, sqrt: real -> real, i: nat)
    returns (t: VowelMatching)
    requires f0 != 0.0 && WellFormed(v)
    requires forall y :: pow10(y) > 0.0
    requires forall y :: sqrt(y) >= 0.0
    ensures Trial(apparent, f0, v, pow10, sqrt, i, t)
  {
    var c := TrialC(i);
    var m := CostMatrix(apparent, f0, v, c, pow10, sqrt);
    var pairs := Munkres.MunkresAssignment(m, |apparent|, |v.formantLows|);
    PairingInside(m, pairs, |apparent|, 3);
    PairSumNonNegative(m, pairs);
    t := VowelMatching(Some(v.vowel), c, Some(pairs), ToFloat(PairSum(m, pairs)));
  }

  /** best is the outcome of keeping, over the trials, the last one whose
      score is at most that of the best so far: either no trial beat the
      default (all scored +Infinity), or some trial i did, every trial scores
      at least as much, and every later one strictly more. */
  ghost predicate BestOfTrials(best: VowelMatching, tried: seq<VowelMatching>) {
    (forall j :: 0 <= j < |tried| ==> ScoreLe(best.score, tried[j].score))
    && ((best == NoMatch && forall j :: 0 <= j < |tried| ==> tried[j].score == Infinity)
        || exists i :: 0 <= i < |tried| && best == tried[i]
                       && forall j :: i < j < |tried| ==> ScoreLt(best.score, tried[j].score))
  }

  /** best is what MatchVowel returns for v after the trials `tried`. */
  ghost predicate MatchedBy(apparent: seq<Formant>, f0: real, v: Vowel, pow10: real -> real, sqrt: real -> real,
                            best: VowelMatching, tried: seq<VowelMatching>)
    requires f0 != 0.0 && WellFormed(v)
    requires forall y :: pow10(y) > 0.0
    requires forall y :: sqrt(y) >= 0.0
  {
    |tried| == 11 && (forall i :: 0 <= i < 11 ==> Trial(apparent, f0, v, pow10, sqrt, i, tried[i]))
    && BestOfTrials(best, tried)
  }

  /** Each of the trials so far is the trial of its index. */
  ghost predicate Trials(apparent: seq<Formant>, f0: real, v: Vowel, pow10: real -> real, sqrt: real -> real,
                         tried: seq<VowelMatching>)
    requires f0 != 0.0 && WellFormed(v)
    requires forall y :: pow10(y) > 0.0
    requires forall y :: sqrt(y) >= 0.0
  {
    forall j :: 0 <= j < |tried| ==> Trial(apparent, f0, v, pow10, sqrt, j, tried[j])
  }

  /** What holds of the best matching after some of the trials. */
  ghost predicate Kept(v: Vowel, best: VowelMatching, tried: seq<VowelMatching>) {
    best.score.Finite? && best.score.x <= FloatMax
    && BestOfTrials(best, tried)
    && (best.vowel.None? ==> best == NoMatch)
    && (best.vowel.Some? ==> best.vowel == Some(v.vowel))
    && forall j :: 0 <= j < |tried| ==> tried[j].vowel.Some?
  }

  /** One turn of MatchVowel's loop: run trial |tried| and keep it when its
      score is at most the best's. */
  method TrialStep(apparent: seq<Formant>, f0: real, v: Vowel, pow10: real -> real, sqrt: real -> real,
                   i: nat, best: VowelMatching, ghost tried: seq<VowelMatching>)
    returns (best': VowelMatching, ghost tried': seq<VowelMatching>)
    requires f0 != 0.0 && WellFormed(v)
    requires forall y :: pow10(y) > 0.0
    requires forall y :: sqrt(y) >= 0.0
    requires |tried| == i
    requires Trials(apparent, f0, v, pow10, sqrt, tried) && Kept(v, best, tried)
    ensures |tried'| == |tried| + 1
    ensures Trials(apparent, f0, v, pow10, sqrt, tried') && Kept(v, best', tried')
  {
    var t := RunTrial(apparent, f0, v, pow10, sqrt, i);
    Keep(best, tried, t);
    best' := if ScoreLe(t.score, best.score) then t else best;
    tried' := tried + [t];
    assert forall j :: 0 <= j < |tried| ==> tried'[j] == tried[j];
    assert Kept(v, best', tried');
  }

  /** MatchVowel: trials for c = 0, 0.1, ..., 1; a trial replaces the best
      so far when its score is at most the best's, so a later c wins a tie. */
  method MatchVowel(apparent: seq<Formant>, f0: real, v: Vowel, pow10: real -> real, sqrt: real -> real)
    returns (best: VowelMatching, ghost tried: seq<VowelMatching>)
    requires f0 != 0.0 && WellFormed(v)
    requires forall y :: pow10(y) > 0.0
    requires forall y :: sqrt(y) >= 0.0
    ensures MatchedBy(apparent, f0, v, pow10, sqrt, best, tried)
    ensures best.vowel.None? <==> forall i :: 0 <= i < |tried| ==> tried[i].score == Infinity
    ensures best.vowel.Some? ==> best.vowel == Some(v.vowel) && best.score.Finite?
  {
    best := NoMatch;
    tried := [];
    var i := 0;
    while i <= 10
      invariant 0 <= i <= 11 && |tried| == i
      invariant Trials(apparent, f0, v, pow10, sqrt, tried) && Kept(v, best, tried)
    {
      best, tried := TrialStep(apparent, f0, v, pow10, sqrt, i, best, tried);
      i := i + 1;
    }
    Settled(v, best, tried);
  }

  /** After the trials, the best is the default exactly when every trial
      scored +Infinity. */
  lemma Settled(v: Vowel, best: VowelMatching, tried: seq<VowelMatching>)
    requires Kept(v, best, tried)
    ensures best.vowel.None? <==> forall i :: 0 <= i < |tried| ==> tried[i].score == Infinity
  {
    if best.vowel.Some? {
      var k :| 0 <= k < |tried| && best == tried[k];
      assert tried[k].score != Infinity;
    }
  }

  /** The replacement rule keeps BestOfTrials. */
  lemma Keep(best: VowelMatching, tried: seq<VowelMatching>, t: VowelMatching)
    requires BestOfTrials(best, tried)
    requires forall j :: 0 <= j < |tried| ==> tried[j].vowel.Some?
    requires best.score.Finite? && best.score.x <= FloatMax
    requires best.vowel.None? ==> best == NoMatch
    requires t.vowel.Some? && (t.score.Finite? ==> t.score.x <= FloatMax)
    ensures var next := if ScoreLe(t.score, best.score) then t else best;
            BestOfTrials(next, tried + [t])
  {
    var all := tried + [t];
    assert forall j :: 0 <= j < |tried| ==> all[j] == tried[j];
    assert all[|tried|] == t;
    if ScoreLe(t.score, best.score) {
      forall j | 0 <= j < |all|
        ensures ScoreLe(t.score, all[j].score)
      {
        if j < |tried| {
          assert ScoreLe(best.score, tried[j].score);
        }
      }
    } else {
      assert ScoreLt(best.score, t.score);
      if best == NoMatch {
        assert t.score == Infinity;
      } else {
        var i :| 0 <= i < |tried| && best == tried[i]
                 && forall j :: i < j < |tried| ==> ScoreLt(best.score, tried[j].score);
        assert best == all[i];
      }
    }
  }

  /** The sort key of a score: its value; +Infinity above every float. */
  function ScoreKey(s: Score): real {
    match s
    case Finite(x) => x
    case Infinity => FloatMax + 1.0
  }

  /** Orders matchings by score (OrderBy(m => m.score)). */
  function RankKey(m: VowelMatching): real {
    ScoreKey(m.score)
  }

  /** The key keeps the float order. */
  lemma ScoreKeyOrder(a: Score, b: Score)
    requires a.Finite? ==> a.x <= FloatMax
    requires b.Finite? ==> b.x <= FloatMax
    ensures ScoreLe(a, b) <==> ScoreKey(a) <= ScoreKey(b)
  {
  }

  /** Entry j of `results` is what MatchVowel returned for vowel j after
      trials[j]: named after the vowel (or the default) and finite when named. */
  ghost predicate AllMatched(apparent: seq<Formant>, f0: real, vowels: seq<Vowel>,
                             pow10: real -> real, sqrt: real -> real,
                             results: seq<VowelMatching>, trials: seq<seq<VowelMatching>>)
    requires f0 != 0.0 && forall k :: 0 <= k < |vowels| ==> WellFormed(vowels[k])
    requires forall y :: pow10(y) > 0.0
    requires forall y :: sqrt(y) >= 0.0
  {
    |results| == |trials| <= |vowels|
    && forall j :: 0 <= j < |results| ==>
         MatchedBy(apparent, f0, vowels[j], pow10, sqrt, results[j], trials[j])
         && (results[j].vowel.None? || results[j].vowel == Some(vowels[j].vowel))
         && (results[j].vowel.Some? ==> results[j].score.Finite?)
  }

  /** One turn of IdentifyVowel's loop: match vowel |results|. */
  method VowelStep(apparent: seq<Formant>, f0: real, vowels: seq<Vowel>, pow10: real -> real, sqrt: real -> real,
                   k: nat, results: seq<VowelMatching>, ghost trials: seq<seq<VowelMatching>>)
    returns (results': seq<VowelMatching>, ghost trials': seq<seq<VowelMatching>>)
    requires f0 != 0.0 && forall k :: 0 <= k < |vowels| ==> WellFormed(vowels[k])
    requires forall y :: pow10(y) > 0.0
    requires forall y :: sqrt(y) >= 0.0
    requires k == |results| < |vowels|
    requires AllMatched(apparent, f0, vowels, pow10, sqrt, results, trials)
    ensures |results'| == k + 1
    ensures AllMatched(apparent, f0, vowels, pow10, sqrt, results', trials')
  {
    var m, tried := MatchVowel(apparent, f0, vowels[k], pow10, sqrt);
    Append(results, m);
    Append(trials, tried);
    results' := results + [m];
    trials' := trials + [tried];
  }

  /** IdentifyVowel: the vowels' matchings without the default ones, in
      ascending order of score (ties in table order). */
  method IdentifyVowel(apparent: seq<Formant>, f0: real, vowels: seq<Vowel>,
                       pow10: real -> real, sqrt: real -> real)
    returns (ranked: seq<VowelMatching>, ghost all: seq<VowelMatching>, ghost trials: seq<seq<VowelMatching>>)
    requires f0 != 0.0 && forall k :: 0 <= k < |vowels| ==> WellFormed(vowels[k])
    requires forall y :: pow10(y) > 0.0
    requires forall y :: sqrt(y) >= 0.0
    ensures |all| == |vowels|
    ensures AllMatched(apparent, f0, vowels, pow10, sqrt, all, trials)
    ensures multiset(ranked) == multiset(Filter(all, (m: VowelMatching) => m.vowel.Some?))
    ensures forall k :: 0 <= k < |ranked| ==> ranked[k].vowel.Some? && ranked[k].score.Finite?
    ensures forall a, b :: 0 <= a < b < |ranked| ==> ScoreLe(ranked[a].score, ranked[b].score)
    ensures forall v :: WithKey(ranked, RankKey, v)
                        == WithKey(Filter(all, (m: VowelMatching) => m.vowel.Some?), RankKey, v)
  {
    var results: seq<VowelMatching> := [];
    trials := [];
    var k := 0;
    while k < |vowels|
      invariant 0 <= k <= |vowels| && |results| == k
      invariant AllMatched(apparent, f0, vowels, pow10, sqrt, results, trials)
    {
      results, trials := VowelStep(apparent, f0, vowels, pow10, sqrt, k, results, trials);
      k := k + 1;
    }
    all := results;
    ranked := Rank(results);
  }

  lemma Append<T>(s: seq<T>, x: T)
    ensures forall j :: 0 <= j < |s| ==> (s + [x])[j] == s[j]
    ensures (s + [x])[|s|] == x
  {
  }

  /** The named matchings, stably sorted by score. */
  function Rank(results: seq<VowelMatching>): (ranked: seq<VowelMatching>)
    requires forall j :: 0 <= j < |results| && results[j].vowel.Some? ==> results[j].score.Finite?
    ensures multiset(ranked) == multiset(Filter(results, (m: VowelMatching) => m.vowel.Some?))
    ensures forall k :: 0 <= k < |ranked| ==> ranked[k].vowel.Some? && ranked[k].score.Finite?
    ensures forall a, b :: 0 <= a < b < |ranked| ==> ScoreLe(ranked[a].score, ranked[b].score)
    ensures forall v :: WithKey(ranked, RankKey, v)
                        == WithKey(Filter(results, (m: VowelMatching) => m.vowel.Some?), RankKey, v)
  {
    var named := Filter(results, (m: VowelMatching) => m.vowel.Some?);
    NamedFinite(results, named);
    var ranked := SortBy(named, RankKey);
    Members(named, ranked);
    RankedScores(ranked);
    forall v
      ensures WithKey(ranked, RankKey, v) == WithKey(named, RankKey, v)
    {
      SortByStable(named, RankKey, v);
    }
    ranked
  }

  lemma NamedFinite(results: seq<VowelMatching>, named: seq<VowelMatching>)
    requires forall j :: 0 <= j < |results| && results[j].vowel.Some? ==> results[j].score.Finite?
    requires named == Filter(results, (m: VowelMatching) => m.vowel.Some?)
    ensures forall j :: 0 <= j < |named| ==> named[j].vowel.Some? && named[j].score.Finite?
  {
    forall j | 0 <= j < |named|
      ensures named[j].score.Finite?
    {
      assert named[j] in multiset(results);
    }
  }

  lemma Members(named: seq<VowelMatching>, ranked: seq<VowelMatching>)
    requires multiset(ranked) == multiset(named)
    requires forall j :: 0 <= j < |named| ==> named[j].vowel.Some? && named[j].score.Finite?
    ensures forall j :: 0 <= j < |ranked| ==> ranked[j].vowel.Some? && ranked[j].score.Finite?
  {
    forall j | 0 <= j < |ranked|
      ensures ranked[j].vowel.Some? && ranked[j].score.Finite?
    {
      assert ranked[j] in multiset(named);
    }
  }

  /** A list sorted by key, all finite scores, is sorted by score. */
  lemma RankedScores(ranked: seq<VowelMatching>)
    requires forall k :: 0 <= k < |ranked| ==> ranked[k].score.Finite?
    requires SortedBy(ranked, RankKey)
    ensures forall a, b :: 0 <= a < b < |ranked| ==> ScoreLe(ranked[a].score, ranked[b].score)
  {
  }
}
