/** IdentifyFundamental of the older analyzer: every distance between two
    top peaks (and every peak position) is a candidate fundamental, in bins;
    candidates below 50 Hz are dropped; each remaining candidate collects the
    peaks that sit on one of its harmonics (one per harmonic, the strongest),
    and the candidate with the best score wins, the first one on a tie.
    Math.Log10 and the frequency of one bin are parameters. */
module LegacyFundamental {
  import opened Common
  import opened Peaks

  /** Math.Round: the nearest integer, a half going to the even one. */
  function RoundEven(x: real): (r: int)
    ensures -0.5 <= r as real - x <= 0.5
    ensures (r as real - x == 0.5 || x - r as real == 0.5) ==> r % 2 == 0
  {
    var f := x.Floor;
    var d := x - f as real;
    if d < 0.5 then f else if d > 0.5 then f + 1 else if f % 2 == 0 then f else f + 1
  }

  /** No other integer rounds x: the nearest one, or the even one of two. */
  lemma RoundEvenUnique(x: real, n: int)
    requires -0.5 <= n as real - x <= 0.5
    requires (n as real - x == 0.5 || x - n as real == 0.5) ==> n % 2 == 0
    ensures n == RoundEven(x)
  {
  }

  /** default(Peak): the padding of a zip of unequal lengths. */
  const NoPeak: Peak := Peak(0, 0, 0.0, 0.0, 0)

  /** Element i, or the padding beyond the end. */
  function Nth(s: seq<Peak>, i: nat): Peak {
    if i < |s| then s[i] else NoPeak
  }

  /** Skip(1). */
  function Skip1(s: seq<Peak>): seq<Peak> {
    if |s| == 0 then [] else s[1..]
  }

  /** The top peaks ordered by their low index (a stable sort). */
  function ByLow(top: seq<Peak>): (o: seq<Peak>)
    ensures |o| == |top| && multiset(o) == multiset(top)
  {
    SortBy(top, (p: Peak) => p.lowIndex as real)
  }

  /** |b - a| for the maximum indices of top peak i and of peak i + 1 by
      low index, padded with a default peak at the end. */
  function AbsDiffs(top: seq<Peak>, o: seq<Peak>): (d: seq<real>)
    ensures |d| == |top|
  {
    seq(|top|, i requires 0 <= i < |top| => Abs((Nth(Skip1(o), i).maxIndex - top[i].maxIndex) as real))
  }

  /** b - a for the maximum indices of neighbours by low index, padded with
      a default peak at the end. */
  function Diffs(o: seq<Peak>): (d: seq<real>)
    ensures |d| == |o|
    ensures forall i :: 0 <= i < |o| - 1 ==> d[i] == (o[i + 1].maxIndex - o[i].maxIndex) as real
  {
    seq(|o|, i requires 0 <= i < |o| => (Nth(Skip1(o), i).maxIndex - o[i].maxIndex) as real)
  }

  /** Every peak's maximum index. */
  function Positions(o: seq<Peak>): (d: seq<real>)
    ensures |d| == |o|
  {
    seq(|o|, i requires 0 <= i < |o| => o[i].maxIndex as real)
  }

  /** The candidate fundamentals, in bins: the padded absolute distances
      between top peak i and peak i + 1 by low index, the padded signed
      distances between neighbours by low index, then every peak's maximum
      index. */
  function Candidates(top: seq<Peak>): (c: seq<real>)
    ensures |c| == 3 * |top|
  {
    var o := ByLow(top);
    AbsDiffs(top, o) + Diffs(o) + Positions(o)
  }

  /** Every peak position is a candidate. */
  lemma PositionsAreCandidates(top: seq<Peak>, p: Peak)
    requires p in top
    ensures p.maxIndex as real in Candidates(top)
  {
    var o := ByLow(top);
    assert p in multiset(o);
    var i :| 0 <= i < |o| && o[i] == p;
    assert Positions(o)[i] == p.maxIndex as real;
    assert Candidates(top) == (AbsDiffs(top, o) + Diffs(o)) + Positions(o);
  }

  /** Every distance between neighbours by low index is a candidate. */
  lemma DistancesAreCandidates(top: seq<Peak>, i: nat)
    requires i + 1 < |top|
    ensures (ByLow(top)[i + 1].maxIndex - ByLow(top)[i].maxIndex) as real in Candidates(top)
  {
    var o := ByLow(top);
    assert Diffs(o)[i] in Diffs(o);
    assert Candidates(top) == AbsDiffs(top, o) + (Diffs(o) + Positions(o));
  }

  /** A candidate of at least 50 Hz. */
  predicate Audible(fpi: real, fund: real) {
    Times(fund, fpi) >= 50.0
  }

  lemma AudiblePositive(fpi: real, fund: real)
    requires fpi > 0.0 && Audible(fpi, fund)
    ensures fund > 0.0
  {
  }

  /** The candidates that are kept: those of at least 50 Hz, in order. */
  function Kept(top: seq<Peak>, fpi: real): (k: seq<real>)
    requires fpi > 0.0
    ensures forall i :: 0 <= i < |k| ==> Audible(fpi, k[i]) && k[i] > 0.0
    ensures forall i :: 0 <= i < |Candidates(top)| && Audible(fpi, Candidates(top)[i]) ==> Candidates(top)[i] in k
  {
    var k := Filter(Candidates(top), (a: real) => Audible(fpi, a));
    forall i | 0 <= i < |k|
      ensures k[i] > 0.0
    {
      AudiblePositive(fpi, k[i]);
    }
    k
  }

  /** The harmonic of `fund` peak p's high index rounds to. */
  function Harmonic(p: Peak, fund: real): int
    requires fund > 0.0
  {
    RoundEven(p.highIndex as real / fund)
  }

  /** Peak p sits on a harmonic of `fund`: its harmonic number is positive
      and its range reaches to within the tolerance of the harmonic, the
      larger of 4 log10(fund) and 1% of its high index. */
  predicate Fits(p: Peak, fund: real, log10: real -> real)
    requires fund > 0.0
  {
    var h := Harmonic(p, fund);
    var offset := Times(h as real, fund);
    var tol := MaxR(log10(fund) * 4.0, p.highIndex as real / 100.0);
    h > 0 && p.lowIndex as real - offset <= tol && p.highIndex as real - offset >= -tol
  }

  /** GroupBy(key) followed by taking from each group (in order of first
      appearance) its first element of largest maximum value. */
  function Dedupe(ps: seq<Peak>, key: Peak -> int): seq<Peak>
    decreases |ps|
  {
    if |ps| == 0 then []
    else
      var k := key(ps[0]);
      FilterShorter(ps, (q: Peak) => key(q) != k, 0);
      [MaxBy(Filter(ps, (q: Peak) => key(q) == k), (q: Peak) => q.maxValue)]
        + Dedupe(Filter(ps, (q: Peak) => key(q) != k), key)
  }

  /** The first group and the rest of a grouping. */
  lemma DedupeUnfold(ps: seq<Peak>, key: Peak -> int)
    requires |ps| > 0
    ensures var k := key(ps[0]);
            var group := Filter(ps, (q: Peak) => key(q) == k);
            var rest := Filter(ps, (q: Peak) => key(q) != k);
            |group| > 0 && ps[0] in group && |rest| < |ps|
            && Dedupe(ps, key) == [MaxBy(group, (q: Peak) => q.maxValue)] + Dedupe(rest, key)
            && (forall q :: q in group ==> q in ps && key(q) == k)
            && (forall q :: q in rest ==> q in ps && key(q) != k)
            && (forall q :: q in ps ==> q in group || q in rest)
  {
    var k := key(ps[0]);
    var group := Filter(ps, (q: Peak) => key(q) == k);
    var rest := Filter(ps, (q: Peak) => key(q) != k);
    FilterShorter(ps, (q: Peak) => key(q) != k, 0);
    forall q | q in group
      ensures q in ps && key(q) == k
    {
      assert q in multiset(group);
    }
    forall q | q in rest
      ensures q in ps && key(q) != k
    {
      assert q in multiset(rest);
    }
    forall q | q in ps
      ensures q in group || q in rest
    {
      var j :| 0 <= j < |ps| && ps[j] == q;
    }
  }

  /** The grouping keeps only elements of the input. */
  lemma {:induction false} DedupeMembers(ps: seq<Peak>, key: Peak -> int)
    ensures forall q :: q in Dedupe(ps, key) ==> q in ps
    decreases |ps|
  {
    if |ps| > 0 {
      DedupeUnfold(ps, key);
      var k := key(ps[0]);
      DedupeMembers(Filter(ps, (q: Peak) => key(q) != k), key);
    }
  }

  /** No two elements of r share a key. */
  ghost predicate KeysDistinct(r: seq<Peak>, key: Peak -> int) {
    forall i, j :: 0 <= i < j < |r| ==> key(r[i]) != key(r[j])
  }

  /** The grouping keeps one element per key. */
  lemma {:induction false} DedupeDistinct(ps: seq<Peak>, key: Peak -> int)
    ensures KeysDistinct(Dedupe(ps, key), key)
    decreases |ps|
  {
    if |ps| > 0 {
      var k := key(ps[0]);
      var rest := Filter(ps, (q: Peak) => key(q) != k);
      var tail := Dedupe(rest, key);
      var r := Dedupe(ps, key);
      assert |r| > 0 && r[1..] == tail && key(r[0]) == k by {
        DedupeHead(ps, key);
      }
      assert |rest| < |ps| by {
        FilterShorter(ps, (q: Peak) => key(q) != k, 0);
      }
      DedupeDistinct(rest, key);
      assert forall m :: 0 <= m < |tail| ==> key(tail[m]) != k by {
        DedupeMembers(rest, key);
        forall m | 0 <= m < |tail|
          ensures key(tail[m]) != k
        {
          assert tail[m] in rest;
          assert tail[m] in multiset(rest);
        }
      }
      DistinctCons(r, tail, key);
    }
  }

  /** Keys are distinct when the head's key is not repeated and the tail's
      keys are distinct. */
  lemma DistinctCons(r: seq<Peak>, t: seq<Peak>, key: Peak -> int)
    requires |r| > 0 && r[1..] == t
    requires forall m :: 0 <= m < |t| ==> key(t[m]) != key(r[0])
    requires KeysDistinct(t, key)
    ensures KeysDistinct(r, key)
  {
    forall i, j | 0 <= i < j < |r|
      ensures key(r[i]) != key(r[j])
    {
      assert r[j] == t[j - 1];
      if i > 0 {
        assert r[i] == t[i - 1];
      }
    }
  }

  /** The first kept element has the first key; the rest is kept after it. */
  lemma DedupeHead(ps: seq<Peak>, key: Peak -> int)
    requires |ps| > 0
    ensures var k := key(ps[0]);
            var r := Dedupe(ps, key);
            |r| > 0 && key(r[0]) == k && r[1..] == Dedupe(Filter(ps, (q: Peak) => key(q) != k), key)
  {
    DedupeUnfold(ps, key);
  }

  /** Each key of the input is kept, by an element at least as strong as
      any other of its key, and one no later than any other as strong. */
  lemma {:induction false} DedupeCovers(ps: seq<Peak>, key: Peak -> int, j: nat)
    requires j < |ps|
    ensures var r := Dedupe(ps, key);
            exists i :: 0 <= i < |r| && key(r[i]) == key(ps[j]) && ps[j].maxValue <= r[i].maxValue
                        && (ps[j].maxValue == r[i].maxValue ==> r[i] in ps[..j + 1])
    decreases |ps|
  {
    var p := ps[j];
    var k := key(ps[0]);
    if key(p) == k {
      HeadCovers(ps, key, j);
    } else {
      var rest := Filter(ps, (q: Peak) => key(q) != k);
      var jj := RestHolds(ps, key, j);
      FilterShorter(ps, (q: Peak) => key(q) != k, 0);
      DedupeCovers(rest, key, jj);
      var tail := Dedupe(rest, key);
      var i :| 0 <= i < |tail| && key(tail[i]) == key(p) && p.maxValue <= tail[i].maxValue
               && (p.maxValue == tail[i].maxValue ==> tail[i] in rest[..jj + 1]);
      RestShift(ps, key, i);
      var r := Dedupe(ps, key);
      assert r[i + 1] == tail[i];
      if p.maxValue == tail[i].maxValue {
        var m :| 0 <= m <= jj && rest[m] == tail[i];
      }
    }
  }

  /** An element of the first key is covered by the first kept element,
      which comes no later when it is no stronger. */
  lemma HeadCovers(ps: seq<Peak>, key: Peak -> int, j: nat)
    requires j < |ps| && key(ps[j]) == key(ps[0])
    ensures var r := Dedupe(ps, key);
            |r| > 0 && key(r[0]) == key(ps[j]) && ps[j].maxValue <= r[0].maxValue
            && (ps[j].maxValue == r[0].maxValue ==> r[0] in ps[..j + 1])
  {
    DedupeUnfold(ps, key);
    var k := key(ps[0]);
    var group := Filter(ps, (q: Peak) => key(q) == k);
    assert ps[j] in group;
    var g :| 0 <= g < |group| && group[g] == ps[j];
    FilterMaxByAt(ps, (q: Peak) => key(q) == k, (q: Peak) => q.maxValue, j);
  }

  /** An element of another key is in the rest, at an index up to which
      the rest draws only on the input up to the element. */
  lemma RestHolds(ps: seq<Peak>, key: Peak -> int, j: nat) returns (jj: nat)
    requires j < |ps| && key(ps[j]) != key(ps[0])
    ensures var k := key(ps[0]);
            var rest := Filter(ps, (q: Peak) => key(q) != k);
            jj < |rest| && rest[jj] == ps[j] && forall m :: 0 <= m <= jj ==> rest[m] in ps[..j + 1]
  {
    var k := key(ps[0]);
    jj := FilterIndex(ps, (q: Peak) => key(q) != k, j);
  }

  /** The rest's kept elements follow the first kept element. */
  lemma RestShift(ps: seq<Peak>, key: Peak -> int, i: nat)
    requires |ps| > 0
    requires var k := key(ps[0]);
             i < |Dedupe(Filter(ps, (q: Peak) => key(q) != k), key)|
    ensures var k := key(ps[0]);
            var tail := Dedupe(Filter(ps, (q: Peak) => key(q) != k), key);
            i + 1 < |Dedupe(ps, key)| && Dedupe(ps, key)[i + 1] == tail[i]
  {
    DedupeUnfold(ps, key);
  }

  /** The peaks by low index that pass `fit`, one per key. */
  function Select(top: seq<Peak>, fit: Peak -> bool, key: Peak -> int): seq<Peak> {
    Dedupe(Filter(ByLow(top), fit), key)
  }

  /** The kept elements of a filtered grouping pass the filter. */
  lemma DedupeFiltered(o: seq<Peak>, fit: Peak -> bool, key: Peak -> int)
    ensures forall q :: q in Dedupe(Filter(o, fit), key) ==> q in o && fit(q)
  {
    var fits := Filter(o, fit);
    DedupeMembers(fits, key);
    forall q | q in fits
      ensures q in o && fit(q)
    {
      assert q in multiset(fits);
    }
  }

  /** The peaks by low index are the top peaks. */
  lemma ByLowMembers(top: seq<Peak>)
    ensures forall q :: q in ByLow(top) <==> q in top
  {
    var o := ByLow(top);
    forall q
      ensures q in o <==> q in top
    {
      assert q in o <==> q in multiset(o);
    }
  }

  /** The selected peaks are top peaks that pass, one per key. */
  lemma SelectFit(top: seq<Peak>, fit: Peak -> bool, key: Peak -> int)
    ensures var m := Select(top, fit, key);
            (forall q :: q in m ==> q in top && fit(q))
            && (forall i, j :: 0 <= i < j < |m| ==> key(m[i]) != key(m[j]))
  {
    assert Select(top, fit, key) == Dedupe(Filter(ByLow(top), fit), key);
    DedupeFiltered(ByLow(top), fit, key);
    ByLowMembers(top);
    DedupeDistinct(Filter(ByLow(top), fit), key);
  }

  /** Every passing top peak's key is represented by a selected peak at
      least as strong. */
  lemma SelectCovers(top: seq<Peak>, fit: Peak -> bool, key: Peak -> int, p: Peak)
    requires p in top && fit(p)
    ensures var m := Select(top, fit, key);
            exists i :: 0 <= i < |m| && key(m[i]) == key(p) && p.maxValue <= m[i].maxValue
  {
    assert Select(top, fit, key) == Dedupe(Filter(ByLow(top), fit), key);
    ByLowMembers(top);
    FilterKeeps(ByLow(top), fit, p);
    var o := Filter(ByLow(top), fit);
    var j :| 0 <= j < |o| && o[j] == p;
    DedupeCovers(o, key, j);
  }

  lemma FilterKeeps(o: seq<Peak>, fit: Peak -> bool, p: Peak)
    requires p in o && fit(p)
    ensures p in Filter(o, fit)
  {
  }

  /** The peaks candidate `fund` collects: the fitting peaks by low index,
      one per harmonic number. */
  function Matched(top: seq<Peak>, fund: real, log10: real -> real): seq<Peak>
    requires fund > 0.0
  {
    Select(top, (p: Peak) => Fits(p, fund, log10), (p: Peak) => Harmonic(p, fund))
  }

  /** The collected peaks are top peaks that fit, no two on the same
      harmonic. */
  lemma MatchedFit(top: seq<Peak>, fund: real, log10: real -> real)
    requires fund > 0.0
    ensures var m := Matched(top, fund, log10);
            (forall q :: q in m ==> q in top && Fits(q, fund, log10))
            && (forall i, j :: 0 <= i < j < |m| ==> Harmonic(m[i], fund) != Harmonic(m[j], fund))
  {
    var fit := (p: Peak) => Fits(p, fund, log10);
    var key := (p: Peak) => Harmonic(p, fund);
    var m := Select(top, fit, key);
    assert Matched(top, fund, log10) == m;
    SelectFit(top, fit, key);
    forall i, j | 0 <= i < j < |m|
      ensures Harmonic(m[i], fund) != Harmonic(m[j], fund)
    {
      assert key(m[i]) != key(m[j]);
    }
    forall q | q in m
      ensures q in top && Fits(q, fund, log10)
    {
      assert fit(q);
    }
  }

  /** Every fitting top peak's harmonic is represented by a collected peak
      at least as strong. */
  lemma MatchedCovers(top: seq<Peak>, fund: real, log10: real -> real, p: Peak)
    requires fund > 0.0 && p in top && Fits(p, fund, log10)
    ensures var m := Matched(top, fund, log10);
            exists i :: 0 <= i < |m| && Harmonic(m[i], fund) == Harmonic(p, fund) && p.maxValue <= m[i].maxValue
  {
    var fit := (p: Peak) => Fits(p, fund, log10);
    var key := (p: Peak) => Harmonic(p, fund);
    var m := Select(top, fit, key);
    assert Matched(top, fund, log10) == m;
    SelectCovers(top, fit, key, p);
    var i :| 0 <= i < |m| && key(m[i]) == key(p) && p.maxValue <= m[i].maxValue;
    assert Harmonic(m[i], fund) == Harmonic(p, fund);
  }

  /** The product of max(1, maxValue) over the peaks, from the left. */
  function Product(ps: seq<Peak>): (x: real)
    ensures x >= 1.0
  {
    if |ps| == 0 then 1.0
    else
      var init := Product(ps[..|ps| - 1]);
      AtLeastOne(init, MaxR(1.0, ps[|ps| - 1].maxValue));
      Times(init, MaxR(1.0, ps[|ps| - 1].maxValue))
  }

  lemma AtLeastOne(a: real, b: real)
    requires a >= 1.0 && b >= 1.0
    ensures Times(a, b) >= 1.0
  {
    assert Times(a, b) - 1.0 == Times(a - 1.0, b) + (b - 1.0);
  }

  /** A candidate's score: the number of peaks it collects, times their
      product, times the candidate itself. */
  function Score(m: seq<Peak>, fund: real): real {
    Times(Times(|m| as real, Product(m)), fund)
  }

  /** A candidate that collects a peak scores above the initial best of 0. */
  lemma ScorePositive(m: seq<Peak>, fund: real)
    requires |m| > 0 && fund > 0.0
    ensures Score(m, fund) > 0.0
  {
    AtLeastOne(|m| as real, Product(m));
  }

  /** The refined frequency: the mean over the collected peaks of the
      maximum index over its rounded harmonic number, in Hz. None when a
      harmonic number rounds to 0: the division gives an infinity or NaN. */
  function RefinedFreq(m: seq<Peak>, fund: real, fpi: real): (r: Option<real>)
    requires fund > 0.0 && |m| > 0
    ensures r.None? <==> exists i :: 0 <= i < |m| && RoundEven(m[i].maxIndex as real / fund) == 0
  {
    if exists i :: 0 <= i < |m| && RoundEven(m[i].maxIndex as real / fund) == 0 then None
    else
      Some(Times(Mean(seq(|m|, i requires 0 <= i < |m| =>
                        m[i].maxIndex as real / RoundEven(m[i].maxIndex as real / fund) as real)), fpi))
  }

  /** The best so far: its score, the frequency returned and the peaks
      reported (null before any candidate collects a peak). */
  datatype Choice = Choice(score: real, freq: Option<real>, peaks: Option<seq<Peak>>)

  /** Before the loop: score 0, frequency -1, no peaks. */
  const Unchosen: Choice := Choice(0.0, Some(-1.0), None)

  /** The outcome of candidate fund. */
  function Evaluate(top: seq<Peak>, fund: real, fpi: real, log10: real -> real): (c: Choice)
    requires fund > 0.0
    ensures c.peaks == Some(Matched(top, fund, log10))
  {
    var m := Matched(top, fund, log10);
    Choice(Score(m, fund), if |m| > 0 then RefinedFreq(m, fund, fpi) else None, Some(m))
  }

  /** What the loop learns from each candidate: its outcome when it
      collects a peak, nothing otherwise. */
  function Outcomes(top: seq<Peak>, cands: seq<real>, fpi: real, log10: real -> real): (outs: seq<Option<Choice>>)
    requires forall i :: 0 <= i < |cands| ==> cands[i] > 0.0
    ensures |outs| == |cands|
    ensures forall i :: 0 <= i < |cands| ==>
              (outs[i].Some? <==> |Matched(top, cands[i], log10)| > 0)
              && (outs[i].Some? ==> outs[i].value == Evaluate(top, cands[i], fpi, log10))
  {
    seq(|cands|, i requires 0 <= i < |cands| =>
      if |Matched(top, cands[i], log10)| > 0 then Some(Evaluate(top, cands[i], fpi, log10)) else None)
  }

  /** The loop over the candidates: a candidate replaces the best only when
      it collects a peak and scores strictly more. */
  function Pick(outs: seq<Option<Choice>>, best: Choice): Choice
    decreases |outs|
  {
    if |outs| == 0 then best
    else
      var next := if outs[0].Some? && outs[0].value.score > best.score then outs[0].value else best;
      Pick(outs[1..], next)
  }

  /** Outcome i wins: there is one, none scores more, every earlier one
      scores less. */
  ghost predicate FirstBest(outs: seq<Option<Choice>>, i: int) {
    0 <= i < |outs| && outs[i].Some?
    && (forall j :: 0 <= j < |outs| && outs[j].Some? ==> outs[j].value.score <= outs[i].value.score)
    && (forall j :: 0 <= j < i && outs[j].Some? ==> outs[j].value.score < outs[i].value.score)
  }

  /** Nothing improves on the best: the loop keeps it. */
  lemma {:induction false} PickKeeps(outs: seq<Option<Choice>>, best: Choice)
    requires forall j :: 0 <= j < |outs| && outs[j].Some? ==> outs[j].value.score <= best.score
    ensures Pick(outs, best) == best
  {
    if |outs| > 0 {
      PickKeeps(outs[1..], best);
    }
  }

  /** The winner, when it improves on the best, is what the loop ends with. */
  lemma {:induction false} PickWinner(outs: seq<Option<Choice>>, best: Choice, i: int)
    requires FirstBest(outs, i) && outs[i].value.score > best.score
    ensures Pick(outs, best) == outs[i].value
  {
    var rest := outs[1..];
    var next := if outs[0].Some? && outs[0].value.score > best.score then outs[0].value else best;
    if i == 0 {
      PickKeeps(rest, next);
    } else {
      assert FirstBest(rest, i - 1);
      PickWinner(rest, next, i - 1);
    }
  }

  /** Some outcome wins as soon as there is one. */
  lemma WinnerExists(outs: seq<Option<Choice>>, j: int)
    requires 0 <= j < |outs| && outs[j].Some?
    requires forall k :: 0 <= k < |outs| && outs[k].Some? ==> outs[k].value.score > 0.0
    ensures exists i :: FirstBest(outs, i)
  {
    var key := (o: Option<Choice>) => if o.Some? then o.value.score else 0.0;
    var i := MaxByIndex(outs, key);
    assert key(outs[i]) >= key(outs[j]) > 0.0;
    assert FirstBest(outs, i);
  }

  /** Every outcome scores above 0. */
  lemma OutcomesPositive(top: seq<Peak>, cands: seq<real>, fpi: real, log10: real -> real)
    requires forall i :: 0 <= i < |cands| ==> cands[i] > 0.0
    ensures var outs := Outcomes(top, cands, fpi, log10);
            forall k :: 0 <= k < |outs| && outs[k].Some? ==> outs[k].value.score > 0.0 && outs[k].value.peaks.Some?
  {
    var outs := Outcomes(top, cands, fpi, log10);
    forall k | 0 <= k < |outs| && outs[k].Some?
      ensures outs[k].value.score > 0.0 && outs[k].value.peaks.Some?
    {
      ScorePositive(Matched(top, cands[k], log10), cands[k]);
    }
  }

  /** IdentifyFundamental: the refined frequency of the winning candidate
      (None when it is not a finite number) and the peaks it collected; -1
      and null when no candidate of at least 50 Hz collects a peak. */
  function IdentifyFundamental(top: seq<Peak>, fpi: real, log10: real -> real): (r: (Option<real>, Option<seq<Peak>>))
    requires fpi > 0.0
  {
    var k := Kept(top, fpi);
    var c := Pick(Outcomes(top, k, fpi, log10), Unchosen);
    (c.freq, c.peaks)
  }

  /** The loop from the initial best over outcomes that all score above
      0: the initial best exactly when there is no outcome, otherwise the
      first outcome of the best score. */
  lemma PickFromStart(outs: seq<Option<Choice>>)
    requires forall k :: 0 <= k < |outs| && outs[k].Some? ==> outs[k].value.score > 0.0
    ensures var c := Pick(outs, Unchosen);
            ((forall i :: 0 <= i < |outs| ==> outs[i].None?) ==> c == Unchosen)
            && ((exists i :: 0 <= i < |outs| && outs[i].Some?) ==>
                  exists i :: FirstBest(outs, i) && c == outs[i].value)
  {
    if j :| 0 <= j < |outs| && outs[j].Some? {
      WinnerExists(outs, j);
      var i :| FirstBest(outs, i);
      PickWinner(outs, Unchosen, i);
    } else {
      PickKeeps(outs, Unchosen);
    }
  }

  /** The loop from the initial best over outcomes that all score above 0
      and carry peaks: no peaks and -1 exactly when there is no outcome,
      otherwise the first outcome of the best score. */
  lemma PickResult(outs: seq<Option<Choice>>)
    requires forall k :: 0 <= k < |outs| && outs[k].Some? ==> outs[k].value.score > 0.0 && outs[k].value.peaks.Some?
    ensures var c := Pick(outs, Unchosen);
            ((c.freq, c.peaks) == (Some(-1.0), None) <==> forall i :: 0 <= i < |outs| ==> outs[i].None?)
            && (c.peaks.None? ==> c.freq == Some(-1.0))
            && (c.peaks.Some? ==> exists i :: FirstBest(outs, i) && c == outs[i].value)
  {
    PickFromStart(outs);
  }

  /** The result of IdentifyFundamental: -1 and null exactly when no kept
      candidate collects a peak; otherwise the frequency and peaks of the
      first candidate of the best score. */
  lemma FundamentalChoice(top: seq<Peak>, fpi: real, log10: real -> real)
    requires fpi > 0.0
    ensures var r := IdentifyFundamental(top, fpi, log10);
            var outs := Outcomes(top, Kept(top, fpi), fpi, log10);
            (r == (Some(-1.0), None) <==> forall i :: 0 <= i < |outs| ==> outs[i].None?)
            && (r.1.None? ==> r.0 == Some(-1.0))
            && (r.1.Some? ==> exists i :: FirstBest(outs, i) && r == (outs[i].value.freq, outs[i].value.peaks))
  {
    var k := Kept(top, fpi);
    var outs := Outcomes(top, k, fpi, log10);
    var c := Pick(outs, Unchosen);
    assert IdentifyFundamental(top, fpi, log10) == (c.freq, c.peaks);
    OutcomesPositive(top, k, fpi, log10);
    PickResult(outs);
  }
}
