/** Threshold-run peak finding (GetTopPeaks). The library analyzer and the
    older analyzer of the desktop program carry the same code line for line,
    so one model serves both. */
module Peaks {
  import opened Common

  /** A run of bins above the threshold: [lowIndex, highIndex), the sum of
      its values, and its largest value with the index where it first
      occurs. */
  datatype Peak = Peak(lowIndex: int, highIndex: int, totalValue: real, maxValue: real, maxIndex: int)

  /** The number of thresholds GetTopPeaks tries at most (MAX_ITERATIONS). */
  const MaxIterations: nat := 20

  // ---------------------------------------------------------------------------
  // Runs above a threshold.

  /** [lo, hi) is a run of values above t that is maximal on the left and is
      closed on the right by a value at or below t. A run that reaches the end
      of the spectrum is never closed. */
  ghost predicate ClosedRun(v: seq<real>, t: real, lo: int, hi: int) {
    0 <= lo < hi < |v| && (lo == 0 || v[lo - 1] <= t) && v[hi] <= t
    && forall k :: lo <= k < hi ==> v[k] > t
  }

  /** The first index at or after i whose value is not above t, or |v|. */
  function RunEnd(v: seq<real>, t: real, i: nat): (e: nat)
    requires i <= |v|
    ensures i <= e <= |v|
    ensures forall k :: i <= k < e ==> v[k] > t
    ensures e == |v| || v[e] <= t
    decreases |v| - i
  {
    if i == |v| || v[i] <= t then i else RunEnd(v, t, i + 1)
  }

  /** The largest value of v[lo..hi] with its first index, as the scan keeps
      them: starting from 0 and -1 and replacing on a strictly larger value. */
  function RunMax(v: seq<real>, lo: nat, hi: nat): (real, int)
    requires lo <= hi <= |v|
    decreases hi - lo
  {
    if hi == lo then (0.0, -1)
    else
      var (m, k) := RunMax(v, lo, hi - 1);
      if v[hi - 1] > m then (v[hi - 1], hi - 1) else (m, k)
  }

  /** The peak the scan records for the run [lo, hi). */
  function RunPeak(v: seq<real>, lo: nat, hi: nat): Peak
    requires lo <= hi <= |v|
  {
    Peak(lo, hi, Sum(v[lo..hi]), RunMax(v, lo, hi).0, RunMax(v, lo, hi).1)
  }

  /** The peaks of every closed run starting at or after i, in order; i must
      not be inside a run. */
  function Runs(v: seq<real>, t: real, i: nat): seq<Peak>
    requires i <= |v|
    decreases |v| - i
  {
    if i == |v| then []
    else if v[i] <= t then Runs(v, t, i + 1)
    else
      var e := RunEnd(v, t, i);
      if e == |v| then [] else [RunPeak(v, i, e)] + Runs(v, t, e + 1)
  }

  /** On a run whose values are all positive, RunMax is the largest value
      and the first index where it occurs. */
  lemma {:induction false} RunMaxFirstLargest(v: seq<real>, lo: nat, hi: nat)
    requires lo < hi <= |v|
    requires forall k :: lo <= k < hi ==> v[k] > 0.0
    ensures lo <= RunMax(v, lo, hi).1 < hi
    ensures RunMax(v, lo, hi).0 == v[RunMax(v, lo, hi).1]
    ensures forall k :: lo <= k < hi ==> v[k] <= RunMax(v, lo, hi).0
    ensures forall k :: lo <= k < RunMax(v, lo, hi).1 ==> v[k] < RunMax(v, lo, hi).0
    decreases hi - lo
  {
    if hi - 1 > lo {
      RunMaxFirstLargest(v, lo, hi - 1);
    }
  }

  /** Skipping values above t does not move the end of the run. */
  lemma {:induction false} RunEndSkip(v: seq<real>, t: real, a: nat, b: nat)
    requires a <= b <= |v|
    requires forall k :: a <= k < b ==> v[k] > t
    ensures RunEnd(v, t, a) == RunEnd(v, t, b)
    decreases b - a
  {
    if a < b {
      RunEndSkip(v, t, a + 1, b);
    }
  }

  lemma SumSnoc(v: seq<real>, lo: nat, hi: nat)
    requires lo <= hi < |v|
    ensures Sum(v[lo..hi + 1]) == Sum(v[lo..hi]) + v[hi]
  {
    assert v[lo..hi + 1][..hi - lo] == v[lo..hi];
  }

  /** The variables of the scan: the peaks recorded so far, the start of
      the open run (-1 when none) and its sum, largest value and index. */
  datatype Scan = Scan(peaks: seq<Peak>, start: int, power: real, maxPeak: real, maxIndex: int)

  /** One iteration of the scan at bin i. */
  function ScanStep(v: seq<real>, t: real, s: Scan, i: nat): Scan
    requires i < |v|
  {
    if v[i] > t then
      var start := if s.start == -1 then i else s.start;
      if v[i] > s.maxPeak then Scan(s.peaks, start, s.power + v[i], v[i], i)
      else Scan(s.peaks, start, s.power + v[i], s.maxPeak, s.maxIndex)
    else if s.start != -1 then
      Scan(s.peaks + [Peak(s.start, i, s.power, s.maxPeak, s.maxIndex)], -1, 0.0, 0.0, -1)
    else s
  }

  /** What the scan knows before bin i: with no open run, the recorded peaks
      followed by the runs from i are all runs; with a run open since
      `start`, its sum and largest value so far are kept and the recorded
      peaks followed by the runs from `start` are all runs. */
  ghost predicate ScanInv(v: seq<real>, t: real, s: Scan, i: nat)
    requires i <= |v|
  {
    if s.start == -1 then
      (i == 0 || v[i - 1] <= t) && s.power == 0.0 && s.maxPeak == 0.0 && s.maxIndex == -1
      && s.peaks + Runs(v, t, i) == Runs(v, t, 0)
    else
      0 <= s.start < i && (s.start == 0 || v[s.start - 1] <= t)
      && (forall k :: s.start <= k < i ==> v[k] > t)
      && s.power == Sum(v[s.start..i]) && (s.maxPeak, s.maxIndex) == RunMax(v, s.start, i)
      && s.peaks + Runs(v, t, s.start) == Runs(v, t, 0)
  }

  /** The scan over the spectrum (the inner for-loop of GetTopPeaks): a run
      is recorded when a value at or below the threshold closes it, and a
      run still open at the end is dropped. */
  method ScanRuns(values: seq<real>, threshold: real) returns (peaks: seq<Peak>)
    ensures peaks == Runs(values, threshold, 0)
  {
    var s := Scan([], -1, 0.0, 0.0, -1);
    for i := 0 to |values|
      invariant ScanInv(values, threshold, s, i)
    {
      ScanStepKeeps(values, threshold, s, i);
      s := ScanStep(values, threshold, s, i);
    }
    if s.start != -1 {
      RunsOpenAtEnd(values, threshold, s.start);
    }
    peaks := s.peaks;
  }

  lemma ScanStepKeeps(v: seq<real>, t: real, s: Scan, i: nat)
    requires i < |v| && ScanInv(v, t, s, i)
    ensures ScanInv(v, t, ScanStep(v, t, s, i), i + 1)
  {
    if v[i] > t {
      if s.start == -1 {
        ScanOpens(v, t, s, i);
      } else {
        ScanExtends(v, t, s, i);
      }
    } else if s.start != -1 {
      RunsClosedAt(v, t, s.start, i);
    }
  }

  lemma ScanOpens(v: seq<real>, t: real, s: Scan, i: nat)
    requires i < |v| && ScanInv(v, t, s, i) && v[i] > t && s.start == -1
    ensures ScanInv(v, t, ScanStep(v, t, s, i), i + 1)
  {
    assert v[i..i + 1] == [v[i]];
    assert Sum([v[i]]) == v[i] by {
      assert [v[i]][..0] == [];
    }
  }

  lemma ScanExtends(v: seq<real>, t: real, s: Scan, i: nat)
    requires i < |v| && ScanInv(v, t, s, i) && v[i] > t && s.start != -1
    ensures ScanInv(v, t, ScanStep(v, t, s, i), i + 1)
  {
    SumSnoc(v, s.start, i);
  }

  /** A run from `lo` closed by the value at `i` contributes its peak and the
      listing resumes after i. */
  lemma RunsClosedAt(v: seq<real>, t: real, lo: nat, i: nat)
    requires lo < i < |v| && v[i] <= t && forall k :: lo <= k < i ==> v[k] > t
    ensures Runs(v, t, lo) == [RunPeak(v, lo, i)] + Runs(v, t, i + 1)
  {
    RunEndSkip(v, t, lo, i);
  }

  /** A run still open at the end of the spectrum contributes nothing. */
  lemma RunsOpenAtEnd(v: seq<real>, t: real, lo: nat)
    requires lo < |v| && forall k :: lo <= k < |v| ==> v[k] > t
    ensures Runs(v, t, lo) == []
  {
    RunEndSkip(v, t, lo, |v|);
  }

  /** Every peak of Runs(v, t, i) is the peak of a closed run that starts at
      or after i. */
  lemma {:induction false} RunsAreClosed(v: seq<real>, t: real, i: nat)
    requires i <= |v| && (i == 0 || v[i - 1] <= t)
    ensures forall p :: p in Runs(v, t, i) ==>
              i <= p.lowIndex && ClosedRun(v, t, p.lowIndex, p.highIndex) && p == RunPeak(v, p.lowIndex, p.highIndex)
    decreases |v| - i
  {
    if i < |v| {
      if v[i] <= t {
        RunsAreClosed(v, t, i + 1);
      } else if RunEnd(v, t, i) < |v| {
        RunsAreClosed(v, t, RunEnd(v, t, i) + 1);
      }
    }
  }

  /** Every closed run starting at or after i has its peak in Runs(v, t, i). */
  lemma {:induction false} ClosedRunsListed(v: seq<real>, t: real, i: nat, lo: int, hi: int)
    requires i <= |v| && (i == 0 || v[i - 1] <= t)
    requires i <= lo && ClosedRun(v, t, lo, hi)
    ensures RunPeak(v, lo, hi) in Runs(v, t, i)
    decreases |v| - i
  {
    if v[i] <= t {
      assert Runs(v, t, i) == Runs(v, t, i + 1);
      ClosedRunsListed(v, t, i + 1, lo, hi);
    } else if i == lo {
      RunsClosedAt(v, t, lo, hi);
    } else {
      var e := RunEnd(v, t, i);
      EarlierRunEnds(v, t, i, lo);
      RunsClosedAt(v, t, i, e);
      ClosedRunsListed(v, t, e + 1, lo, hi);
    }
  }

  /** A run that opens before a bin at or below t closes before it. */
  lemma EarlierRunEnds(v: seq<real>, t: real, i: nat, lo: int)
    requires i < lo < |v| && v[lo - 1] <= t
    ensures i <= RunEnd(v, t, i) < lo
  {
  }

  /** The peaks of Runs come in order: each closes before the next opens. */
  lemma {:induction false} RunsOrdered(v: seq<real>, t: real, i: nat)
    requires i <= |v|
    ensures forall a, b :: 0 <= a < b < |Runs(v, t, i)| ==>
              Runs(v, t, i)[a].highIndex < Runs(v, t, i)[b].lowIndex
    ensures forall a :: 0 <= a < |Runs(v, t, i)| ==>
              i <= Runs(v, t, i)[a].lowIndex < Runs(v, t, i)[a].highIndex < |v|
    decreases |v| - i
  {
    if i < |v| {
      if v[i] <= t {
        RunsOrdered(v, t, i + 1);
      } else if RunEnd(v, t, i) < |v| {
        RunsOrdered(v, t, RunEnd(v, t, i) + 1);
      }
    }
  }

  // ---------------------------------------------------------------------------
  // The threshold search.

  /** What the threshold search ends with: the peaks of the last scan, the
      threshold of that scan and how many scans ran. */
  datatype Search = Search(peaks: seq<Peak>, threshold: real, scans: nat)

  /** The while-loop of GetTopPeaks from its `scans`-th iteration on: stop
      when the count hits maxPeaks or the iterations run out, otherwise halve
      the step and move the threshold up (too many peaks) or down (too few). */
  function SearchFrom(v: seq<real>, maxPeaks: int, threshold: real, delta: real, scans: nat): Search
    requires scans < MaxIterations
    decreases MaxIterations - scans
  {
    var found := Runs(v, threshold, 0);
    if |found| == maxPeaks || scans + 1 == MaxIterations then Search(found, threshold, scans + 1)
    else if |found| > maxPeaks then SearchFrom(v, maxPeaks, threshold + delta / 2.0, delta / 2.0, scans + 1)
    else SearchFrom(v, maxPeaks, threshold - delta / 2.0, delta / 2.0, scans + 1)
  }

  /** The search starts halfway between the smallest and the largest value. */
  function StartThreshold(v: seq<real>): real
    requires |v| > 0
  {
    (MaxOf(v) + MinOf(v)) / 2.0
  }

  function Searched(v: seq<real>, maxPeaks: int): Search
    requires |v| > 0
  {
    SearchFrom(v, maxPeaks, StartThreshold(v), StartThreshold(v), 0)
  }

  /** Orders peaks by descending maxValue, keeping the scan order among
      equal values (OrderByDescending). */
  function DescendingMax(p: Peak): real {
    -p.maxValue
  }

  /** GetTopPeaks: the peaks of the last scan of the threshold search, by
      descending maxValue. An empty spectrum makes values.Max() throw. */
  function GetTopPeaks(values: seq<real>, maxPeaks: int): (r: Option<seq<Peak>>)
    ensures r.Some? <==> |values| > 0
    ensures r.Some? ==> SortedBy(r.value, DescendingMax)
    ensures r.Some? ==> multiset(r.value) == multiset(Searched(values, maxPeaks).peaks)
    ensures r.Some? ==> forall v :: WithKey(r.value, DescendingMax, v)
                                    == WithKey(Searched(values, maxPeaks).peaks, DescendingMax, v)
  {
    if |values| == 0 then None
    else
      var peaks := Searched(values, maxPeaks).peaks;
      assert forall v :: WithKey(SortBy(peaks, DescendingMax), DescendingMax, v) == WithKey(peaks, DescendingMax, v) by {
        forall v
          ensures WithKey(SortBy(peaks, DescendingMax), DescendingMax, v) == WithKey(peaks, DescendingMax, v)
        {
          SortByStable(peaks, DescendingMax, v);
        }
      }
      Some(SortBy(peaks, DescendingMax))
  }

  /** The search runs between 1 and 20 scans, stops early only when it finds
      exactly maxPeaks peaks, and keeps the threshold at or above the
      current step, so a non-negative start keeps every threshold
      non-negative. */
  lemma {:induction false} SearchBounds(v: seq<real>, maxPeaks: int, threshold: real, delta: real, scans: nat)
    requires scans < MaxIterations && 0.0 <= delta <= threshold
    ensures scans < SearchFrom(v, maxPeaks, threshold, delta, scans).scans <= MaxIterations
    ensures |SearchFrom(v, maxPeaks, threshold, delta, scans).peaks| != maxPeaks ==>
              SearchFrom(v, maxPeaks, threshold, delta, scans).scans == MaxIterations
    ensures SearchFrom(v, maxPeaks, threshold, delta, scans).threshold >= 0.0
    ensures SearchFrom(v, maxPeaks, threshold, delta, scans).peaks
            == Runs(v, SearchFrom(v, maxPeaks, threshold, delta, scans).threshold, 0)
    decreases MaxIterations - scans
  {
    var found := Runs(v, threshold, 0);
    if |found| == maxPeaks || scans + 1 == MaxIterations {
    } else if |found| > maxPeaks {
      SearchBounds(v, maxPeaks, threshold + delta / 2.0, delta / 2.0, scans + 1);
    } else {
      SearchBounds(v, maxPeaks, threshold - delta / 2.0, delta / 2.0, scans + 1);
    }
  }

  /** Every peak GetTopPeaks returns for a non-negative spectrum is a closed
      run above the final threshold (so never one reaching the last bin),
      with lowIndex <= maxIndex < highIndex, its sum as totalValue and its
      first largest value as maxValue. */
  lemma TopPeaksAreRuns(values: seq<real>, maxPeaks: int)
    requires |values| > 0 && forall i :: 0 <= i < |values| ==> values[i] >= 0.0
    ensures var s := Searched(values, maxPeaks);
            s.threshold >= 0.0 && 1 <= s.scans <= MaxIterations
            && (|GetTopPeaks(values, maxPeaks).value| != maxPeaks ==> s.scans == MaxIterations)
            && forall p :: p in GetTopPeaks(values, maxPeaks).value ==>
                 ClosedRun(values, s.threshold, p.lowIndex, p.highIndex)
                 && p.lowIndex <= p.maxIndex < p.highIndex
                 && p.totalValue == Sum(values[p.lowIndex..p.highIndex])
                 && p.maxValue == values[p.maxIndex]
                 && (forall k :: p.lowIndex <= k < p.highIndex ==> values[k] <= p.maxValue)
                 && (forall k :: p.lowIndex <= k < p.maxIndex ==> values[k] < p.maxValue)
  {
    SearchNonNegative(values, maxPeaks);
    var s := Searched(values, maxPeaks);
    RunsAreClosed(values, s.threshold, 0);
    forall p | p in GetTopPeaks(values, maxPeaks).value
      ensures ClosedRun(values, s.threshold, p.lowIndex, p.highIndex)
              && p.lowIndex <= p.maxIndex < p.highIndex
              && p.totalValue == Sum(values[p.lowIndex..p.highIndex])
              && p.maxValue == values[p.maxIndex]
              && (forall k :: p.lowIndex <= k < p.highIndex ==> values[k] <= p.maxValue)
              && (forall k :: p.lowIndex <= k < p.maxIndex ==> values[k] < p.maxValue)
    {
      assert p in multiset(s.peaks);
      PeakShape(values, s.threshold, p);
    }
  }

  /** On a non-negative spectrum the search starts, and so stays, at a
      non-negative threshold. */
  lemma SearchNonNegative(values: seq<real>, maxPeaks: int)
    requires |values| > 0 && forall i :: 0 <= i < |values| ==> values[i] >= 0.0
    ensures var s := Searched(values, maxPeaks);
            s.threshold >= 0.0 && 1 <= s.scans <= MaxIterations
            && (|s.peaks| != maxPeaks ==> s.scans == MaxIterations)
            && s.peaks == Runs(values, s.threshold, 0)
  {
    var t0 := StartThreshold(values);
    assert MinOf(values) >= 0.0 by {
      var i :| 0 <= i < |values| && values[i] == MinOf(values);
    }
    assert MaxOf(values) >= 0.0 by {
      assert values[0] <= MaxOf(values);
    }
    SearchBounds(values, maxPeaks, t0, t0, 0);
  }

  /** The recorded peak of a closed run above a non-negative threshold. */
  lemma PeakShape(v: seq<real>, t: real, p: Peak)
    requires t >= 0.0 && ClosedRun(v, t, p.lowIndex, p.highIndex) && p == RunPeak(v, p.lowIndex, p.highIndex)
    ensures p.lowIndex <= p.maxIndex < p.highIndex
    ensures p.totalValue == Sum(v[p.lowIndex..p.highIndex])
    ensures p.maxValue == v[p.maxIndex]
    ensures forall k :: p.lowIndex <= k < p.highIndex ==> v[k] <= p.maxValue
    ensures forall k :: p.lowIndex <= k < p.maxIndex ==> v[k] < p.maxValue
  {
    RunMaxFirstLargest(v, p.lowIndex, p.highIndex);
  }

  /** Every closed run above the final threshold is among the peaks
      GetTopPeaks returns. */
  lemma TopPeaksComplete(values: seq<real>, maxPeaks: int, lo: int, hi: int)
    requires |values| > 0 && forall i :: 0 <= i < |values| ==> values[i] >= 0.0
    requires ClosedRun(values, Searched(values, maxPeaks).threshold, lo, hi)
    ensures RunPeak(values, lo, hi) in GetTopPeaks(values, maxPeaks).value
  {
    SearchNonNegative(values, maxPeaks);
    var s := Searched(values, maxPeaks);
    ClosedRunsListed(values, s.threshold, 0, lo, hi);
    assert RunPeak(values, lo, hi) in multiset(GetTopPeaks(values, maxPeaks).value);
  }

  // ---------------------------------------------------------------------------
  // A single spike.

  /** Below a spike at j, nothing rises above t. */
  lemma {:induction false} RunsBeforeSpike(v: seq<real>, t: real, i: nat, j: nat)
    requires i <= j < |v| && forall k :: i <= k < j ==> v[k] <= t
    ensures Runs(v, t, i) == Runs(v, t, j)
    decreases j - i
  {
    if i < j {
      RunsBeforeSpike(v, t, i + 1, j);
    }
  }

  /** After a spike, nothing rises above t. */
  lemma {:induction false} RunsAfterSpike(v: seq<real>, t: real, i: nat)
    requires i <= |v| && forall k :: i <= k < |v| ==> v[k] <= t
    ensures Runs(v, t, i) == []
    decreases |v| - i
  {
    if i < |v| {
      RunsAfterSpike(v, t, i + 1);
    }
  }

  /** A spectrum that is zero except for one positive value x at a bin j
      that is not the last yields exactly the peak (j, j + 1, x, x, j) when
      one peak is asked for: the first threshold x / 2 finds it. */
  lemma SingleSpike(v: seq<real>, j: nat, x: real)
    requires j + 1 < |v| && x > 0.0 && v[j] == x
    requires forall k :: 0 <= k < |v| && k != j ==> v[k] == 0.0
    ensures GetTopPeaks(v, 1) == Some([Peak(j, j + 1, x, x, j)])
  {
    assert MaxOf(v) == x by {
      var i :| 0 <= i < |v| && v[i] == MaxOf(v);
      assert v[j] <= MaxOf(v);
    }
    assert MinOf(v) == 0.0 by {
      var i :| 0 <= i < |v| && v[i] == MinOf(v);
      assert MinOf(v) <= v[j + 1];
    }
    var t := x / 2.0;
    assert StartThreshold(v) == t;
    RunsBeforeSpike(v, t, 0, j);
    RunsAfterSpike(v, t, j + 2);
    assert RunEnd(v, t, j) == j + 1 by {
      assert RunEnd(v, t, j + 1) == j + 1;
    }
    assert v[j..j + 1] == [x];
    assert Sum([x]) == x by {
      assert [x][..0] == [];
    }
    assert RunMax(v, j, j + 1) == (x, j);
    assert RunPeak(v, j, j + 1) == Peak(j, j + 1, x, x, j);
    assert Runs(v, t, 0) == [Peak(j, j + 1, x, x, j)];
  }

  /** One hundred bins, all zero except a 1.0 at bin 10. */
  lemma HundredBinsExample()
    ensures GetTopPeaks(seq(100, i => if i == 10 then 1.0 else 0.0), 1) == Some([Peak(10, 11, 1.0, 1.0, 10)])
  {
    SingleSpike(seq(100, i => if i == 10 then 1.0 else 0.0), 10, 1.0);
  }
}
