/** The median smoothers of the current analyzer: the fundamental and the
    three formants are each reported as a median over a short history
    window, so that a single outlier does not move the display. */
module Smoothing {
  import opened Common
  import opened Vowels

  /** The program's median convention over k sorted entries: entry k/2,
      averaged with entry k/2 - 1 when k is odd and above 1. (For an even
      k this is the upper middle entry, not the mean of the two middle
      ones.) */
  function MedianIndex(k: nat): (r: (nat, nat))
    requires k > 0
    ensures r.0 < k && r.1 < k
  {
    if k > 1 && k % 2 == 1 then (k / 2, k / 2 - 1) else (k / 2, k / 2)
  }

  /** The entries the fundamental smoother ranks: the non-zero ones
      (a 0 marks an empty slot). */
  function Observed(w: seq<real>): seq<real> {
    Filter(w, (x: real) => x != 0.0)
  }

  /** The sort key of the fundamental smoother: the value itself. */
  function Itself(x: real): real {
    x
  }

  /** The smoothed value of a history window: the median of its non-zero
      entries (of [-1] when there are none), with a median of 0 read as -1. */
  function SmoothedOf(w: seq<real>): real {
    var nz := Observed(w);
    var m := MedianValue(SortBy(if |nz| == 0 then [-1.0] else nz, Itself));
    if m == 0.0 then -1.0 else m
  }

  /** The median of some values in ascending order, by the convention of
      MedianIndex. */
  function MedianValue(sorted: seq<real>): real
    requires |sorted| > 0
  {
    var ij := MedianIndex(|sorted|);
    if ij.0 == ij.1 then sorted[ij.0] else (sorted[ij.0] + sorted[ij.1]) / 2.0
  }

  /** MakeSmoothedFundamental: a new value other than -1 is shifted into
      the window (the oldest entry drops out), -1 leaves it as it is; the
      result is the window's smoothed value. */
  function MakeSmoothedFundamental(newFundamental: real, window: seq<real>): (r: (real, seq<real>))
    requires |window| > 0
    ensures newFundamental == -1.0 ==> r.1 == window
    ensures newFundamental != -1.0 ==>
              |r.1| == |window| && r.1[|window| - 1] == newFundamental
              && forall i :: 0 <= i < |window| - 1 ==> r.1[i] == window[i + 1]
  {
    var w := if newFundamental != -1.0 then ShiftIn(window, newFundamental) else window;
    (SmoothedOf(w), w)
  }

  /** Each entry of a sorted copy of `s` is an entry of `s`. */
  lemma SortedEntries(s: seq<real>, sorted: seq<real>)
    requires multiset(sorted) == multiset(s)
    ensures forall i :: 0 <= i < |sorted| ==> sorted[i] in s
  {
    forall i | 0 <= i < |sorted|
      ensures sorted[i] in s
    {
      assert sorted[i] in multiset(sorted);
    }
  }

  /** The non-zero entries are exactly the entries of the window that are
      not 0. */
  lemma ObservedEntries(w: seq<real>)
    ensures forall x :: x in Observed(w) <==> x in w && x != 0.0
  {
    var nz := Observed(w);
    forall x | x in nz
      ensures x in w
    {
      assert x in multiset(nz);
    }
  }

  /** An all-zero window smooths to -1. */
  lemma SmoothedEmpty(w: seq<real>)
    requires forall i :: 0 <= i < |w| ==> w[i] == 0.0
    ensures SmoothedOf(w) == -1.0
  {
    FilterNone(w, (x: real) => x != 0.0);
    var sorted := SortBy([-1.0], Itself);
    assert multiset(sorted) == multiset{-1.0};
    assert sorted[0] in multiset(sorted);
  }

  /** The smoothed value is -1 or the mean of two (possibly the same)
      non-zero entries of the window. */
  lemma SmoothedIsMidpoint(w: seq<real>)
    requires exists i :: 0 <= i < |w| && w[i] != 0.0
    ensures var r := SmoothedOf(w);
            r == -1.0 || exists a, b :: 0 <= a < |w| && 0 <= b < |w| && w[a] != 0.0 && w[b] != 0.0
                                        && r == (w[a] + w[b]) / 2.0
  {
    ObservedEntries(w);
    var nz := Observed(w);
    var i :| 0 <= i < |w| && w[i] != 0.0;
    assert w[i] in nz;
    var sorted := SortBy(nz, Itself);
    SortedEntries(nz, sorted);
    var ij := MedianIndex(|sorted|);
    assert sorted[ij.0] in w && sorted[ij.1] in w;
    var a :| 0 <= a < |w| && w[a] == sorted[ij.0];
    var b :| 0 <= b < |w| && w[b] == sorted[ij.1];
    assert w[a] != 0.0 && w[b] != 0.0;
    if ij.0 == ij.1 {
      assert sorted[ij.0] == (w[a] + w[a]) / 2.0;
    }
  }

  /** When the window holds fundamentals (no negative entry) and at least
      one of them, the smoothed value is positive and lies between the
      smallest and the largest of them. */
  lemma SmoothedWithin(w: seq<real>, lo: real, hi: real)
    requires forall i :: 0 <= i < |w| ==> w[i] >= 0.0
    requires exists i :: 0 <= i < |w| && w[i] != 0.0
    requires forall i :: 0 <= i < |w| && w[i] != 0.0 ==> lo <= w[i] <= hi
    ensures SmoothedOf(w) > 0.0
    ensures lo <= SmoothedOf(w) <= hi
  {
    var r := SmoothedOf(w);
    SmoothedIsMidpoint(w);
    ObservedEntries(w);
    var nz := Observed(w);
    var sorted := SortBy(nz, Itself);
    SortedEntries(nz, sorted);
    var ij := MedianIndex(|sorted|);
    assert sorted[ij.0] in w && sorted[ij.1] in w;
    assert sorted[ij.0] > 0.0 && sorted[ij.1] > 0.0;
    assert r != -1.0;
  }

  /** A window whose non-zero entries all repeat one value smooths to it. */
  lemma SmoothedRepeated(w: seq<real>, x: real)
    requires x != 0.0
    requires exists i :: 0 <= i < |w| && w[i] == x
    requires forall i :: 0 <= i < |w| ==> w[i] == 0.0 || w[i] == x
    ensures SmoothedOf(w) == x
  {
    ObservedEntries(w);
    var nz := Observed(w);
    var i :| 0 <= i < |w| && w[i] == x;
    assert w[i] in nz;
    var sorted := SortBy(nz, Itself);
    SortedEntries(nz, sorted);
    var ij := MedianIndex(|sorted|);
    assert sorted[ij.0] in w && sorted[ij.1] in w;
    assert sorted[ij.0] == x && sorted[ij.1] == x;
  }

  /** The median rule, stated by rank: with k non-zero entries, the
      smoothed value is the entry of rank k/2 in ascending order, averaged
      with the entry of rank k/2 - 1 when k is odd and above 1; a median of
      0 reads as -1. */
  lemma SmoothedIsMedian(w: seq<real>, a: real, b: real)
    requires var k := |Observed(w)|;
             k > 0 && AtRank(Observed(w), Itself, k / 2, a)
             && (k > 1 && k % 2 == 1 ==> AtRank(Observed(w), Itself, k / 2 - 1, b))
    ensures var k := |Observed(w)|;
            var m := if k > 1 && k % 2 == 1 then (a + b) / 2.0 else a;
            SmoothedOf(w) == if m == 0.0 then -1.0 else m
  {
    MedianValueByRank(Observed(w), a, b);
    SmoothedOfSorted(w);
  }

  /** The median of some values, read off their ranks. */
  lemma MedianValueByRank(nz: seq<real>, a: real, b: real)
    requires var k := |nz|;
             k > 0 && AtRank(nz, Itself, k / 2, a)
             && (k > 1 && k % 2 == 1 ==> AtRank(nz, Itself, k / 2 - 1, b))
    ensures var k := |nz|;
            MedianValue(SortBy(nz, Itself)) == if k > 1 && k % 2 == 1 then (a + b) / 2.0 else a
  {
    var k := |nz|;
    SortedAtRank(nz, k / 2, a);
    if k > 1 && k % 2 == 1 {
      SortedAtRank(nz, k / 2 - 1, b);
      MedianValueAt(SortBy(nz, Itself), a, b);
    } else {
      MedianValueAt(SortBy(nz, Itself), a, a);
    }
  }

  /** The value of rank p is the one at position p of the ascending order. */
  lemma SortedAtRank(nz: seq<real>, p: nat, x: real)
    requires p < |nz| && AtRank(nz, Itself, p, x)
    ensures SortBy(nz, Itself)[p] == x
  {
    SortByAtRank(nz, Itself, p, x);
    assert Itself(SortBy(nz, Itself)[p]) == Itself(x);
  }

  /** The median of some values in ascending order, from its middle entries. */
  lemma MedianValueAt(sorted: seq<real>, a: real, b: real)
    requires var k := |sorted|;
             k > 0 && sorted[k / 2] == a && (k > 1 && k % 2 == 1 ==> sorted[k / 2 - 1] == b)
    ensures var k := |sorted|;
            MedianValue(sorted) == if k > 1 && k % 2 == 1 then (a + b) / 2.0 else a
  {
  }

  /** The smoothed value of a window with observations is the median of
      their ascending order, with 0 read as -1. */
  lemma SmoothedOfSorted(w: seq<real>)
    requires |Observed(w)| > 0
    ensures var m := MedianValue(SortBy(Observed(w), Itself));
            SmoothedOf(w) == if m == 0.0 then -1.0 else m
  {
    var nz := Observed(w);
    assert (if |nz| == 0 then [-1.0] else nz) == nz;
  }

  /** A history of formant triples: a missing entry (null) or three formants. */
  ghost predicate FormantWindow(w: seq<Option<seq<Formant>>>) {
    forall k :: 0 <= k < |w| && w[k].Some? ==> |w[k].value| == 3
  }

  /** Slot i of every recorded triple whose frequency is not 0, oldest first. */
  function Candidates(w: seq<Option<seq<Formant>>>, i: nat): (c: seq<Formant>)
    requires i < 3 && FormantWindow(w)
    ensures forall j :: 0 <= j < |c| ==> c[j].freq != 0.0
    ensures forall f :: f in c <==> exists k :: 0 <= k < |w| && w[k].Some? && w[k].value[i] == f && f.freq != 0.0
  {
    if |w| == 0 then []
    else
      var init := Candidates(w[..|w| - 1], i);
      var last := w[|w| - 1];
      var r := if last.Some? && last.value[i].freq != 0.0 then init + [last.value[i]] else init;
      assert forall f :: f in init <==> exists k :: 0 <= k < |w| - 1 && w[k].Some? && w[k].value[i] == f && f.freq != 0.0
        by { assert forall k :: 0 <= k < |w| - 1 ==> w[..|w| - 1][k] == w[k]; }
      r
  }

  /** The mean of two formants, field by field. */
  function Midpoint(a: Formant, b: Formant): Formant {
    Formant((a.freq + b.freq) / 2.0, (a.value + b.value) / 2.0)
  }

  /** The smoothed formant of slot i: the median by frequency of the
      candidates, of [(0, 0)] when there are none. */
  function SmoothSlot(w: seq<Option<seq<Formant>>>, i: nat): Formant
    requires i < 3 && FormantWindow(w)
  {
    MedianFormant(Candidates(w, i))
  }

  /** The median by frequency of some formants, of [(0, 0)] when there are
      none. */
  function MedianFormant(c: seq<Formant>): Formant {
    MedianOfSorted(SortBy(if |c| == 0 then [NoFormant] else c, FreqOf))
  }

  /** The median of some formants in order of frequency, by the convention
      of MedianIndex. */
  function MedianOfSorted(sorted: seq<Formant>): Formant
    requires |sorted| > 0
  {
    var ij := MedianIndex(|sorted|);
    if ij.0 == ij.1 then sorted[ij.0] else Midpoint(sorted[ij.0], sorted[ij.1])
  }

  /** The sort key of the formant smoother. */
  function FreqOf(f: Formant): real {
    f.freq
  }

  /** The median rule of a formant slot, stated by rank: with k candidates,
      the candidate of stable rank k/2 by frequency, or its midpoint with
      the candidate of stable rank k/2 - 1 when k is odd and above 1. */
  lemma SlotIsMedian(w: seq<Option<seq<Formant>>>, i: nat, a: Formant, b: Formant)
    requires i < 3 && FormantWindow(w)
    requires var c := Candidates(w, i); var k := |c|;
             k > 0 && AtStableRank(c, FreqOf, k / 2, a)
             && (k > 1 && k % 2 == 1 ==> AtStableRank(c, FreqOf, k / 2 - 1, b))
    ensures var k := |Candidates(w, i)|;
            SmoothSlot(w, i) == if k > 1 && k % 2 == 1 then Midpoint(a, b) else a
  {
    MedianFormantByRank(Candidates(w, i), a, b);
  }

  lemma MedianFormantByRank(c: seq<Formant>, a: Formant, b: Formant)
    requires var k := |c|;
             k > 0 && AtStableRank(c, FreqOf, k / 2, a)
             && (k > 1 && k % 2 == 1 ==> AtStableRank(c, FreqOf, k / 2 - 1, b))
    ensures MedianFormant(c) == if |c| > 1 && |c| % 2 == 1 then Midpoint(a, b) else a
  {
    var k := |c|;
    SortByAtStableRank(c, FreqOf, k / 2, a);
    if k > 1 && k % 2 == 1 {
      SortByAtStableRank(c, FreqOf, k / 2 - 1, b);
      MedianOfSortedAt(SortBy(c, FreqOf), a, b);
    } else {
      MedianOfSortedAt(SortBy(c, FreqOf), a, a);
    }
    MedianFormantSorted(c);
  }

  /** The median of some formants in order of frequency, from its middle
      entries. */
  lemma MedianOfSortedAt(sorted: seq<Formant>, a: Formant, b: Formant)
    requires var k := |sorted|;
             k > 0 && sorted[k / 2] == a && (k > 1 && k % 2 == 1 ==> sorted[k / 2 - 1] == b)
    ensures var k := |sorted|;
            MedianOfSorted(sorted) == if k > 1 && k % 2 == 1 then Midpoint(a, b) else a
  {
  }

  /** The median of some formants is the median of their order by frequency. */
  lemma MedianFormantSorted(c: seq<Formant>)
    requires |c| > 0
    ensures MedianFormant(c) == MedianOfSorted(SortBy(c, FreqOf))
  {
    assert (if |c| == 0 then [NoFormant] else c) == c;
  }

  /** The median of some formants is one of them or the midpoint of two. */
  lemma MedianIsMidpoint(c: seq<Formant>)
    requires |c| > 0
    ensures exists a, b :: 0 <= a < |c| && 0 <= b < |c|
                           && (MedianFormant(c) == c[a] || MedianFormant(c) == Midpoint(c[a], c[b]))
  {
    var sorted := SortBy(c, FreqOf);
    var ij := MedianIndex(|sorted|);
    assert sorted[ij.0] in multiset(sorted) && sorted[ij.1] in multiset(sorted);
    var a :| 0 <= a < |c| && c[a] == sorted[ij.0];
    var b :| 0 <= b < |c| && c[b] == sorted[ij.1];
    assert MedianFormant(c) == c[a] || MedianFormant(c) == Midpoint(c[a], c[b]);
  }

  /** MakeSmoothedFormants123: the new triple is always shifted in; each
      slot is then smoothed on its own. */
  function MakeSmoothedFormants123(newFormants: seq<Formant>, window: seq<Option<seq<Formant>>>)
    : (r: (seq<Formant>, seq<Option<seq<Formant>>>))
    requires |newFormants| == 3 && |window| > 0 && FormantWindow(window)
    ensures |r.1| == |window| && r.1[|window| - 1] == Some(newFormants)
    ensures forall i :: 0 <= i < |window| - 1 ==> r.1[i] == window[i + 1]
    ensures FormantWindow(r.1) && |r.0| == 3
  {
    var w := ShiftIn(window, Some(newFormants));
    ([SmoothSlot(w, 0), SmoothSlot(w, 1), SmoothSlot(w, 2)], w)
  }

  /** A slot with no recorded non-zero frequency smooths to (0, 0). */
  lemma SlotEmpty(w: seq<Option<seq<Formant>>>, i: nat)
    requires i < 3 && FormantWindow(w)
    requires forall k :: 0 <= k < |w| && w[k].Some? ==> w[k].value[i].freq == 0.0
    ensures SmoothSlot(w, i) == NoFormant
  {
    NoCandidates(w, i);
    var sorted := SortBy([NoFormant], FreqOf);
    assert multiset(sorted) == multiset{NoFormant};
    assert sorted[0] in multiset(sorted);
  }

  lemma {:induction false} NoCandidates(w: seq<Option<seq<Formant>>>, i: nat)
    requires i < 3 && FormantWindow(w)
    requires forall k :: 0 <= k < |w| && w[k].Some? ==> w[k].value[i].freq == 0.0
    ensures Candidates(w, i) == []
  {
    if |w| > 0 {
      NoCandidates(w[..|w| - 1], i);
    }
  }

  /** A slot holding at least one recorded non-zero frequency smooths to
      one of its candidates or to the midpoint of two. */
  lemma SlotIsMidpoint(w: seq<Option<seq<Formant>>>, i: nat)
    requires i < 3 && FormantWindow(w)
    requires exists k :: 0 <= k < |w| && w[k].Some? && w[k].value[i].freq != 0.0
    ensures var c := Candidates(w, i);
            exists a, b :: 0 <= a < |c| && 0 <= b < |c|
                           && (SmoothSlot(w, i) == c[a] || SmoothSlot(w, i) == Midpoint(c[a], c[b]))
  {
    CandidatesExist(w, i);
    MedianIsMidpoint(Candidates(w, i));
  }

  lemma CandidatesExist(w: seq<Option<seq<Formant>>>, i: nat)
    requires i < 3 && FormantWindow(w)
    requires exists k :: 0 <= k < |w| && w[k].Some? && w[k].value[i].freq != 0.0
    ensures |Candidates(w, i)| > 0
  {
    var k :| 0 <= k < |w| && w[k].Some? && w[k].value[i].freq != 0.0;
    assert w[k].value[i] in Candidates(w, i);
  }

  /** Slot i of the smoothed triple keeps a frequency that every recorded
      non-zero frequency of the slot shares. */
  lemma SlotRepeated(w: seq<Option<seq<Formant>>>, i: nat, f: Formant)
    requires i < 3 && FormantWindow(w)
    requires exists k :: 0 <= k < |w| && w[k].Some? && w[k].value[i] == f
    requires f.freq != 0.0
    requires forall k :: 0 <= k < |w| && w[k].Some? ==> w[k].value[i].freq == 0.0 || w[k].value[i] == f
    ensures SmoothSlot(w, i) == f
  {
    SlotIsMidpoint(w, i);
    var c := Candidates(w, i);
    var a, b :| 0 <= a < |c| && 0 <= b < |c| && (SmoothSlot(w, i) == c[a] || SmoothSlot(w, i) == Midpoint(c[a], c[b]));
    OnlyCandidate(w, i, f);
    assert c[a] == f && c[b] == f;
    assert Midpoint(f, f) == f;
  }

  lemma OnlyCandidate(w: seq<Option<seq<Formant>>>, i: nat, f: Formant)
    requires i < 3 && FormantWindow(w)
    requires forall k :: 0 <= k < |w| && w[k].Some? ==> w[k].value[i].freq == 0.0 || w[k].value[i] == f
    ensures forall j :: 0 <= j < |Candidates(w, i)| ==> Candidates(w, i)[j] == f
  {
    var c := Candidates(w, i);
    forall j | 0 <= j < |c|
      ensures c[j] == f
    {
      assert c[j] in c;
    }
  }
}
