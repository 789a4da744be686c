/** The formant stages of the current analyzer: IdentifyApparentFormants
    turns the harmonic strengths of a voice into candidate formants (one per
    peak of the harmonic series, merged with close neighbours), and
    IdentifyFormants123 chooses F1, F2 and F3 among them. */
module Formants {
  import opened Common
  import opened Vowels

  /** Harmonic value i rises from the one before it (the first always does). */
  predicate Ascended(v: seq<real>, i: int)
    requires 0 <= i < |v|
  {
    i == 0 || v[i - 1] < v[i]
  }

  /** Harmonic value i falls to the one after it (the last always does). */
  predicate Descended(v: seq<real>, i: int)
    requires 0 <= i < |v|
  {
    i == |v| - 1 || v[i + 1] < v[i]
  }

  /** A peak of a series of at least two harmonic values: a value both
      ascended to and descended from. */
  predicate IsPeak(v: seq<real>, i: int) {
    |v| > 1 && 0 <= i < |v| && Ascended(v, i) && Descended(v, i)
  }

  ghost predicate StrictlyIncreasing(s: seq<int>) {
    forall a, b :: 0 <= a < b < |s| ==> s[a] < s[b]
  }

  /** The peak search of IdentifyApparentFormants: the first value when it
      exceeds the second, every inner value above both neighbours, then the
      last value when it exceeds the one before. A null series has no peaks. */
  method FindPeaks(values: Option<seq<real>>) returns (peaks: seq<int>)
    ensures values.None? ==> peaks == []
    ensures values.Some? ==> forall i :: i in peaks <==> IsPeak(values.value, i)
    ensures StrictlyIncreasing(peaks)
  {
    peaks := [];
    if values.Some? {
      var v := values.value;
      if |v| > 1 && v[0] > v[1] {
        peaks := peaks + [0];
      }
      var i := 1;
      while i < |v| - 1
        invariant 1 <= i <= MaxI(1, |v| - 1)
        invariant forall j :: j in peaks <==> 0 <= j < i && IsPeak(v, j)
        invariant forall k :: 0 <= k < |peaks| ==> peaks[k] < i
        invariant StrictlyIncreasing(peaks)
      {
        if v[i] > v[i - 1] && v[i] > v[i + 1] {
          peaks := peaks + [i];
        }
        i := i + 1;
      }
      if |v| > 1 && v[|v| - 1] > v[|v| - 2] {
        peaks := peaks + [|v| - 1];
      }
    }
  }

  /** Two neighbouring values are never both peaks. */
  lemma PeaksApart(v: seq<real>, i: int)
    requires IsPeak(v, i) && i + 1 < |v|
    ensures !IsPeak(v, i + 1)
  {
  }

  /** Whether a neighbouring value x joins the formant of peak value m:
      |m - x| / m < diff. A peak value of 0 divides to an infinity or NaN,
      which never compares below diff. */
  predicate Close(m: real, x: real, diff: real) {
    m != 0.0 && Abs(m - x) / m < diff
  }

  /** The harmonic before peak p joins its formant. */
  predicate PriorJoins(v: seq<real>, p: int, diff: real)
    requires 0 <= p < |v|
  {
    p - 1 >= 0 && Close(v[p], v[p - 1], diff)
  }

  /** The harmonic after peak p joins its formant. */
  predicate LaterJoins(v: seq<real>, p: int, diff: real)
    requires 0 <= p < |v|
  {
    p + 1 < |v| && Close(v[p], v[p + 1], diff)
  }

  /** The frequency of harmonic value k: (k + 1) times the fundamental. */
  function HarmonicFreq(f0: real, k: int): real {
    Times((k + 1) as real, f0)
  }

  /** The summed strength of peak p's formant. */
  function FormantStrength(v: seq<real>, p: int, diff: real): real
    requires 0 <= p < |v|
  {
    v[p] + (if PriorJoins(v, p, diff) then v[p - 1] else 0.0)
         + (if LaterJoins(v, p, diff) then v[p + 1] else 0.0)
  }

  /** The strength-weighted sum of the frequencies of peak p's formant. */
  function WeightedFreq(f0: real, v: seq<real>, p: int, diff: real): real
    requires 0 <= p < |v|
  {
    Times(HarmonicFreq(f0, p), v[p])
    + (if PriorJoins(v, p, diff) then Times(HarmonicFreq(f0, p - 1), v[p - 1]) else 0.0)
    + (if LaterJoins(v, p, diff) then Times(HarmonicFreq(f0, p + 1), v[p + 1]) else 0.0)
  }

  /** Harmonic values that are strengths: none negative. */
  ghost predicate NonNegative(v: seq<real>) {
    forall k :: 0 <= k < |v| ==> v[k] >= 0.0
  }

  /** The formant of peak p: the strength-weighted mean frequency of the
      peak and the neighbours that join it, with their summed strength. */
  function PeakFormant(f0: real, v: seq<real>, p: int, diff: real): (f: Formant)
    requires NonNegative(v) && IsPeak(v, p)
    ensures f.value >= v[p] > 0.0
  {
    assert v[p] > 0.0 by {
      if p == 0 { assert v[1] < v[0]; } else { assert v[p - 1] < v[p]; }
    }
    Formant(WeightedFreq(f0, v, p, diff) / FormantStrength(v, p, diff), FormantStrength(v, p, diff))
  }

  /** Whether some formant already has frequency x (the Any check). */
  predicate HasFreq(fs: seq<Formant>, x: real) {
    exists k :: 0 <= k < |fs| && fs[k].freq == x
  }

  ghost predicate DistinctFreqs(fs: seq<Formant>) {
    forall a, b :: 0 <= a < b < |fs| ==> fs[a].freq != fs[b].freq
  }

  /** Appends f unless a formant of its frequency is already listed. */
  function AddDistinct(fs: seq<Formant>, f: Formant): (r: seq<Formant>)
    ensures HasFreq(r, f.freq)
    ensures forall x :: HasFreq(fs, x) ==> HasFreq(r, x)
    ensures forall k :: 0 <= k < |r| ==> r[k] == f || r[k] in fs
    ensures DistinctFreqs(fs) ==> DistinctFreqs(r)
  {
    if HasFreq(fs, f.freq) then fs
    else
      var r := fs + [f];
      assert r[|fs|] == f;
      assert forall k :: 0 <= k < |fs| ==> r[k] == fs[k];
      r
  }

  /** f is the formant of some peak of v. */
  ghost predicate FromPeak(f0: real, v: seq<real>, diff: real, f: Formant)
    requires NonNegative(v)
  {
    exists p :: IsPeak(v, p) && f == PeakFormant(f0, v, p, diff)
  }

  /** Every index listed in `peaks` is a peak of v. */
  ghost predicate AllPeaks(v: seq<real>, peaks: seq<int>) {
    forall j :: 0 <= j < |peaks| ==> IsPeak(v, peaks[j])
  }

  /** Peak j of the list is the first of its formant's frequency. */
  ghost predicate FirstOfFreq(f0: real, v: seq<real>, diff: real, peaks: seq<int>, j: int)
    requires NonNegative(v) && AllPeaks(v, peaks) && 0 <= j < |peaks|
  {
    forall i :: 0 <= i < j ==>
      PeakFormant(f0, v, peaks[i], diff).freq != PeakFormant(f0, v, peaks[j], diff).freq
  }

  /** IdentifyApparentFormants: one formant per peak, in peak order, except
      that a formant whose frequency is already listed is dropped. A null
      series gives no formants. The ghost `peaks` are the peaks found, and
      formant k is the formant of peak number at[k]: the kept peaks are
      exactly those whose frequency no earlier peak has. */
  method IdentifyApparentFormants(f0: real, values: Option<seq<real>>, diff: real)
    returns (formants: seq<Formant>, ghost peaks: seq<int>, ghost at: seq<int>)
    requires values.Some? ==> NonNegative(values.value)
    ensures values.None? ==> formants == []
    ensures values.Some? ==> forall k :: 0 <= k < |formants| ==> FromPeak(f0, values.value, diff, formants[k])
    ensures values.Some? ==> forall p :: IsPeak(values.value, p) ==>
              HasFreq(formants, PeakFormant(f0, values.value, p, diff).freq)
    ensures DistinctFreqs(formants)
    ensures values.Some? ==> (forall p :: p in peaks <==> IsPeak(values.value, p)) && StrictlyIncreasing(peaks)
    ensures values.Some? ==> AllPeaks(values.value, peaks)
    ensures |at| == |formants| && StrictlyIncreasing(at)
    ensures forall k :: 0 <= k < |at| ==> 0 <= at[k] < |peaks|
    ensures values.Some? ==> forall k :: 0 <= k < |at| ==>
              formants[k] == PeakFormant(f0, values.value, peaks[at[k]], diff)
    ensures values.Some? ==> forall j :: 0 <= j < |peaks| ==>
              (j in at <==> FirstOfFreq(f0, values.value, diff, peaks, j))
  {
    var found := FindPeaks(values);
    peaks := found;
    formants := [];
    at := [];
    if values.None? {
      return;
    }
    assert values.Some?;
    var v := values.value;
    assert AllPeaks(v, found) by {
      forall j | 0 <= j < |found|
        ensures IsPeak(v, found[j])
      {
        assert found[j] in found;
      }
    }
    var i := 0;
    while i < |found|
      invariant 0 <= i <= |found|
      invariant Kept(f0, v, diff, found, i, formants, at)
    {
      var f := PeakFormant(f0, v, found[i], diff);
      KeepNext(f0, v, diff, found, i, formants, at);
      if !HasFreq(formants, f.freq) {
        at := at + [i];
      }
      formants := AddDistinct(formants, f);
      i := i + 1;
    }
    assert Mapped(f0, v, diff, found, i, formants, at);
    assert Covered(f0, v, diff, found, i, formants);
    forall k | 0 <= k < |formants|
      ensures FromPeak(f0, v, diff, formants[k])
    {
      assert IsPeak(v, found[at[k]]);
    }
    forall p | IsPeak(v, p)
      ensures HasFreq(formants, PeakFormant(f0, v, p, diff).freq)
    {
      var j :| 0 <= j < |found| && found[j] == p;
    }
  }

  /** Peak i is the first of its frequency exactly when the formants kept
      from the peaks before it lack that frequency. */
  lemma KeepStep(f0: real, v: seq<real>, diff: real, peaks: seq<int>, i: int,
                 formants: seq<Formant>, at: seq<int>)
    requires NonNegative(v) && AllPeaks(v, peaks) && 0 <= i < |peaks|
    requires Covered(f0, v, diff, peaks, i, formants) && Mapped(f0, v, diff, peaks, i, formants, at)
    ensures FirstOfFreq(f0, v, diff, peaks, i) <==> !HasFreq(formants, PeakFormant(f0, v, peaks[i], diff).freq)
  {
    var x := PeakFormant(f0, v, peaks[i], diff).freq;
    if HasFreq(formants, x) {
      var k :| 0 <= k < |formants| && formants[k].freq == x;
      assert PeakFormant(f0, v, peaks[at[k]], diff).freq == x;
    }
  }

  /** Formant k is the formant of peak number at[k], an earlier peak than i,
      in peak order. */
  ghost predicate Mapped(f0: real, v: seq<real>, diff: real, peaks: seq<int>, i: int,
                         formants: seq<Formant>, at: seq<int>)
    requires NonNegative(v) && AllPeaks(v, peaks)
  {
    |at| == |formants| && StrictlyIncreasing(at)
    && (forall k :: 0 <= k < |at| ==> 0 <= at[k] < i && at[k] < |peaks|)
    && (forall k :: 0 <= k < |at| ==> formants[k] == PeakFormant(f0, v, peaks[at[k]], diff))
  }

  /** The frequency of each of the first i peaks is listed. */
  ghost predicate Covered(f0: real, v: seq<real>, diff: real, peaks: seq<int>, i: int, formants: seq<Formant>)
    requires NonNegative(v) && AllPeaks(v, peaks) && i <= |peaks|
  {
    forall j :: 0 <= j < i ==> HasFreq(formants, PeakFormant(f0, v, peaks[j], diff).freq)
  }

  /** Among the first i peaks, the kept ones are the first of their frequency. */
  ghost predicate Chosen(f0: real, v: seq<real>, diff: real, peaks: seq<int>, i: int, at: seq<int>)
    requires NonNegative(v) && AllPeaks(v, peaks) && i <= |peaks|
  {
    forall j :: 0 <= j < i ==> (j in at <==> FirstOfFreq(f0, v, diff, peaks, j))
  }

  /** What IdentifyApparentFormants has built after the first i peaks: the
      formants of the first peak of each frequency, in peak order. */
  ghost predicate Kept(f0: real, v: seq<real>, diff: real, peaks: seq<int>, i: int,
                       formants: seq<Formant>, at: seq<int>)
    requires NonNegative(v) && AllPeaks(v, peaks)
  {
    0 <= i <= |peaks|
    && Mapped(f0, v, diff, peaks, i, formants, at)
    && Covered(f0, v, diff, peaks, i, formants)
    && Chosen(f0, v, diff, peaks, i, at)
    && DistinctFreqs(formants)
  }

  /** One turn of IdentifyApparentFormants' loop keeps Kept. */
  lemma KeepNext(f0: real, v: seq<real>, diff: real, peaks: seq<int>, i: int,
                 formants: seq<Formant>, at: seq<int>)
    requires NonNegative(v) && AllPeaks(v, peaks) && 0 <= i < |peaks|
    requires Kept(f0, v, diff, peaks, i, formants, at)
    ensures var f := PeakFormant(f0, v, peaks[i], diff);
            var at' := if HasFreq(formants, f.freq) then at else at + [i];
            Kept(f0, v, diff, peaks, i + 1, AddDistinct(formants, f), at')
  {
    var f := PeakFormant(f0, v, peaks[i], diff);
    KeepStep(f0, v, diff, peaks, i, formants, at);
    CoveredNext(f0, v, diff, peaks, i, formants);
    if HasFreq(formants, f.freq) {
      assert AddDistinct(formants, f) == formants;
      MappedSame(f0, v, diff, peaks, i, formants, at);
      ChosenSame(f0, v, diff, peaks, i, at);
    } else {
      assert AddDistinct(formants, f) == formants + [f];
      MappedAppend(f0, v, diff, peaks, i, formants, at);
      ChosenAppend(f0, v, diff, peaks, i, at);
    }
  }

  lemma CoveredNext(f0: real, v: seq<real>, diff: real, peaks: seq<int>, i: int, formants: seq<Formant>)
    requires NonNegative(v) && AllPeaks(v, peaks) && 0 <= i < |peaks|
    requires Covered(f0, v, diff, peaks, i, formants)
    ensures Covered(f0, v, diff, peaks, i + 1, AddDistinct(formants, PeakFormant(f0, v, peaks[i], diff)))
  {
  }

  lemma MappedSame(f0: real, v: seq<real>, diff: real, peaks: seq<int>, i: int,
                   formants: seq<Formant>, at: seq<int>)
    requires NonNegative(v) && AllPeaks(v, peaks) && 0 <= i < |peaks|
    requires Mapped(f0, v, diff, peaks, i, formants, at)
    ensures Mapped(f0, v, diff, peaks, i + 1, formants, at)
  {
  }

  lemma MappedAppend(f0: real, v: seq<real>, diff: real, peaks: seq<int>, i: int,
                     formants: seq<Formant>, at: seq<int>)
    requires NonNegative(v) && AllPeaks(v, peaks) && 0 <= i < |peaks|
    requires Mapped(f0, v, diff, peaks, i, formants, at)
    ensures Mapped(f0, v, diff, peaks, i + 1, formants + [PeakFormant(f0, v, peaks[i], diff)], at + [i])
  {
    var fs := formants + [PeakFormant(f0, v, peaks[i], diff)];
    var at' := at + [i];
    assert forall k :: 0 <= k < |at| ==> fs[k] == formants[k] && at'[k] == at[k];
  }

  lemma ChosenSame(f0: real, v: seq<real>, diff: real, peaks: seq<int>, i: int, at: seq<int>)
    requires NonNegative(v) && AllPeaks(v, peaks) && 0 <= i < |peaks|
    requires Chosen(f0, v, diff, peaks, i, at) && i !in at && !FirstOfFreq(f0, v, diff, peaks, i)
    ensures Chosen(f0, v, diff, peaks, i + 1, at)
  {
  }

  lemma ChosenAppend(f0: real, v: seq<real>, diff: real, peaks: seq<int>, i: int, at: seq<int>)
    requires NonNegative(v) && AllPeaks(v, peaks) && 0 <= i < |peaks|
    requires Chosen(f0, v, diff, peaks, i, at) && FirstOfFreq(f0, v, diff, peaks, i)
    ensures Chosen(f0, v, diff, peaks, i + 1, at + [i])
  {
    assert forall j :: 0 <= j < i ==> (j in at + [i] <==> j in at);
  }

  /** The weighted mean of strengths between bounds lies between them. */
  lemma MeanBetween(a: real, wa: real, b: real, wb: real, c: real, wc: real, lo: real, hi: real)
    requires wa > 0.0 && wb >= 0.0 && wc >= 0.0
    requires lo <= a <= hi && lo <= b <= hi && lo <= c <= hi
    ensures lo <= (Times(a, wa) + Times(b, wb) + Times(c, wc)) / (wa + wb + wc) <= hi
  {
    var s := wa + wb + wc;
    var w := Times(a, wa) + Times(b, wb) + Times(c, wc);
    MulBetween(lo, a, hi, wa);
    MulBetween(lo, b, hi, wb);
    MulBetween(lo, c, hi, wc);
    Distributes(lo, wa, wb, wc);
    Distributes(hi, wa, wb, wc);
    DivBetween(lo, w, hi, s);
  }

  lemma Distributes(a: real, x: real, y: real, z: real)
    ensures Times(a, x + y + z) == Times(a, x) + Times(a, y) + Times(a, z)
  {
  }

  lemma MulBetween(lo: real, a: real, hi: real, w: real)
    requires lo <= a <= hi && w >= 0.0
    ensures Times(lo, w) <= Times(a, w) <= Times(hi, w)
  {
  }

  lemma DivBetween(lo: real, w: real, hi: real, s: real)
    requires s > 0.0 && Times(lo, s) <= w <= Times(hi, s)
    ensures lo <= w / s <= hi
  {
    assert w / s - lo == (w - Times(lo, s)) / s;
    assert hi - w / s == (Times(hi, s) - w) / s;
  }

  /** The frequency of peak p's formant lies between the frequencies of the
      lowest and the highest harmonic merged into it; it is the peak's own
      harmonic frequency when no neighbour joins. */
  lemma FormantFreqWithinMerged(f0: real, v: seq<real>, p: int, diff: real)
    requires f0 >= 0.0 && NonNegative(v) && IsPeak(v, p)
    ensures var f := PeakFormant(f0, v, p, diff);
            var lo := if PriorJoins(v, p, diff) then p - 1 else p;
            var hi := if LaterJoins(v, p, diff) then p + 1 else p;
            HarmonicFreq(f0, lo) <= f.freq <= HarmonicFreq(f0, hi)
  {
    var f := PeakFormant(f0, v, p, diff);
    var lo := if PriorJoins(v, p, diff) then p - 1 else p;
    var hi := if LaterJoins(v, p, diff) then p + 1 else p;
    var L, H := HarmonicFreq(f0, lo), HarmonicFreq(f0, hi);
    HarmonicFreqGrows(f0, lo, p);
    HarmonicFreqGrows(f0, p, hi);
    var wb := if PriorJoins(v, p, diff) then v[p - 1] else 0.0;
    var wc := if LaterJoins(v, p, diff) then v[p + 1] else 0.0;
    assert FormantStrength(v, p, diff) == v[p] + wb + wc;
    assert WeightedFreq(f0, v, p, diff)
        == Times(HarmonicFreq(f0, p), v[p]) + Times(L, wb) + Times(H, wc);
    MeanBetween(HarmonicFreq(f0, p), v[p], L, wb, H, wc, L, H);
  }

  lemma HarmonicFreqGrows(f0: real, j: int, k: int)
    requires f0 >= 0.0 && j <= k
    ensures HarmonicFreq(f0, j) <= HarmonicFreq(f0, k)
  {
    MulBetween((j + 1) as real, (j + 1) as real, (k + 1) as real, f0);
  }

  // ---------------------------------------------------------------------
  // F1, F2, F3

  /** The F1 band: below 1400 Hz. */
  predicate InF1Band(f: Formant) {
    f.freq < 1400.0
  }

  /** The F2 band: above 500 Hz, other than F1's frequency. */
  predicate InF2Band(f1: Formant, f: Formant) {
    f.freq > 500.0 && f.freq != f1.freq
  }

  /** The F3 band: above 1500 Hz, other than F2's frequency. */
  predicate InF3Band(f2: Formant, f: Formant) {
    f.freq > 1500.0 && f.freq != f2.freq
  }

  /** Some vowel has F2 in its F2 range and f in its F3 range. */
  predicate FitsAVowel(vowels: seq<Vowel>, f2: Formant, f: Formant)
    requires forall k :: 0 <= k < |vowels| ==> WellFormed(vowels[k])
  {
    exists k :: 0 <= k < |vowels| && WellFormed(vowels[k])
      && vowels[k].formantLows[1] < f2.freq < vowels[k].formantHighs[1]
      && vowels[k].formantLows[2] < f.freq < vowels[k].formantHighs[2]
  }

  /** The F3 ranking: the strength, four times over when the candidate
      fits some vowel together with F2. */
  function F3Key(vowels: seq<Vowel>, f2: Formant, f: Formant): real
    requires forall k :: 0 <= k < |vowels| ==> WellFormed(vowels[k])
  {
    if FitsAVowel(vowels, f2, f) then f.value * 4.0 else f.value
  }

  /** The members of a Where(p) are the members that satisfy p. */
  lemma BandMembers(s: seq<Formant>, p: Formant -> bool, band: seq<Formant>)
    requires band == Filter(s, p)
    ensures forall g :: g in band <==> g in s && p(g)
  {
    forall g | g in band
      ensures g in s
    {
      assert g in multiset(band);
    }
  }

  /** Where(band).DefaultIfEmpty().MaxBy(key) over the formants that
      satisfy `band`: the first of largest key, or the default formant when
      there is none. */
  function PickBest(apparent: seq<Formant>, band: Formant -> bool, key: Formant -> real): (r: Formant)
    ensures (forall g :: g in apparent ==> !band(g)) ==> r == NoFormant
    ensures (exists g :: g in apparent && band(g)) ==>
              r in apparent && band(r) && forall g :: g in apparent && band(g) ==> key(g) <= key(r)
    ensures forall j :: 0 <= j < |apparent| && band(apparent[j]) && key(apparent[j]) == key(r) ==>
              r in apparent[..j + 1]
  {
    var candidates := Filter(apparent, band);
    BandMembers(apparent, band, candidates);
    if |candidates| == 0 then NoFormant
    else
      FilterMaxByFirst(apparent, band, key);
      MaxBy(candidates, key)
  }

  /** F1: the strongest formant below 1400 Hz, or (0, 0). */
  function PickF1(apparent: seq<Formant>): Formant {
    PickBest(apparent, InF1Band, (f: Formant) => f.value)
  }

  /** F2: the strongest formant above 500 Hz at another frequency than F1. */
  function PickF2(apparent: seq<Formant>, f1: Formant): Formant {
    PickBest(apparent, (f: Formant) => InF2Band(f1, f), (f: Formant) => f.value)
  }

  /** F3: the best-ranked formant above 1500 Hz at another frequency than F2. */
  function PickF3(apparent: seq<Formant>, vowels: seq<Vowel>, f2: Formant): Formant
    requires forall k :: 0 <= k < |vowels| ==> WellFormed(vowels[k])
  {
    PickBest(apparent, (f: Formant) => InF3Band(f2, f), (f: Formant) => F3Key(vowels, f2, f))
  }

  /** The three choices, before ordering. */
  function Picks(apparent: seq<Formant>, vowels: seq<Vowel>): (r: seq<Formant>)
    requires forall k :: 0 <= k < |vowels| ==> WellFormed(vowels[k])
    ensures |r| == 3
  {
    var f1 := PickF1(apparent);
    var f2 := PickF2(apparent, f1);
    [f1, f2, PickF3(apparent, vowels, f2)]
  }

  /** Swaps entries i and i + 1 when the second has the lower frequency. */
  function OrderPair(fs: seq<Formant>, i: nat): (r: seq<Formant>)
    requires i + 1 < |fs|
    ensures |r| == |fs| && multiset(r) == multiset(fs)
    ensures r[i].freq <= r[i + 1].freq
    ensures r[i].freq == MinR(fs[i].freq, fs[i + 1].freq) && r[i + 1].freq == MaxR(fs[i].freq, fs[i + 1].freq)
    ensures forall k :: 0 <= k < |fs| && k != i && k != i + 1 ==> r[k] == fs[k]
  {
    if fs[i + 1].freq < fs[i].freq then fs[i := fs[i + 1]][i + 1 := fs[i]] else fs
  }

  ghost predicate FreqOrdered(fs: seq<Formant>) {
    forall a, b :: 0 <= a < b < |fs| ==> fs[a].freq <= fs[b].freq
  }

  /** The exchanges the program makes: F2 with F3, then F1 with F2. */
  function TwoExchanges(fs: seq<Formant>): (r: seq<Formant>)
    requires |fs| == 3
    ensures |r| == 3 && multiset(r) == multiset(fs)
    ensures r[0].freq <= r[1].freq
  {
    OrderPair(OrderPair(fs, 1), 0)
  }

  /** A third exchange of F2 and F3 sorts any triple by frequency. */
  function SortTriple(fs: seq<Formant>): (r: seq<Formant>)
    requires |fs| == 3
    ensures |r| == 3 && multiset(r) == multiset(fs)
    ensures FreqOrdered(r)
  {
    var a := TwoExchanges(fs);
    var r := OrderPair(a, 1);
    assert r[0] == a[0];
    r
  }

  /** The two exchanges already sort a triple whose first frequency does
      not exceed its last. */
  lemma TwoExchangesSuffice(fs: seq<Formant>)
    requires |fs| == 3 && fs[0].freq <= fs[2].freq
    ensures FreqOrdered(TwoExchanges(fs))
    ensures TwoExchanges(fs) == SortTriple(fs)
  {
    var a := OrderPair(fs, 1);
    var r := OrderPair(a, 0);
    assert a[2].freq >= fs[2].freq;
    assert r[2] == a[2];
  }

  /** IdentifyFormants123 as the program writes it: the picks, then one
      exchange of F2 and F3 and one of F1 and F2. */
  function IdentifyFormants123(apparent: seq<Formant>, vowels: seq<Vowel>): (r: seq<Formant>)
    requires forall k :: 0 <= k < |vowels| ==> WellFormed(vowels[k])
    ensures |r| == 3 && multiset(r) == multiset(Picks(apparent, vowels))
    ensures r[0].freq <= r[1].freq
  {
    TwoExchanges(Picks(apparent, vowels))
  }

  /** IdentifyFormants123 with the ordering its comment intends
      (F1 <= F2 <= F3): the picks, sorted by frequency. */
  function IdentifyFormants123Sorted(apparent: seq<Formant>, vowels: seq<Vowel>): (r: seq<Formant>)
    requires forall k :: 0 <= k < |vowels| ==> WellFormed(vowels[k])
    ensures |r| == 3 && multiset(r) == multiset(Picks(apparent, vowels))
    ensures FreqOrdered(r)
  {
    SortTriple(Picks(apparent, vowels))
  }

  /** The two exchanges do order the triple whenever F3 is found: F3 lies
      above 1500 Hz and F1 below 1400 Hz. */
  lemma AsWrittenOrderedWithF3(apparent: seq<Formant>, vowels: seq<Vowel>)
    requires forall k :: 0 <= k < |vowels| ==> WellFormed(vowels[k])
    requires exists g :: g in apparent && InF3Band(PickF2(apparent, PickF1(apparent)), g)
    ensures FreqOrdered(IdentifyFormants123(apparent, vowels))
    ensures IdentifyFormants123(apparent, vowels) == IdentifyFormants123Sorted(apparent, vowels)
  {
    var f1 := PickF1(apparent);
    var f2 := PickF2(apparent, f1);
    var f3 := PickF3(apparent, vowels, f2);
    assert f1.freq < 1400.0;
    assert f3.freq > 1500.0;
    TwoExchangesSuffice(Picks(apparent, vowels));
  }

  /** The picks of the counterexample below: F1 at 1000 Hz, F2 at 600 Hz,
      no F3. */
  lemma UnorderedPicks(apparent: seq<Formant>, vowels: seq<Vowel>)
    requires apparent == [Formant(1000.0, 2.0), Formant(600.0, 1.0)]
    requires forall k :: 0 <= k < |vowels| ==> WellFormed(vowels[k])
    ensures Picks(apparent, vowels) == [apparent[0], apparent[1], NoFormant]
  {
    UnorderedF1(apparent);
    UnorderedF2(apparent);
    UnorderedF3(apparent, vowels);
  }

  lemma UnorderedF1(apparent: seq<Formant>)
    requires apparent == [Formant(1000.0, 2.0), Formant(600.0, 1.0)]
    ensures PickF1(apparent) == apparent[0]
  {
    assert forall h :: h in apparent ==> h == apparent[0] || h == apparent[1];
    PickBestUnique(apparent, InF1Band, (f: Formant) => f.value, apparent[0]);
  }

  /** A candidate whose key beats every other candidate's is the pick. */
  lemma PickBestUnique(apparent: seq<Formant>, band: Formant -> bool, key: Formant -> real, g: Formant)
    requires g in apparent && band(g)
    requires forall h :: h in apparent && band(h) && h != g ==> key(h) < key(g)
    ensures PickBest(apparent, band, key) == g
  {
  }

  lemma UnorderedF2(apparent: seq<Formant>)
    requires apparent == [Formant(1000.0, 2.0), Formant(600.0, 1.0)]
    ensures PickF2(apparent, apparent[0]) == apparent[1]
  {
    assert InF2Band(apparent[0], apparent[1]);
  }

  lemma UnorderedF3(apparent: seq<Formant>, vowels: seq<Vowel>)
    requires apparent == [Formant(1000.0, 2.0), Formant(600.0, 1.0)]
    requires forall k :: 0 <= k < |vowels| ==> WellFormed(vowels[k])
    ensures PickF3(apparent, vowels, apparent[1]) == NoFormant
  {
    assert !InF3Band(apparent[1], apparent[0]) && !InF3Band(apparent[1], apparent[1]);
  }

  /** Without F3 they do not: F1 = 1000 Hz (strength 2) and F2 = 600 Hz
      (strength 1) come out as 0, 1000, 600, whatever the vowel table. */
  lemma AsWrittenUnordered(apparent: seq<Formant>, vowels: seq<Vowel>)
    requires apparent == [Formant(1000.0, 2.0), Formant(600.0, 1.0)]
    requires forall k :: 0 <= k < |vowels| ==> WellFormed(vowels[k])
    ensures var r := IdentifyFormants123(apparent, vowels);
            r == [NoFormant, apparent[0], apparent[1]] && !FreqOrdered(r)
    ensures IdentifyFormants123Sorted(apparent, vowels) == [NoFormant, apparent[1], apparent[0]]
  {
    UnorderedPicks(apparent, vowels);
    MissingF3(Picks(apparent, vowels));
  }

  /** A missing F3 below an F2 that lies below F1: the two exchanges move the
      missing formant first and leave F1 before F2. */
  lemma MissingF3(fs: seq<Formant>)
    requires |fs| == 3 && fs[2] == NoFormant && 0.0 < fs[1].freq < fs[0].freq
    ensures TwoExchanges(fs) == [NoFormant, fs[0], fs[1]]
    ensures SortTriple(fs) == [NoFormant, fs[1], fs[0]]
  {
    var a := OrderPair(fs, 1);
    assert a == [fs[0], NoFormant, fs[1]];
    var r := OrderPair(a, 0);
    assert r == [NoFormant, fs[0], fs[1]];
    var t := OrderPair(r, 1);
    assert t == r[1 := fs[1]][2 := fs[0]];
  }
}
