/** VowelLearner: a store of running-mean spectra, one per vowel name. Each
    entry holds how many spectra were added and their element-wise mean.
    The store is an association list with distinct names standing for the
    dictionary; Math.Sqrt is a parameter. */
module VowelLearning {
  import opened Common

  /** The number of spectra added and their running mean. */
  datatype Entry = Entry(count: nat, spectrum: seq<real>)

  datatype Learner = Learner(entries: seq<(string, Entry)>)

  /** Names are distinct and every entry holds at least one spectrum. */
  predicate Valid(l: Learner) {
    (forall a, b :: 0 <= a < b < |l.entries| ==> l.entries[a].0 != l.entries[b].0)
    && (forall k :: 0 <= k < |l.entries| ==> l.entries[k].1.count > 0)
  }

  const EmptyLearner: Learner := Learner([])

  /** The position of a name in the store. */
  function IndexOf(es: seq<(string, Entry)>, vowel: string): (r: Option<nat>)
    ensures r.Some? ==> r.value < |es| && es[r.value].0 == vowel
    ensures r.None? <==> forall k :: 0 <= k < |es| ==> es[k].0 != vowel
  {
    if |es| == 0 then None
    else if es[|es| - 1].0 == vowel then Some(|es| - 1)
    else IndexOf(es[..|es| - 1], vowel)
  }

  /** The dictionary lookup (TryGetValue). */
  function Lookup(l: Learner, vowel: string): Option<Entry> {
    match IndexOf(l.entries, vowel)
    case None => None
    case Some(k) => Some(l.entries[k].1)
  }

  /** With distinct names a lookup finds the entry stored under the name. */
  lemma LookupAt(l: Learner, k: nat)
    requires Valid(l) && k < |l.entries|
    ensures Lookup(l, l.entries[k].0) == Some(l.entries[k].1)
  {
  }

  /** GetSpectrum: the stored mean, or null (None) for an unknown vowel. */
  function GetSpectrum(l: Learner, vowel: string): (r: Option<seq<real>>)
    requires Valid(l)
    ensures r.None? <==> forall k :: 0 <= k < |l.entries| ==> l.entries[k].0 != vowel
    ensures r.Some? ==> exists k :: 0 <= k < |l.entries| && l.entries[k].0 == vowel
                                    && l.entries[k].1.spectrum == r.value
  {
    match Lookup(l, vowel)
    case None => None
    case Some(e) => Some(e.spectrum)
  }

  /** GetSpectrumCount: the number of spectra added, 0 for an unknown vowel. */
  function GetSpectrumCount(l: Learner, vowel: string): (n: nat)
    requires Valid(l)
    ensures n == 0 <==> forall k :: 0 <= k < |l.entries| ==> l.entries[k].0 != vowel
    ensures n > 0 ==> exists k :: 0 <= k < |l.entries| && l.entries[k] .0 == vowel
                                  && l.entries[k].1.count == n
  {
    match Lookup(l, vowel)
    case None => 0
    case Some(e) => e.count
  }

  // ---------------------------------------------------------------------
  // Adding and clearing

  /** The store with the entry at k replaced (the dictionary indexer on an
      existing key). */
  function Replace(l: Learner, k: nat, e: Entry): (l': Learner)
    requires Valid(l) && k < |l.entries| && e.count > 0
    ensures Valid(l')
    ensures Lookup(l', l.entries[k].0) == Some(e)
    ensures forall v :: v != l.entries[k].0 ==> Lookup(l', v) == Lookup(l, v)
  {
    var l' := Learner(l.entries[k := (l.entries[k].0, e)]);
    assert forall j :: 0 <= j < |l.entries| && j != k ==> l'.entries[j] == l.entries[j];
    LookupAt(l', k);
    UnchangedElsewhere(l, l', l.entries[k].0);
    l'
  }

  /** The store with a new name appended. */
  function Insert(l: Learner, vowel: string, e: Entry): (l': Learner)
    requires Valid(l) && Lookup(l, vowel).None? && e.count > 0
    ensures Valid(l')
    ensures Lookup(l', vowel) == Some(e)
    ensures forall v :: v != vowel ==> Lookup(l', v) == Lookup(l, v)
  {
    var l' := Learner(l.entries + [(vowel, e)]);
    LookupAt(l', |l.entries|);
    UnchangedElsewhere(l, l', vowel);
    l'
  }

  /** Zip of the old mean and the new spectrum into (a n + b) / (n + 1),
      as long as the shorter of the two. */
  function MeanStep(spectrum: seq<real>, n: nat, fft: seq<real>): (r: seq<real>)
    ensures |r| == MinI(|spectrum|, |fft|)
    ensures forall i :: 0 <= i < |r| ==>
              Times(r[i], (n + 1) as real) == Times(spectrum[i], n as real) + fft[i]
  {
    seq(MinI(|spectrum|, |fft|), i requires 0 <= i < MinI(|spectrum|, |fft|) =>
        (Times(spectrum[i], n as real) + fft[i]) / (n + 1) as real)
  }

  /** The squares of a spectrum. */
  function Squares(s: seq<real>): seq<real> {
    seq(|s|, i requires 0 <= i < |s| => Times(s[i], s[i]))
  }

  /** The sum of squared differences over the shorter length. */
  function SquaredChange(a: seq<real>, b: seq<real>): real {
    Sum(seq(MinI(|a|, |b|), i requires 0 <= i < MinI(|a|, |b|) => Times(a[i] - b[i], a[i] - b[i])))
  }

  /** A spectrum's sum of squares is its squared change from silence. */
  lemma ChangeFromSilence(s: seq<real>)
    ensures SquaredChange(seq(|s|, i => 0.0), s) == Sum(Squares(s))
  {
    var zeros := seq(|s|, i => 0.0);
    var d := seq(MinI(|zeros|, |s|), i requires 0 <= i < MinI(|zeros|, |s|) =>
                 Times(zeros[i] - s[i], zeros[i] - s[i]));
    assert d == Squares(s);
  }

  /** The mean a vowel's entry had before an add: the stored one, or all
      zeros for a vowel not yet in the store. */
  function Before(l: Learner, vowel: string, n: nat): seq<real> {
    match Lookup(l, vowel)
    case None => seq(n, i => 0.0)
    case Some(e) => e.spectrum
  }

  /** The returned change: rms over the sum of the new mean, no number
      (None) when that sum is 0. */
  function ChangeRatio(squaredChange: real, after: seq<real>, sqrt: real -> real): Option<real> {
    if Sum(after) == 0.0 then None else Some(sqrt(squaredChange) / Sum(after))
  }

  /** AddVowelFft: the first spectrum of a vowel is stored as it is with
      count 1; a later one moves the mean one step on. It returns the rms
      change of the mean relative to the sum of the new mean, which is no
      number (None) when that sum is 0. Every other vowel keeps its entry. */
  function AddVowelFft(l: Learner, vowel: string, fft: seq<real>, sqrt: real -> real)
    : (r: (Learner, Option<real>))
    requires Valid(l)
    ensures Valid(r.0)
    ensures Lookup(r.0, vowel).Some?
    ensures Lookup(l, vowel).None? ==> Lookup(r.0, vowel) == Some(Entry(1, fft))
    ensures Lookup(l, vowel).Some? ==>
              var before := Lookup(l, vowel).value;
              var after := Lookup(r.0, vowel).value;
              after.count == before.count + 1
              && after.spectrum == MeanStep(before.spectrum, before.count, fft)
    ensures forall v :: v != vowel ==> Lookup(r.0, v) == Lookup(l, v)
    ensures var after := Lookup(r.0, vowel).value.spectrum;
            (r.1.None? <==> Sum(after) == 0.0)
            && (r.1.Some? ==> r.1.value == sqrt(SquaredChange(Before(l, vowel, |after|), after)) / Sum(after))
  {
    match IndexOf(l.entries, vowel)
    case None =>
      ChangeFromSilence(fft);
      (Insert(l, vowel, Entry(1, fft)), ChangeRatio(Sum(Squares(fft)), fft, sqrt))
    case Some(k) =>
      var e := l.entries[k].1;
      var spectrum := MeanStep(e.spectrum, e.count, fft);
      (Replace(l, k, Entry(e.count + 1, spectrum)), ChangeRatio(SquaredChange(e.spectrum, spectrum), spectrum, sqrt))
  }

  /** Two stores that agree on every name but `vowel` look the same under
      every other name. */
  lemma UnchangedElsewhere(l: Learner, l': Learner, vowel: string)
    requires Valid(l) && Valid(l')
    requires forall k :: 0 <= k < |l.entries| && l.entries[k].0 != vowel ==> l.entries[k] in l'.entries
    requires forall k :: 0 <= k < |l'.entries| && l'.entries[k].0 != vowel ==> l'.entries[k] in l.entries
    ensures forall v :: v != vowel ==> Lookup(l', v) == Lookup(l, v)
  {
    forall v | v != vowel
      ensures Lookup(l', v) == Lookup(l, v)
    {
      match IndexOf(l.entries, v)
      case None =>
      case Some(k) =>
        assert l.entries[k] in l'.entries;
        var k' :| 0 <= k' < |l'.entries| && l'.entries[k'] == l.entries[k];
        LookupAt(l', k');
    }
  }

  /** The store without the entry at k. */
  function Remove(l: Learner, k: nat): (l': Learner)
    requires Valid(l) && k < |l.entries|
    ensures Valid(l')
    ensures Lookup(l', l.entries[k].0).None?
    ensures forall v :: v != l.entries[k].0 ==> Lookup(l', v) == Lookup(l, v)
  {
    var l' := Learner(l.entries[..k] + l.entries[k + 1..]);
    assert forall j :: 0 <= j < |l'.entries| ==> l'.entries[j] == l.entries[if j < k then j else j + 1];
    forall j | 0 <= j < |l.entries| && j != k
      ensures l.entries[j] in l'.entries
    {
      assert l'.entries[if j < k then j else j - 1] == l.entries[j];
    }
    UnchangedElsewhere(l, l', l.entries[k].0);
    l'
  }

  /** ClearVowel: the vowel's entry is removed; nothing else changes. */
  function ClearVowel(l: Learner, vowel: string): (r: Learner)
    requires Valid(l)
    ensures Valid(r)
    ensures Lookup(r, vowel).None?
    ensures forall v :: v != vowel ==> Lookup(r, v) == Lookup(l, v)
  {
    match IndexOf(l.entries, vowel)
    case None => l
    case Some(k) => Remove(l, k)
  }

  /** After ClearVowel the vowel has no spectrum and a count of 0. */
  lemma ClearedIsForgotten(l: Learner, vowel: string)
    requires Valid(l)
    ensures GetSpectrum(ClearVowel(l, vowel), vowel).None?
    ensures GetSpectrumCount(ClearVowel(l, vowel), vowel) == 0
  {
  }

  /** Each add counts one more spectrum for its vowel. */
  lemma AddCounts(l: Learner, vowel: string, fft: seq<real>, sqrt: real -> real)
    requires Valid(l)
    ensures GetSpectrumCount(AddVowelFft(l, vowel, fft, sqrt).0, vowel) == GetSpectrumCount(l, vowel) + 1
  {
  }

  // ---------------------------------------------------------------------
  // The running mean

  /** Column j of a list of spectra. */
  function Column(rows: seq<seq<real>>, j: nat): (c: seq<real>)
    requires forall k :: 0 <= k < |rows| ==> j < |rows[k]|
    ensures |c| == |rows|
  {
    seq(|rows|, k requires 0 <= k < |rows| => rows[k][j])
  }

  /** The entry is the element-wise mean of the equal-length spectra `adds`. */
  ghost predicate MeanOf(e: Entry, adds: seq<seq<real>>) {
    e.count == |adds| > 0
    && (forall k :: 0 <= k < |adds| ==> |adds[k]| == |e.spectrum|)
    && forall j :: 0 <= j < |e.spectrum| ==> e.spectrum[j] == Sum(Column(adds, j)) / |adds| as real
  }

  /** The first add stores the mean of one spectrum. */
  lemma FirstAddIsMean(l: Learner, vowel: string, fft: seq<real>, sqrt: real -> real)
    requires Valid(l) && Lookup(l, vowel).None?
    ensures MeanOf(Lookup(AddVowelFft(l, vowel, fft, sqrt).0, vowel).value, [fft])
  {
    forall j | 0 <= j < |fft|
      ensures Sum(Column([fft], j)) == fft[j]
    {
      assert Column([fft], j)[..0] == [];
    }
  }

  /** A later add of a spectrum as long as the stored ones keeps the entry
      the mean of everything added. */
  lemma AddKeepsMean(l: Learner, vowel: string, fft: seq<real>, sqrt: real -> real,
                     adds: seq<seq<real>>)
    requires Valid(l) && Lookup(l, vowel).Some?
    requires MeanOf(Lookup(l, vowel).value, adds)
    requires |fft| == |Lookup(l, vowel).value.spectrum|
    ensures MeanOf(Lookup(AddVowelFft(l, vowel, fft, sqrt).0, vowel).value, adds + [fft])
  {
    var e := Lookup(l, vowel).value;
    StepKeepsMean(e, adds, fft);
  }

  /** One step of the running mean turns the mean of `adds` into the mean
      of `adds` and one more spectrum of the same length. */
  lemma StepKeepsMean(e: Entry, adds: seq<seq<real>>, fft: seq<real>)
    requires MeanOf(e, adds) && |fft| == |e.spectrum|
    ensures MeanOf(Entry(e.count + 1, MeanStep(e.spectrum, e.count, fft)), adds + [fft])
  {
    var n := |adds|;
    var m := MeanStep(e.spectrum, n, fft);
    forall j | 0 <= j < |fft|
      ensures m[j] == Sum(Column(adds + [fft], j)) / (n + 1) as real
    {
      ColumnAppend(adds, fft, j);
      MeanStepOfMean(Sum(Column(adds, j)), n, fft[j], e.spectrum[j], m[j]);
    }
  }

  lemma ColumnAppend(rows: seq<seq<real>>, row: seq<real>, j: nat)
    requires forall k :: 0 <= k < |rows| ==> j < |rows[k]|
    requires j < |row|
    ensures Sum(Column(rows + [row], j)) == Sum(Column(rows, j)) + row[j]
  {
    assert Column(rows + [row], j) == Column(rows, j) + [row[j]];
    SumAppend(Column(rows, j), row[j]);
  }

  /** (s / n) n + b over n + 1 is (s + b) / (n + 1). */
  lemma MeanStepOfMean(s: real, n: nat, b: real, m: real, m': real)
    requires n > 0 && m == s / n as real
    requires Times(m', (n + 1) as real) == Times(m, n as real) + b
    ensures m' == (s + b) / (n + 1) as real
  {
    assert Times(m, n as real) == s;
  }

  /** The whole store is the running mean of a history of adds per name. */
  ghost predicate Learned(l: Learner, history: map<string, seq<seq<real>>>) {
    forall k :: 0 <= k < |l.entries| ==>
      l.entries[k].0 in history && MeanOf(l.entries[k].1, history[l.entries[k].0])
  }

  /** The store's invariant survives an add of a spectrum of the vowel's
      length (any length for a new vowel): the vowel's history grows by
      the spectrum and every other history stays. */
  lemma AddKeepsLearned(l: Learner, history: map<string, seq<seq<real>>>, vowel: string,
                        fft: seq<real>, sqrt: real -> real)
    requires Valid(l) && Learned(l, history)
    requires Lookup(l, vowel).Some? ==> |fft| == |Lookup(l, vowel).value.spectrum|
    ensures var adds := if Lookup(l, vowel).Some? then history[vowel] + [fft] else [fft];
            Learned(AddVowelFft(l, vowel, fft, sqrt).0, history[vowel := adds])
  {
    var l' := AddVowelFft(l, vowel, fft, sqrt).0;
    var adds := if Lookup(l, vowel).Some? then history[vowel] + [fft] else [fft];
    if Lookup(l, vowel).Some? {
      var k := IndexOf(l.entries, vowel).value;
      AddKeepsMean(l, vowel, fft, sqrt, history[vowel]);
    } else {
      FirstAddIsMean(l, vowel, fft, sqrt);
    }
    forall k | 0 <= k < |l'.entries|
      ensures l'.entries[k].0 in history[vowel := adds]
      ensures MeanOf(l'.entries[k].1, history[vowel := adds][l'.entries[k].0])
    {
      var v := l'.entries[k].0;
      LookupAt(l', k);
      if v != vowel {
        var j := IndexOf(l.entries, v).value;
        LookupAt(l, j);
      }
    }
  }

  /** The invariant survives a clear, with the vowel's history dropped. */
  lemma ClearKeepsLearned(l: Learner, history: map<string, seq<seq<real>>>, vowel: string)
    requires Valid(l) && Learned(l, history)
    ensures Learned(ClearVowel(l, vowel), history - {vowel})
  {
    var l' := ClearVowel(l, vowel);
    forall k | 0 <= k < |l'.entries|
      ensures l'.entries[k].0 in history - {vowel}
      ensures MeanOf(l'.entries[k].1, (history - {vowel})[l'.entries[k].0])
    {
      var v := l'.entries[k].0;
      LookupAt(l', k);
      var j := IndexOf(l.entries, v).value;
      LookupAt(l, j);
    }
  }

  // ---------------------------------------------------------------------
  // Average and feature spectra

  /** The stored spectra in store order. */
  function Spectra(l: Learner): (rows: seq<seq<real>>)
    ensures |rows| == |l.entries|
    ensures forall k :: 0 <= k < |rows| ==> rows[k] == l.entries[k].1.spectrum
  {
    seq(|l.entries|, k requires 0 <= k < |l.entries| => l.entries[k].1.spectrum)
  }

  /** The length of the shortest spectrum. */
  function MinLen(rows: seq<seq<real>>): (n: nat)
    requires |rows| > 0
    ensures forall k :: 0 <= k < |rows| ==> n <= |rows[k]|
    ensures exists k :: 0 <= k < |rows| && n == |rows[k]|
  {
    if |rows| == 1 then |rows[0]|
    else
      var front := MinLen(rows[..|rows| - 1]);
      assert forall k :: 0 <= k < |rows| - 1 ==> rows[..|rows| - 1][k] == rows[k];
      MinI(front, |rows[|rows| - 1]|)
  }

  /** Zip(a, b, (x, y) => x + y): as long as the shorter. */
  function ZipAdd(a: seq<real>, b: seq<real>): (r: seq<real>)
    ensures |r| == MinI(|a|, |b|)
  {
    seq(MinI(|a|, |b|), i requires 0 <= i < MinI(|a|, |b|) => a[i] + b[i])
  }

  /** The Aggregate of GetAverageSpectrum over the stored spectra in order:
      each spectrum is zipped onto the running sum. The seed is an endless
      run of zeros; zipped with the first spectrum it gives that spectrum. */
  function Running(rows: seq<seq<real>>): (r: seq<real>)
    requires |rows| > 0
    ensures |r| == MinLen(rows)
    ensures forall j :: 0 <= j < |r| ==> r[j] == Sum(Column(rows, j))
  {
    if |rows| == 1 then
      forall j | 0 <= j < |rows[0]|
        ensures Sum(Column(rows, j)) == rows[0][j]
      {
        assert Column(rows, j)[..0] == [];
      }
      rows[0]
    else
      var front := rows[..|rows| - 1];
      var last := rows[|rows| - 1];
      var sum := Running(front);
      forall j | 0 <= j < MinI(|last|, |sum|)
        ensures last[j] + sum[j] == Sum(Column(rows, j))
      {
        assert Column(rows, j) == Column(front, j) + [last[j]];
        SumAppend(Column(front, j), last[j]);
      }
      ZipAdd(last, sum)
  }

  /** GetAverageSpectrum: the column sums over the number of vowels, as
      long as the shortest stored spectrum. An empty store keeps the
      endless seed and the call never returns (None). */
  function GetAverageSpectrum(l: Learner): (r: Option<seq<real>>)
    ensures r.None? <==> |l.entries| == 0
    ensures r.Some? ==> |r.value| == MinLen(Spectra(l))
    ensures r.Some? ==> forall j :: 0 <= j < |r.value| ==>
              r.value[j] == Sum(Column(Spectra(l), j)) / |l.entries| as real
  {
    if |l.entries| == 0 then None
    else
      var sum := Running(Spectra(l));
      Some(seq(|sum|, j requires 0 <= j < |sum| => sum[j] / |l.entries| as real))
  }

  /** GetVowelFeatureSpectrum: the vowel's spectrum less the average,
      element-wise, as long as the shortest stored spectrum. An unknown
      vowel throws (None). */
  function GetVowelFeatureSpectrum(l: Learner, vowel: string): (r: Option<seq<real>>)
    requires Valid(l)
    ensures r.None? <==> Lookup(l, vowel).None?
    ensures r.Some? ==> |r.value| == MinLen(Spectra(l))
    ensures r.Some? ==> |r.value| <= |Lookup(l, vowel).value.spectrum|
    ensures r.Some? ==> |r.value| == |GetAverageSpectrum(l).value|
    ensures r.Some? ==> forall j :: 0 <= j < |r.value| ==>
              r.value[j] + GetAverageSpectrum(l).value[j] == Lookup(l, vowel).value.spectrum[j]
  {
    match IndexOf(l.entries, vowel)
    case None => None
    case Some(k) =>
      var spectrum := l.entries[k].1.spectrum;
      var average := GetAverageSpectrum(l).value;
      LookupAt(l, k);
      assert |average| <= |spectrum| by {
        assert Spectra(l)[k] == spectrum;
      }
      Some(seq(MinI(|spectrum|, |average|), j requires 0 <= j < MinI(|spectrum|, |average|) => spectrum[j] - average[j]))
  }

  /** With one vowel stored, the average is its spectrum and its features
      are all 0. */
  lemma OneVowelHasNoFeatures(l: Learner, vowel: string)
    requires Valid(l) && |l.entries| == 1 && l.entries[0].0 == vowel
    ensures GetAverageSpectrum(l) == Some(l.entries[0].1.spectrum)
    ensures var f := GetVowelFeatureSpectrum(l, vowel);
            f.Some? && |f.value| == |l.entries[0].1.spectrum|
            && forall j :: 0 <= j < |f.value| ==> f.value[j] == 0.0
  {
    var rows := Spectra(l);
    var a := GetAverageSpectrum(l).value;
    assert |a| == |rows[0]|;
    forall j | 0 <= j < |a|
      ensures a[j] == rows[0][j]
    {
      assert Column(rows, j)[..0] == [];
    }
    assert a == rows[0];
    LookupAt(l, 0);
  }

  /** Sum(c[k] - a) over k is Sum(c) - |c| a. */
  lemma {:induction false} SumLessConstant(c: seq<real>, a: real)
    ensures Sum(seq(|c|, k requires 0 <= k < |c| => c[k] - a)) == Sum(c) - Times(|c| as real, a)
  {
    var d := seq(|c|, k requires 0 <= k < |c| => c[k] - a);
    if |c| > 0 {
      var n := |c|;
      var front := c[..n - 1];
      assert d[..n - 1] == seq(|front|, k requires 0 <= k < |front| => front[k] - a);
      SumLessConstant(front, a);
      assert Times(n as real, a) == Times((n - 1) as real, a) + a;
    }
  }

  /** A stored vowel's feature in column j: its value less the average. */
  lemma FeatureAt(l: Learner, k: nat, j: nat)
    requires Valid(l) && k < |l.entries| && j < MinLen(Spectra(l))
    ensures GetVowelFeatureSpectrum(l, l.entries[k].0).Some?
    ensures var f := GetVowelFeatureSpectrum(l, l.entries[k].0).value;
            j < |f| && f[j] == Column(Spectra(l), j)[k] - GetAverageSpectrum(l).value[j]
  {
    LookupAt(l, k);
    assert Column(Spectra(l), j)[k] == l.entries[k].1.spectrum[j];
  }

  /** Every stored vowel's feature in column j. */
  lemma FeaturesAt(l: Learner, j: nat)
    requires Valid(l) && |l.entries| > 0 && j < MinLen(Spectra(l))
    ensures forall k :: 0 <= k < |l.entries| ==>
              GetVowelFeatureSpectrum(l, l.entries[k].0).Some?
              && j < |GetVowelFeatureSpectrum(l, l.entries[k].0).value|
              && GetVowelFeatureSpectrum(l, l.entries[k].0).value[j]
                 == Column(Spectra(l), j)[k] - GetAverageSpectrum(l).value[j]
  {
    forall k | 0 <= k < |l.entries| {
      FeatureAt(l, k, j);
    }
  }

  /** Column j of the feature spectra of all stored vowels. */
  function FeatureColumn(l: Learner, j: nat): (c: seq<real>)
    requires Valid(l) && |l.entries| > 0 && j < MinLen(Spectra(l))
    ensures |c| == |l.entries|
    ensures forall k :: 0 <= k < |c| ==>
              c[k] == Column(Spectra(l), j)[k] - GetAverageSpectrum(l).value[j]
  {
    FeaturesAt(l, j);
    seq(|l.entries|, k requires 0 <= k < |l.entries| => GetVowelFeatureSpectrum(l, l.entries[k].0).value[j])
  }

  /** The feature spectra of all stored vowels cancel: in every column
      they sum to 0. */
  lemma FeaturesCancel(l: Learner, j: nat)
    requires Valid(l) && |l.entries| > 0 && j < MinLen(Spectra(l))
    ensures Sum(FeatureColumn(l, j)) == 0.0
  {
    var a := GetAverageSpectrum(l).value[j];
    var c := Column(Spectra(l), j);
    LessConstant(FeatureColumn(l, j), c, a);
    SumLessConstant(c, a);
    MeanTimesCount(Sum(c), |l.entries|, a);
  }

  lemma LessConstant(f: seq<real>, c: seq<real>, a: real)
    requires |f| == |c| && forall k :: 0 <= k < |f| ==> f[k] == c[k] - a
    ensures f == seq(|c|, k requires 0 <= k < |c| => c[k] - a)
  {
  }

  lemma MeanTimesCount(s: real, n: nat, a: real)
    requires n > 0 && a == s / n as real
    ensures s - Times(n as real, a) == 0.0
  {
  }
}
