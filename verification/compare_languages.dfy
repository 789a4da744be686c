/** CompareLanguageRecordings: formant observations read from a CSV file
    (a header line, then one line per observation: F1, F2, F3 frequencies
    and their values) and a score of how far a recording lies from the
    vowels of a language. Reading the file is left to the caller, which
    passes its lines; float.Parse is a parameter that gives None where it
    throws. */
module LanguageComparison {
  import opened Common
  import opened Vowels

  // ---------------------------------------------------------------------
  // Comma-separated fields

  /** string.Split(','): the pieces between commas, empty ones included. */
  function Split(s: string): (parts: seq<string>)
    ensures |parts| > 0
    ensures forall k :: 0 <= k < |parts| ==> ',' !in parts[k]
  {
    if |s| == 0 then [""]
    else
      var rest := Split(s[1..]);
      if s[0] == ',' then [""] + rest
      else [[s[0]] + rest[0]] + rest[1..]
  }

  /** The pieces joined with commas. */
  function Join(parts: seq<string>): string
    requires |parts| > 0
  {
    if |parts| == 1 then parts[0] else parts[0] + "," + Join(parts[1..])
  }

  /** The number of commas in s. */
  function Commas(s: string): nat {
    if |s| == 0 then 0 else (if s[0] == ',' then 1 else 0) + Commas(s[1..])
  }

  /** Split yields one more piece than there are commas. */
  lemma {:induction false} SplitCount(s: string)
    ensures |Split(s)| == Commas(s) + 1
  {
    if |s| > 0 {
      SplitCount(s[1..]);
    }
  }

  /** Joining the pieces gives the line back. */
  lemma {:induction false} JoinSplit(s: string)
    ensures Join(Split(s)) == s
  {
    if |s| > 0 {
      var rest := Split(s[1..]);
      JoinSplit(s[1..]);
      if s[0] == ',' {
        assert Split(s) == [""] + rest;
        assert Split(s)[1..] == rest;
      } else {
        var parts := Split(s);
        assert parts[1..] == rest[1..];
        if |rest| == 1 {
          assert Join(parts) == [s[0]] + rest[0];
        } else {
          assert Join(rest) == rest[0] + "," + Join(rest[1..]);
          assert Join(parts) == ([s[0]] + rest[0]) + "," + Join(rest[1..]);
        }
      }
      assert s == [s[0]] + s[1..];
    }
  }

  /** Splitting comma-free pieces joined by commas gives the pieces back. */
  lemma {:induction false} SplitJoin(parts: seq<string>)
    requires |parts| > 0
    requires forall k :: 0 <= k < |parts| ==> ',' !in parts[k]
    ensures Split(Join(parts)) == parts
  {
    if |parts| == 1 {
      CommaFreePiece(parts[0], []);
      assert parts[0] + [] == parts[0];
    } else {
      SplitJoin(parts[1..]);
      var tail := "," + Join(parts[1..]);
      assert Split(tail) == [""] + parts[1..] by {
        assert tail[1..] == Join(parts[1..]);
      }
      assert Join(parts) == parts[0] + tail;
      CommaFreePiece(parts[0], tail);
      assert parts[0] + Split(tail)[0] == parts[0];
      assert Split(tail)[1..] == parts[1..];
      assert parts == [parts[0]] + parts[1..];
    }
  }

  /** A comma-free head joins the first piece of what follows. */
  lemma {:induction false} CommaFreePiece(p: string, t: string)
    requires ',' !in p
    ensures Split(p + t) == [p + Split(t)[0]] + Split(t)[1..]
  {
    var st := Split(t);
    if |p| > 0 {
      assert (p + t)[1..] == p[1..] + t;
      assert p[0] in p;
      CommaFreePiece(p[1..], t);
      var rest := Split(p[1..] + t);
      assert rest[0] == p[1..] + st[0] && rest[1..] == st[1..];
      assert [p[0]] + (p[1..] + st[0]) == p + st[0];
    } else {
      assert p + t == t && p + st[0] == st[0];
      assert st == [st[0]] + st[1..];
    }
  }

  // ---------------------------------------------------------------------
  // Observations

  /** One CSV line as an observation: six fields, the three frequencies
      then the three values. None when the line does not have six fields
      or a field does not parse. */
  function Observation(line: string, parse: string -> Option<real>): (r: Option<seq<Formant>>)
    ensures r.Some? ==> |r.value| == 3
    ensures |Split(line)| != 6 ==> r.None?
    ensures |Split(line)| == 6 ==>
              (r.Some? <==> forall j :: 0 <= j < 6 ==> parse(Split(line)[j]).Some?)
    ensures r.Some? ==> forall j :: 0 <= j < 3 ==>
              r.value[j] == Formant(parse(Split(line)[j]).value, parse(Split(line)[j + 3]).value)
  {
    var parts := Split(line);
    if |parts| != 6 then None
    else if forall j :: 0 <= j < 6 ==> parse(parts[j]).Some? then
      Some(seq(3, j requires 0 <= j < 3 => Formant(parse(parts[j]).value, parse(parts[j + 3]).value)))
    else
      assert exists j :: 0 <= j < 6 && parse(parts[j]).None?;
      None
  }

  /** csvToObservations: the first line is a header and is skipped; every
      further line is one observation. An empty file fails (the list is
      created with capacity -1), as does any malformed line. */
  function CsvToObservations(lines: seq<string>, parse: string -> Option<real>)
    : (r: Option<seq<seq<Formant>>>)
    ensures r.Some? <==> |lines| > 0 && forall i :: 1 <= i < |lines| ==> Observation(lines[i], parse).Some?
    ensures r.Some? ==> |r.value| == |lines| - 1
    ensures r.Some? ==> forall i :: 1 <= i < |lines| ==> r.value[i - 1] == Observation(lines[i], parse).value
  {
    if |lines| == 0 then None
    else ObservationsFrom(lines, 1, parse)
  }

  function ObservationsFrom(lines: seq<string>, start: nat, parse: string -> Option<real>)
    : (r: Option<seq<seq<Formant>>>)
    requires 1 <= start <= |lines|
    ensures r.Some? <==> forall i :: start <= i < |lines| ==> Observation(lines[i], parse).Some?
    ensures r.Some? ==> |r.value| == |lines| - start
    ensures r.Some? ==> forall i :: start <= i < |lines| ==> r.value[i - start] == Observation(lines[i], parse).value
    decreases |lines| - start
  {
    if start == |lines| then Some([])
    else
      match Observation(lines[start], parse)
      case None => None
      case Some(o) =>
        match ObservationsFrom(lines, start + 1, parse)
        case None => None
        case Some(rest) => Some([o] + rest)
  }

  /** The CSV line of an observation, written with `show`. */
  function Line(o: seq<Formant>, show: real -> string): string
    requires |o| == 3
  {
    Join([show(o[0].freq), show(o[1].freq), show(o[2].freq),
          show(o[0].value), show(o[1].value), show(o[2].value)])
  }

  /** Observations written one per line under any header, with a number
      format that parse reads back and that has no commas, are read back
      as they were. */
  lemma ReadsBackWritten(header: string, obs: seq<seq<Formant>>, show: real -> string,
                         parse: string -> Option<real>)
    requires forall k :: 0 <= k < |obs| ==> |obs[k]| == 3
    requires forall x :: parse(show(x)) == Some(x) && ',' !in show(x)
    ensures CsvToObservations([header] + seq(|obs|, k requires 0 <= k < |obs| => Line(obs[k], show)), parse)
            == Some(obs)
  {
    var lines := [header] + seq(|obs|, k requires 0 <= k < |obs| => Line(obs[k], show));
    forall i | 1 <= i < |lines|
      ensures Observation(lines[i], parse) == Some(obs[i - 1])
    {
      assert lines[i] == Line(obs[i - 1], show);
      LineReadsBack(obs[i - 1], show, parse);
    }
    var r := CsvToObservations(lines, parse);
    assert r.Some?;
    forall k | 0 <= k < |obs|
      ensures r.value[k] == obs[k]
    {
      assert r.value[k] == Observation(lines[k + 1], parse).value;
    }
    assert r.value == obs;
  }

  lemma LineReadsBack(o: seq<Formant>, show: real -> string, parse: string -> Option<real>)
    requires |o| == 3
    requires forall x :: parse(show(x)) == Some(x) && ',' !in show(x)
    ensures Observation(Line(o, show), parse) == Some(o)
  {
    var parts := [show(o[0].freq), show(o[1].freq), show(o[2].freq),
                  show(o[0].value), show(o[1].value), show(o[2].value)];
    SplitJoin(parts);
    var r := Observation(Line(o, show), parse).value;
    assert r == o;
  }

  // ---------------------------------------------------------------------
  // Scoring

  /** The distance of an observation from a vowel as percentInLanguage
      writes it: for F1 and F2, the larger of the two one-sided gaps to the
      vowel's low edge shifted by 0 times the standard deviation. */
  function Distance(o: seq<Formant>, v: Vowel): real
    requires |o| == 3 && WellFormed(v)
  {
    var m1 := v.formantLows[0];
    var m2 := v.formantLows[1];
    var sd1 := (0 * v.formantStdDevs[0]) as real;
    var sd2 := (0 * v.formantStdDevs[1]) as real;
    MaxR(o[0].freq - m1 - sd1, m1 - sd1 - o[0].freq)
    + MaxR(o[1].freq - m2 - sd2, m2 - sd2 - o[1].freq)
  }

  /** The distance is the Manhattan distance of (F1, F2) to the vowel's
      low edges: the standard deviations drop out. */
  lemma DistanceIsManhattan(o: seq<Formant>, v: Vowel)
    requires |o| == 3 && WellFormed(v)
    ensures Distance(o, v) == Abs(o[0].freq - v.formantLows[0]) + Abs(o[1].freq - v.formantLows[1])
    ensures Distance(o, v) >= 0.0
  {
  }

  /** The distances from an observation to each vowel. */
  function Distances(o: seq<Formant>, language: seq<Vowel>): (d: seq<real>)
    requires |o| == 3 && forall k :: 0 <= k < |language| ==> WellFormed(language[k])
    ensures |d| == |language|
  {
    seq(|language|, k requires 0 <= k < |language| => Distance(o, language[k]))
  }

  /** One observation's share of the score: Math.Max(0, the smallest
      distance to a vowel). */
  function Nearest(o: seq<Formant>, language: seq<Vowel>): (x: real)
    requires |o| == 3 && |language| > 0
    requires forall k :: 0 <= k < |language| ==> WellFormed(language[k])
    ensures x >= 0.0
    ensures forall k :: 0 <= k < |language| ==> x <= Distance(o, language[k])
    ensures exists k :: 0 <= k < |language| && x == Distance(o, language[k])
  {
    var d := Distances(o, language);
    var m := MinOf(d);
    forall k | 0 <= k < |language|
      ensures 0.0 <= Distance(o, language[k]) && m <= Distance(o, language[k])
    {
      assert d[k] == Distance(o, language[k]);
      DistanceIsManhattan(o, language[k]);
    }
    MaxR(0.0, m)
  }

  /** percentInLanguage: the summed distance of the observations from the
      nearest vowel of the language. With observations to score and no
      vowels, Min throws (None). The count of observations inside a
      vowel's band is computed by the source but not returned, so it is not
      part of the result. */
  function PercentInLanguage(observations: seq<seq<Formant>>, language: seq<Vowel>): (r: Option<real>)
    requires forall k :: 0 <= k < |observations| ==> |observations[k]| == 3
    requires forall k :: 0 <= k < |language| ==> WellFormed(language[k])
    ensures r.None? <==> |language| == 0 && |observations| > 0
    ensures r.Some? ==> r.value >= 0.0
    ensures |observations| == 0 ==> r == Some(0.0)
  {
    if |observations| == 0 then Some(0.0)
    else if |language| == 0 then None
    else Some(Score(observations, language))
  }

  /** The running score after each observation. */
  function Score(observations: seq<seq<Formant>>, language: seq<Vowel>): (s: real)
    requires |language| > 0
    requires forall k :: 0 <= k < |observations| ==> |observations[k]| == 3
    requires forall k :: 0 <= k < |language| ==> WellFormed(language[k])
    ensures s >= 0.0
  {
    if |observations| == 0 then 0.0
    else
      Score(observations[..|observations| - 1], language)
      + Nearest(observations[|observations| - 1], language)
  }

  /** An observation lies on a vowel: its F1 and F2 are the vowel's low
      edges. */
  predicate OnVowel(o: seq<Formant>, language: seq<Vowel>)
    requires |o| == 3 && forall k :: 0 <= k < |language| ==> WellFormed(language[k])
  {
    exists k :: 0 <= k < |language| && WellFormed(language[k])
                                    && o[0].freq == language[k].formantLows[0]
                                    && o[1].freq == language[k].formantLows[1]
  }

  /** The score is 0 exactly when every observation lies on some vowel. */
  lemma {:induction false} ZeroScoreMeansOnVowels(observations: seq<seq<Formant>>, language: seq<Vowel>)
    requires |language| > 0
    requires forall k :: 0 <= k < |observations| ==> |observations[k]| == 3
    requires forall k :: 0 <= k < |language| ==> WellFormed(language[k])
    ensures PercentInLanguage(observations, language) == Some(0.0)
            <==> forall i :: 0 <= i < |observations| ==> OnVowel(observations[i], language)
  {
    if |observations| > 0 {
      ScoreZero(observations, language);
    }
  }

  lemma {:induction false} ScoreZero(observations: seq<seq<Formant>>, language: seq<Vowel>)
    requires |language| > 0
    requires forall k :: 0 <= k < |observations| ==> |observations[k]| == 3
    requires forall k :: 0 <= k < |language| ==> WellFormed(language[k])
    ensures Score(observations, language) == 0.0
            <==> forall i :: 0 <= i < |observations| ==> OnVowel(observations[i], language)
  {
    if |observations| > 0 {
      var n := |observations|;
      var front := observations[..n - 1];
      ScoreZero(front, language);
      NearestZero(observations[n - 1], language);
      OnVowelsSplit(observations, language);
    }
  }

  /** Every observation lies on a vowel when all but the last do and the
      last does. */
  lemma OnVowelsSplit(observations: seq<seq<Formant>>, language: seq<Vowel>)
    requires |observations| > 0
    requires forall k :: 0 <= k < |observations| ==> |observations[k]| == 3
    requires forall k :: 0 <= k < |language| ==> WellFormed(language[k])
    ensures var front := observations[..|observations| - 1];
            (forall i :: 0 <= i < |observations| ==> OnVowel(observations[i], language))
            <==> (forall i :: 0 <= i < |front| ==> OnVowel(front[i], language))
                 && OnVowel(observations[|observations| - 1], language)
  {
    var n := |observations|;
    assert forall i :: 0 <= i < n - 1 ==> observations[..n - 1][i] == observations[i];
  }

  /** An observation adds nothing exactly when it lies on a vowel. */
  lemma NearestZero(o: seq<Formant>, language: seq<Vowel>)
    requires |o| == 3 && |language| > 0
    requires forall k :: 0 <= k < |language| ==> WellFormed(language[k])
    ensures Nearest(o, language) == 0.0 <==> OnVowel(o, language)
  {
    if Nearest(o, language) == 0.0 {
      var k :| 0 <= k < |language| && Nearest(o, language) == Distance(o, language[k]);
      DistanceIsManhattan(o, language[k]);
    }
    if OnVowel(o, language) {
      var k :| 0 <= k < |language| && o[0].freq == language[k].formantLows[0]
                                   && o[1].freq == language[k].formantLows[1];
      DistanceIsManhattan(o, language[k]);
    }
  }

  /** Only the low edges of F1 and F2 matter: languages whose vowels agree
      on them score every recording alike, whatever their high edges,
      deviations, F3 data or amplitudes. */
  lemma {:induction false} OnlyLowEdgesCount(observations: seq<seq<Formant>>, a: seq<Vowel>, b: seq<Vowel>)
    requires forall k :: 0 <= k < |observations| ==> |observations[k]| == 3
    requires |a| == |b|
    requires forall k :: 0 <= k < |a| ==>
               WellFormed(a[k]) && WellFormed(b[k])
               && a[k].formantLows[0] == b[k].formantLows[0] && a[k].formantLows[1] == b[k].formantLows[1]
    ensures PercentInLanguage(observations, a) == PercentInLanguage(observations, b)
  {
    if |observations| > 0 && |a| > 0 {
      forall o | |o| == 3
        ensures Distances(o, a) == Distances(o, b)
      {
        forall k | 0 <= k < |a|
          ensures Distance(o, a[k]) == Distance(o, b[k])
        {
          DistanceIsManhattan(o, a[k]);
          DistanceIsManhattan(o, b[k]);
        }
      }
      SameScore(observations, a, b);
    }
  }

  lemma {:induction false} SameScore(observations: seq<seq<Formant>>, a: seq<Vowel>, b: seq<Vowel>)
    requires forall k :: 0 <= k < |observations| ==> |observations[k]| == 3
    requires |a| > 0 && forall k :: 0 <= k < |a| ==> WellFormed(a[k])
    requires |a| == |b| && forall k :: 0 <= k < |b| ==> WellFormed(b[k])
    requires forall o :: |o| == 3 ==> Distances(o, a) == Distances(o, b)
    ensures Score(observations, a) == Score(observations, b)
  {
    if |observations| > 0 {
      var n := |observations|;
      SameScore(observations[..n - 1], a, b);
      assert Distances(observations[n - 1], a) == Distances(observations[n - 1], b);
    }
  }
}
