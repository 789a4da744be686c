/** The records the formant analysis passes around (Formant, Vowel) and the
    table of reference vowels the program ships. */
module Vowels {

  /** A formant: a frequency (in Hz, or a harmonic index in the older
      analyzer) and its strength. The default value is Formant(0, 0). */
  datatype Formant = Formant(freq: real, value: real)

  /** What a missing formant reads as: a default-initialised struct. */
  const NoFormant: Formant := Formant(0.0, 0.0)

  /** A reference vowel: for each of F1, F2, F3 a low and a high frequency,
      a standard deviation and an amplitude in decibels. */
  datatype Vowel = Vowel(vowel: string, formantLows: seq<real>, formantHighs: seq<real>,
                         formantStdDevs: seq<int>, formantAmplitudes: seq<int>)

  /** A vowel with data for exactly three formants. */
  predicate WellFormed(v: Vowel) {
    |v.formantLows| == 3 && |v.formantHighs| == 3
    && |v.formantStdDevs| == 3 && |v.formantAmplitudes| == 3
  }

  /** The vowels of VowelData, named by the word that carries them: their
      formant ranges, standard deviations and amplitudes. */
  const Bead: Vowel := Vowel("i", [270.0, 2290.0, 3010.0], [370.0, 3200.0, 3730.0], [46, 166, 217], [-4, -24, -28])
  const Bid: Vowel := Vowel("I", [390.0, 1990.0, 2550.0], [530.0, 2730.0, 3600.0], [54, 111, 132], [-3, -23, -27])
  const Bed: Vowel := Vowel("ɛ", [530.0, 1840.0, 2480.0], [690.0, 2610.0, 3570.0], [48, 124, 139], [-2, -17, -24])
  const Bad: Vowel := Vowel("æ", [660.0, 1720.0, 2410.0], [1010.0, 2320.0, 3320.0], [101, 103, 123], [-1, -12, -22])
  const About: Vowel := Vowel("ə", [490.0, 1350.0, 1690.0], [560.0, 1820.0, 2160.0], [80, 140, 220], [-5, -15, -20])
  const Bud: Vowel := Vowel("ʌ", [640.0, 1190.0, 2390.0], [850.0, 1590.0, 3360.0], [60, 140, 200], [-1, -10, -27])
  const Food: Vowel := Vowel("u", [280.0, 870.0, 2240.0], [350.0, 1170.0, 3260.0], [80, 109, 144], [-3, -19, -43])
  const Good: Vowel := Vowel("ʊ", [440.0, 1020.0, 2240.0], [560.0, 1410.0, 3310.0], [46, 76, 213], [-1, -12, -34])
  const Born: Vowel := Vowel("ɔ", [570.0, 840.0, 2410.0], [680.0, 1060.0, 3320.0], [66, 85, 183], [0, -7, -34])
  const Bard: Vowel := Vowel("ɑ", [730.0, 1090.0, 2440.0], [1030.0, 1370.0, 3170.0], [105, 70, 176], [-1, -5, -28])

  /** The table of VowelData, in its order. */
  const Table: seq<Vowel> := [Bead, Bid, Bed, Bad, About, Bud, Food, Good, Born, Bard]

  /** The shape the analysis relies on for one vowel: three formants, each
      range non-empty, the ranges in F1, F2, F3 order and F1 the loudest. */
  predicate VowelShape(v: Vowel) {
    WellFormed(v)
    && v.formantLows[0] < v.formantHighs[0] && v.formantLows[1] < v.formantHighs[1]
    && v.formantLows[2] < v.formantHighs[2]
    && v.formantLows[0] < v.formantLows[1] < v.formantLows[2]
    && v.formantAmplitudes[1] <= v.formantAmplitudes[0] && v.formantAmplitudes[2] <= v.formantAmplitudes[0]
  }

  /** Every vowel of `t` well shaped and no vowel listed twice. */
  ghost predicate TableShape(t: seq<Vowel>) {
    (forall i :: 0 <= i < |t| ==> VowelShape(t[i]))
    && (forall i, j :: 0 <= i < j < |t| ==> t[i].vowel != t[j].vowel)
  }

  lemma TableWellShaped()
    ensures |Table| == 10
    ensures TableShape(Table)
  {
    assert VowelShape(Bead) && VowelShape(Bid) && VowelShape(Bed) && VowelShape(Bad);
    assert VowelShape(About) && VowelShape(Bud) && VowelShape(Food) && VowelShape(Good);
    assert VowelShape(Born) && VowelShape(Bard);
    NamesDistinct();
  }

  /** Every vowel of the table has data for three formants. */
  lemma TableWellFormed()
    ensures forall k :: 0 <= k < |Table| ==> WellFormed(Table[k])
  {
    assert WellFormed(Bead) && WellFormed(Bid) && WellFormed(Bed) && WellFormed(Bad) && WellFormed(About);
    assert WellFormed(Bud) && WellFormed(Food) && WellFormed(Good) && WellFormed(Born) && WellFormed(Bard);
  }

  lemma NamesDistinct()
    ensures forall i, j :: 0 <= i < j < |Table| ==> Table[i].vowel != Table[j].vowel
  {
    forall i, j | 0 <= i < j < |Table|
      ensures Table[i].vowel != Table[j].vowel
    {
      assert |Table[i].vowel| == 1 && |Table[j].vowel| == 1;
      assert Table[i].vowel[0] != Table[j].vowel[0];
    }
  }
}
