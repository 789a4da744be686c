/** FftProcessor.ProcessSamples: a sliding buffer of FFT_LENGTH samples.
    Each accepted block of SAMPLES_IN_UPDATE samples shifts the buffer left
    by one block and appends the block under a Hann window; the transform
    (FFTW, a parameter here) of the buffer is then handed to the
    subscriber. The cosine is a parameter too: cosTurns(x) = cos(2 pi x). */
module FftFraming {
  import opened Common

  /** The buffer is four blocks long. */
  lemma FourBlocksLong()
    ensures FftLength == 4 * SamplesInUpdate
  {
  }

  /** hannWindow(i, SAMPLES_IN_UPDATE) = 0.5 (1 - cos(2 pi i / (N - 1))). */
  function Hann(i: int, cosTurns: real -> real): real {
    0.5 * (1.0 - cosTurns(i as real / (SamplesInUpdate - 1) as real))
  }

  /** With a cosine in [-1, 1] the window lies in [0, 1]. */
  lemma HannBounded(i: int, cosTurns: real -> real)
    requires -1.0 <= cosTurns(i as real / (SamplesInUpdate - 1) as real) <= 1.0
    ensures 0.0 <= Hann(i, cosTurns) <= 1.0
  {
  }

  /** A block under the window. */
  function Windowed(samples: seq<real>, cosTurns: real -> real): (w: seq<real>)
    ensures |w| == |samples|
    ensures forall i :: 0 <= i < |samples| ==> w[i] == samples[i] * Hann(i, cosTurns)
  {
    seq(|samples|, i requires 0 <= i < |samples| => samples[i] * Hann(i, cosTurns))
  }

  /** The processor's input buffer (dataIn). */
  datatype Processor = Processor(dataIn: seq<real>)

  /** The buffer has FFT_LENGTH samples. */
  predicate Framed(p: Processor) {
    |p.dataIn| == FftLength
  }

  /** A new processor: FFT_LENGTH zeros. */
  const NewProcessor: Processor := Processor(seq(FftLength, i => 0.0))

  /** The buffer after an accepted block: the old buffer from one block on,
      then the windowed block. */
  function Shifted(p: Processor, samples: seq<real>, cosTurns: real -> real): Processor
    requires |p.dataIn| >= SamplesInUpdate
  {
    Processor(p.dataIn[SamplesInUpdate..] + Windowed(samples, cosTurns))
  }

  /** ProcessSamples: a block of the wrong length is dropped with nothing
      changed and no event; an accepted one moves the buffer on and, when a
      handler is attached, fires the event once with the transform of the
      new buffer. */
  function ProcessSamples(p: Processor, samples: seq<real>, cosTurns: real -> real,
                          transform: seq<real> -> seq<real>, attached: bool): (r: (Processor, Option<seq<real>>))
    requires Framed(p)
    ensures Framed(r.0)
    ensures |samples| != SamplesInUpdate ==> r == (p, None)
    ensures |samples| == SamplesInUpdate ==>
              (forall i :: 0 <= i < FftLength - SamplesInUpdate ==> r.0.dataIn[i] == p.dataIn[i + SamplesInUpdate])
              && (forall i :: 0 <= i < SamplesInUpdate ==>
                    r.0.dataIn[FftLength - SamplesInUpdate + i] == samples[i] * Hann(i, cosTurns))
    ensures r.1.Some? <==> |samples| == SamplesInUpdate && attached
    ensures r.1.Some? ==> r.1.value == transform(r.0.dataIn)
  {
    if |samples| != SamplesInUpdate then (p, None)
    else
      var q := Shifted(p, samples, cosTurns);
      (q, if attached then Some(transform(q.dataIn)) else None)
  }

  /** The buffer after accepted blocks `blocks`, in order (ProcessSamples
      on each, see FeedIsProcessSamples). */
  function Feed(p: Processor, blocks: seq<seq<real>>, cosTurns: real -> real): (q: Processor)
    requires Framed(p)
    requires forall k :: 0 <= k < |blocks| ==> |blocks[k]| == SamplesInUpdate
    ensures Framed(q)
  {
    if |blocks| == 0 then p
    else Shifted(Feed(p, blocks[..|blocks| - 1], cosTurns), blocks[|blocks| - 1], cosTurns)
  }

  /** Feed takes each block through ProcessSamples, whatever the transform
      and subscription. */
  lemma FeedIsProcessSamples(p: Processor, blocks: seq<seq<real>>, cosTurns: real -> real,
                             transform: seq<real> -> seq<real>, attached: bool)
    requires Framed(p) && |blocks| > 0
    requires forall k :: 0 <= k < |blocks| ==> |blocks[k]| == SamplesInUpdate
    ensures Feed(p, blocks, cosTurns)
            == ProcessSamples(Feed(p, blocks[..|blocks| - 1], cosTurns), blocks[|blocks| - 1],
                              cosTurns, transform, attached).0
  {
  }

  /** The windowed blocks one after the other. */
  function WindowsOf(blocks: seq<seq<real>>, cosTurns: real -> real): (w: seq<real>)
    requires forall k :: 0 <= k < |blocks| ==> |blocks[k]| == SamplesInUpdate
    ensures |w| == |blocks| * SamplesInUpdate
  {
    if |blocks| == 0 then []
    else WindowsOf(blocks[..|blocks| - 1], cosTurns) + Windowed(blocks[|blocks| - 1], cosTurns)
  }

  /** Four blocks fill the buffer. */
  lemma BlocksFit(n: nat)
    requires n <= 4
    ensures n * SamplesInUpdate <= FftLength
    ensures n == 4 ==> n * SamplesInUpdate == FftLength
  {
  }

  /** After up to four accepted blocks the buffer holds what is left of the
      old one followed by the blocks, each under the window. */
  lemma {:induction false} FeedShifts(p: Processor, blocks: seq<seq<real>>, cosTurns: real -> real)
    requires Framed(p) && |blocks| <= 4
    requires forall k :: 0 <= k < |blocks| ==> |blocks[k]| == SamplesInUpdate
    ensures |WindowsOf(blocks, cosTurns)| <= FftLength
    ensures Feed(p, blocks, cosTurns).dataIn
            == p.dataIn[|WindowsOf(blocks, cosTurns)|..] + WindowsOf(blocks, cosTurns)
  {
    BlocksFit(|blocks|);
    if |blocks| > 0 {
      var n := |blocks|;
      var front := blocks[..n - 1];
      FeedShifts(p, front, cosTurns);
      var w := WindowsOf(front, cosTurns);
      var last := Windowed(blocks[n - 1], cosTurns);
      assert WindowsOf(blocks, cosTurns) == w + last;
      assert Feed(p, blocks, cosTurns).dataIn == Feed(p, front, cosTurns).dataIn[SamplesInUpdate..] + last;
      ShiftStep(p.dataIn, w, last);
    }
  }

  /** One more block: dropping a block's length from the kept part of the
      old buffer and appending the block. */
  lemma ShiftStep(d: seq<real>, w: seq<real>, last: seq<real>)
    requires |w| + |last| <= |d|
    ensures (d[|w|..] + w)[|last|..] + last == d[|w + last|..] + (w + last)
  {
    var x := d[|w|..];
    assert (x + w)[|last|..] == x[|last|..] + w;
    assert x[|last|..] == d[|w + last|..];
  }

  /** A sample is gone from the buffer by the fourth accepted block after
      its own: four blocks fill the buffer whatever it held before. */
  lemma FourthBlockEvicts(p: Processor, p': Processor, blocks: seq<seq<real>>, cosTurns: real -> real)
    requires Framed(p) && Framed(p') && |blocks| == 4
    requires forall k :: 0 <= k < |blocks| ==> |blocks[k]| == SamplesInUpdate
    ensures Feed(p, blocks, cosTurns) == Feed(p', blocks, cosTurns)
    ensures Feed(p, blocks, cosTurns).dataIn == WindowsOf(blocks, cosTurns)
  {
    FeedShifts(p, blocks, cosTurns);
    FeedShifts(p', blocks, cosTurns);
    BlocksFit(4);
    assert p.dataIn[FftLength..] == [];
    assert p'.dataIn[FftLength..] == [];
  }
}
