/** AudioIn: 44.1 kHz 16-bit mono capture. Start sizes the capture buffer
    from the batch size; each DataAvailable callback of exactly one batch
    of bytes is decoded, little-endian, into signed 16-bit samples (kept as
    floats, which hold every 16-bit value exactly) and handed on. The audio
    device itself is not modelled: the recorded bytes are inputs. */
module AudioCapture {
  import opened Common

  const BitDepth: int := 16

  /** Bytes per sample (BIT_DEPTH / 8). */
  const BytesPerSample: int := BitDepth / 8

  /** The WaveIn buffer length Start asks for, in milliseconds:
      1000 / (SAMPLE_RATE / samplesPerBatch) in integer division. A batch
      of 0 or of more than SAMPLE_RATE samples divides by zero, and a
      negative batch cannot size the sample array: Start throws (None). */
  function BufferMilliseconds(samplesPerBatch: int): (r: Option<int>)
    ensures r.Some? <==> 0 < samplesPerBatch <= SampleRate
    ensures r.Some? ==> 0 <= r.value <= 1000
    ensures r.Some? ==> (r.value == 0 <==> samplesPerBatch <= 44)
    ensures r.Some? ==>
              var perBuffer := SampleRate / samplesPerBatch;
              r.value * perBuffer <= 1000 < (r.value + 1) * perBuffer
  {
    if samplesPerBatch <= 0 || SampleRate / samplesPerBatch == 0 then None
    else
      var perBuffer := SampleRate / samplesPerBatch;
      assert perBuffer > 1000 <==> samplesPerBatch <= 44 by {
        BatchesPerSecond(samplesPerBatch);
      }
      Some(1000 / perBuffer)
  }

  /** SAMPLE_RATE / n exceeds 1000 exactly for n up to 44. */
  lemma BatchesPerSecond(n: int)
    requires 0 < n <= SampleRate
    ensures SampleRate / n > 1000 <==> n <= 44
  {
    var q := SampleRate / n;
    assert q * n <= SampleRate < (q + 1) * n;
    if n <= 44 && q <= 1000 {
      MulMono(q + 1, n, 1001, 44);
    }
    if n > 44 && q > 1000 {
      MulMono(1001, 45, q, n);
    }
  }

  lemma MulMono(a: nat, b: nat, c: nat, d: nat)
    requires a <= c && b <= d
    ensures a * b <= c * d
  {
    assert a * b <= c * b;
  }

  /** The FFT's update size, a quarter second, asks for 250 ms buffers. */
  lemma QuarterSecondBuffers()
    ensures BufferMilliseconds(SamplesInUpdate) == Some(250)
  {
  }

  /** A byte of the capture buffer. */
  newtype byte = b: int | 0 <= b < 256

  /** lo | hi << 8 for two bytes: the bits do not overlap, so the OR adds. */
  lemma OrAdds(lo: bv16, hi: bv16)
    requires lo < 256 && hi < 256
    ensures lo | (hi << 8) == lo + hi * 256
  {
  }

  /** The little-endian 16-bit word of two bytes. */
  function Word(lo: byte, hi: byte): int {
    lo as int + 256 * hi as int
  }

  /** (short)(lo | hi << 8): the word read as two's complement. */
  function Sample(lo: byte, hi: byte): (x: int)
    ensures -32768 <= x <= 32767
    ensures x >= 0 <==> hi < 128
  {
    var u := Word(lo, hi);
    if u >= 0x8000 then u - 0x10000 else u
  }

  /** The inverse: a 16-bit sample as its little-endian bytes. */
  function SampleBytes(x: int): (b: (byte, byte))
    requires -32768 <= x <= 32767
    ensures b.1 < 128 <==> x >= 0
  {
    var u := if x < 0 then x + 0x10000 else x;
    ((u % 256) as byte, (u / 256) as byte)
  }

  /** Decoding undoes encoding. */
  lemma SampleOfBytes(x: int)
    requires -32768 <= x <= 32767
    ensures Sample(SampleBytes(x).0, SampleBytes(x).1) == x
  {
  }

  /** Encoding undoes decoding: every pair of bytes is some sample. */
  lemma BytesOfSample(lo: byte, hi: byte)
    ensures SampleBytes(Sample(lo, hi)) == (lo, hi)
  {
  }

  /** The recorder: the batch size and the sample array Start allocates. */
  datatype Recorder = Recorder(samplesPerBatch: nat, data: seq<real>)

  /** The samples of a buffer of bytes, two bytes per sample. */
  function Samples(buffer: seq<byte>, count: nat): (s: seq<real>)
    requires 2 * count <= |buffer|
    ensures |s| == count
    ensures forall i :: 0 <= i < count ==> s[i] == Sample(buffer[2 * i], buffer[2 * i + 1]) as real
  {
    seq(count, i requires 0 <= i < count => Sample(buffer[2 * i], buffer[2 * i + 1]) as real)
  }

  /** waveIn_DataAvailable: a callback whose byte count is not one batch is
      dropped (nothing changes, no event); otherwise every sample of the
      batch is decoded into the array, which is then passed to the
      subscriber, if any. */
  function DataAvailable(r: Recorder, buffer: seq<byte>, bytesRecorded: int, attached: bool)
    : (out: (Recorder, Option<seq<real>>))
    requires |r.data| == r.samplesPerBatch
    requires 0 <= bytesRecorded <= |buffer|
    ensures |out.0.data| == r.samplesPerBatch == out.0.samplesPerBatch
    ensures bytesRecorded != r.samplesPerBatch * BytesPerSample ==> out == (r, None)
    ensures bytesRecorded == r.samplesPerBatch * BytesPerSample ==>
              forall i :: 0 <= i < r.samplesPerBatch ==>
                out.0.data[i] == Sample(buffer[2 * i], buffer[2 * i + 1]) as real
    ensures out.1.Some? <==> bytesRecorded == r.samplesPerBatch * BytesPerSample && attached
    ensures out.1.Some? ==> out.1.value == out.0.data
  {
    if bytesRecorded != r.samplesPerBatch * BytesPerSample then (r, None)
    else
      var d := Samples(buffer, r.samplesPerBatch);
      (Recorder(r.samplesPerBatch, d), if attached then Some(d) else None)
  }

  /** The bytes of a run of samples. */
  function Encoded(s: seq<int>): (b: seq<byte>)
    requires forall i :: 0 <= i < |s| ==> -32768 <= s[i] <= 32767
    ensures |b| == 2 * |s|
    ensures forall i :: 0 <= i < |s| ==> b[2 * i] == SampleBytes(s[i]).0 && b[2 * i + 1] == SampleBytes(s[i]).1
  {
    if |s| == 0 then []
    else
      var front := Encoded(s[..|s| - 1]);
      var last := SampleBytes(s[|s| - 1]);
      front + [last.0, last.1]
  }

  /** A batch recorded from samples s is delivered as s. */
  lemma {:induction false} DeliversRecordedSamples(r: Recorder, s: seq<int>)
    requires |r.data| == r.samplesPerBatch == |s|
    requires forall i :: 0 <= i < |s| ==> -32768 <= s[i] <= 32767
    ensures var out := DataAvailable(r, Encoded(s), 2 * |s|, true);
            out.1 == Some(seq(|s|, i requires 0 <= i < |s| => s[i] as real))
  {
    var b := Encoded(s);
    var out := DataAvailable(r, b, 2 * |s|, true);
    var want := seq(|s|, i requires 0 <= i < |s| => s[i] as real);
    forall i | 0 <= i < |s|
      ensures out.0.data[i] == want[i]
    {
      SampleOfBytes(s[i]);
    }
    assert out.0.data == want;
  }
}
