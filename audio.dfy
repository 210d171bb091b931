/** Values shared by the whole model: bytes of the audio stream, the 32-bit
    float samples they encode, the status a stream call reports, and the
    concatenation of windows. */
module Audio {

  /** One byte of the native-endian 32-bit float sample stream. */
  type Byte = bv8

  /** Number of bytes in one sample (a 32-bit float). */
  const SAMPLE_SIZE: nat := 4

  /** A sample, kept as the four bytes of its float in memory order: the
      stretching layer never looks at sample values. */
  datatype Sample = Sample(b0: Byte, b1: Byte, b2: Byte, b3: Byte)

  datatype Option<T> = None | Some(value: T)

  /** What a stream call reports besides its count: a nil error, io.EOF, or
      (model only) that the call would wait for the other side. */
  datatype Status = Ok | EndOfStream | WouldBlock

  /** The windows of `ws`, one after another. */
  function Flatten(ws: seq<seq<Byte>>): seq<Byte>
  {
    if ws == [] then [] else ws[0] + Flatten(ws[1..])
  }

  lemma {:induction false} FlattenConcat(ws: seq<seq<Byte>>, vs: seq<seq<Byte>>)
    ensures Flatten(ws + vs) == Flatten(ws) + Flatten(vs)
  {
    if ws == [] {
      assert ws + vs == vs;
    } else {
      assert (ws + vs)[1..] == ws[1..] + vs;
      FlattenConcat(ws[1..], vs);
    }
  }

  /** Every window of `ws` holds exactly `size` bytes. */
  predicate AllSized(ws: seq<seq<Byte>>, size: nat)
  {
    ws == [] || (|ws[0]| == size && AllSized(ws[1..], size))
  }

  lemma {:induction false} AllSizedAppend(ws: seq<seq<Byte>>, w: seq<Byte>, size: nat)
    requires AllSized(ws, size) && |w| == size
    ensures AllSized(ws + [w], size)
  {
    if ws == [] {
      assert [w][1..] == [];
    } else {
      assert (ws + [w])[1..] == ws[1..] + [w];
      AllSizedAppend(ws[1..], w, size);
    }
  }

  /** Windows of a positive size are non-empty. */
  lemma {:induction false} AllSizedNonEmpty(ws: seq<seq<Byte>>, size: nat)
    requires AllSized(ws, size) && size > 0
    ensures forall q <- ws :: |q| > 0
  {
    if ws != [] {
      AllSizedNonEmpty(ws[1..], size);
      assert ws == [ws[0]] + ws[1..];
    }
  }

  lemma {:induction false} AllSizedPrefix(ws: seq<seq<Byte>>, k: nat, size: nat)
    requires AllSized(ws, size) && k <= |ws|
    ensures AllSized(ws[..k], size)
  {
    if k > 0 {
      assert ws[..k][1..] == ws[1..][..k - 1];
      AllSizedPrefix(ws[1..], k - 1, size);
    }
  }

  lemma MulStep(k: int, w: int)
    ensures w + k * w == (k + 1) * w
  {
  }

  /** Windows all of one size `w` concatenate to `|ws| * w` bytes. */
  lemma {:induction false} FlattenLength(ws: seq<seq<Byte>>, w: nat)
    requires AllSized(ws, w)
    ensures |Flatten(ws)| == |ws| * w
  {
    if ws != [] {
      FlattenLength(ws[1..], w);
      MulStep(|ws| - 1, w);
    }
  }

  /** The byte view of a sample array (what the reflect.SliceHeader
      reinterpretation exposes). */
  function SampleBytes(samples: seq<Sample>): (b: seq<Byte>)
    ensures |b| == SAMPLE_SIZE * |samples|
  {
    if samples == [] then []
    else
      var s := samples[0];
      [s.b0, s.b1, s.b2, s.b3] + SampleBytes(samples[1..])
  }

  /** The sample view of a byte buffer whose length is a whole number of samples. */
  function ToSamples(b: seq<Byte>): (samples: seq<Sample>)
    requires |b| % SAMPLE_SIZE == 0
    ensures SAMPLE_SIZE * |samples| == |b|
  {
    if |b| == 0 then []
    else [Sample(b[0], b[1], b[2], b[3])] + ToSamples(b[4..])
  }

  lemma {:induction false} SamplesRoundTrip(samples: seq<Sample>)
    ensures ToSamples(SampleBytes(samples)) == samples
  {
    if samples != [] {
      var b := SampleBytes(samples);
      assert b[4..] == SampleBytes(samples[1..]);
      SamplesRoundTrip(samples[1..]);
    }
  }

  lemma {:induction false} BytesRoundTrip(b: seq<Byte>)
    requires |b| % SAMPLE_SIZE == 0
    ensures SampleBytes(ToSamples(b)) == b
  {
    if |b| != 0 {
      var samples := ToSamples(b);
      assert samples[1..] == ToSamples(b[4..]);
      BytesRoundTrip(b[4..]);
    }
  }

  /** A byte count as a count of whole samples (the `n / 4` of WriteSamples
      and ReadSamples): never fractional, never more than the bytes allow. */
  function SampleCount(bytes: nat): (r: nat)
    ensures SAMPLE_SIZE * r <= bytes < SAMPLE_SIZE * r + SAMPLE_SIZE
  {
    bytes / SAMPLE_SIZE
  }
}
