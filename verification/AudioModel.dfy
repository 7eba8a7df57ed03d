/** What the audio player sends to the sound device: source frames picked at the device's rate. */
module AudioModel {
  import opened Numbers

  const AC97_RATE: nat := 48000
  const DMA_BYTES: nat := 4096
  const DMA_FRAMES: nat := 1024
  const READ_AHEAD: nat := 32768

  datatype Format = Format(rate: nat, channels: nat, bits: nat)

  datatype Frame = Frame(left: int, right: int)

  predicate Supported(f: Format) {
    0 < f.rate < TWO_TO_32 && (f.channels == 1 || f.channels == 2) && (f.bits == 8 || f.bits == 16)
  }

  function FrameBytes(f: Format): (n: nat)
    requires Supported(f)
    ensures 1 <= n <= 4
  {
    f.channels * (f.bits / 8)
  }

  /** The source is already what the device plays. */
  predicate Native(f: Format) {
    f.rate == AC97_RATE && f.channels == 2 && f.bits == 16
  }

  function Signed16(lo: nat, hi: nat): int {
    var v := lo + 256 * hi;
    if v >= 32768 then v - 65536 else v
  }

  function Unsigned8(b: nat): int {
    (b - 128) * 256
  }

  /** One frame of source bytes; a single channel is heard on both sides. */
  function Decode(f: Format, data: seq<nat>, at: nat): Frame
    requires Supported(f) && at + FrameBytes(f) <= |data|
  {
    if f.bits == 16 then
      var left := Signed16(data[at], data[at + 1]);
      Frame(left, if f.channels >= 2 then Signed16(data[at + 2], data[at + 3]) else left)
    else
      var left := Unsigned8(data[at]);
      Frame(left, if f.channels >= 2 then Unsigned8(data[at + 1]) else left)
  }

  /** A sample is read back from its two bytes, low byte first and in two's complement; an unsigned byte stands for the
      sample 256 times as far from its middle 128. */
  lemma SampleReadsBack(v: int)
    requires -32768 <= v < 32768
    ensures Signed16(v % 256, v / 256 % 256) == v
    ensures v % 256 == 0 ==> Unsigned8(v / 256 + 128) == v
  {}

  /** Volume scales toward zero, to within one step, and stops at the ends of the range of samples. */
  lemma LoudnessWithin(sample: int, percent: nat)
    requires -32768 <= sample < 32768
    ensures var out, n := Loudness(sample, percent), sample * percent;
            && -32768 <= out < 32768 && (sample >= 0 ==> out >= 0) && (sample <= 0 ==> out <= 0)
            && (sample >= 0 ==> if n < 3276800 then 100 * out <= n < 100 * (out + 1) else out == 32767)
            && (sample <= 0 ==> if n > -3276900 then 100 * (out - 1) < n <= 100 * out else out == -32768)
  {
    hide TruncDiv;
    ProductWithin(sample, percent);
    TruncDivWithin(sample * percent);
  }

  lemma ProductWithin(sample: int, percent: nat)
    ensures sample >= 0 ==> sample * percent >= 0
    ensures sample <= 0 ==> sample * percent <= 0
    ensures percent == 0 ==> sample * percent == 0
    ensures percent == 100 ==> sample * percent == 100 * sample
  {}

  lemma TruncDivWithin(n: int)
    ensures n >= 0 ==> TruncDiv(n, 100) >= 0 && 100 * TruncDiv(n, 100) <= n < 100 * (TruncDiv(n, 100) + 1)
    ensures n <= 0 ==> TruncDiv(n, 100) <= 0 && 100 * (TruncDiv(n, 100) - 1) < n <= 100 * TruncDiv(n, 100)
  {}

  lemma DecodeSame(f: Format, a: seq<nat>, i: nat, b: seq<nat>, j: nat)
    requires Supported(f) && i + FrameBytes(f) <= |a| && j + FrameBytes(f) <= |b|
    requires forall k :: i <= k < i + FrameBytes(f) ==> a[k] == b[k - i + j]
    ensures Decode(f, a, i) == Decode(f, b, j)
  {
    assert a[i] == b[j];
    if FrameBytes(f) > 1 {
      assert a[i + 1] == b[j + 1];
    }
    if FrameBytes(f) > 2 {
      assert a[i + 2] == b[j + 2] && a[i + 3] == b[j + 3];
    }
  }

  /** Division that rounds toward zero. */
  function TruncDiv(n: int, d: nat): int
    requires d > 0
  {
    if n >= 0 then n / d else -((-n) / d)
  }

  function Loudness(sample: int, percent: nat): int {
    if percent == 0 then 0
    else if percent == 100 then sample
    else
      var scaled := TruncDiv(sample * percent, 100);
      if scaled > 32767 then 32767 else if scaled < -32768 then -32768 else scaled
  }

  function Scaled(frame: Frame, percent: nat): Frame {
    Frame(Loudness(frame.left, percent), Loudness(frame.right, percent))
  }

  // ---------------------------------------------------------------- products and quotients

  /** The source frame heard at output frame i. */
  function SourceIndex(i: nat, rate: nat): nat {
    Times(i, rate) / AC97_RATE
  }

  function OutFrames(sourceFrames: nat, rate: nat): nat
    requires rate > 0
  {
    (sourceFrames * AC97_RATE + rate - 1) / rate
  }

  lemma QuotientBound(n: nat, rate: nat)
    requires rate > 0
    ensures Times((n + rate - 1) / rate, rate) >= n
    ensures n > 0 ==> (n + rate - 1) / rate > 0 && Times((n + rate - 1) / rate - 1, rate) < n
  {
    var q := (n + rate - 1) / rate;
    assert (n + rate - 1) == q * rate + (n + rate - 1) % rate;
    assert q * rate >= n;
    if n > 0 {
      assert q > 0;
      TimesNext(q - 1, rate);
    }
  }

  /** Every output frame is a frame of the source: the index never passes the last one. */
  lemma IndexInRange(i: nat, sourceFrames: nat, rate: nat)
    requires rate > 0 && i < OutFrames(sourceFrames, rate)
    ensures SourceIndex(i, rate) < sourceFrames
  {
    var n := sourceFrames * AC97_RATE;
    QuotientBound(n, rate);
    assert (rate - 1) / rate == 0;
    if n > 0 {
      TimesAtMost(i, OutFrames(sourceFrames, rate) - 1, rate);
    }
  }

  /** Just past the output the index has reached the end of the source, so nothing is cut off. */
  lemma IndexAtEnd(sourceFrames: nat, rate: nat)
    requires rate > 0
    ensures SourceIndex(OutFrames(sourceFrames, rate), rate) >= sourceFrames
  {
    QuotientBound(sourceFrames * AC97_RATE, rate);
  }

  lemma IndexStep(i: nat, n: nat, rate: nat)
    requires rate <= AC97_RATE
    ensures SourceIndex(i, rate) <= SourceIndex(i + n, rate) <= SourceIndex(i, rate) + n
  {
    TimesAdd(i, n, rate);
    assert Times(n, rate) <= AC97_RATE * n;
  }

  /** At no more than the device's rate no source frame is skipped. */
  lemma {:induction false} EveryFrameIsHeard(k: nat, sourceFrames: nat, rate: nat)
    requires 0 < rate <= AC97_RATE && k < sourceFrames
    ensures exists i :: 0 <= i < OutFrames(sourceFrames, rate) && SourceIndex(i, rate) == k
  {
    var i := 0;
    assert Times(0, rate) == 0;
    IndexAtEnd(sourceFrames, rate);
    var n := OutFrames(sourceFrames, rate);
    while SourceIndex(i, rate) < k
      invariant i <= n && SourceIndex(i, rate) <= k
      decreases n - i
    {
      if i == n {
        assert false;
      }
      IndexStep(i, 1, rate);
      i := i + 1;
    }
    if i == n {
      assert false;
    }
  }

  // ---------------------------------------------------------------- what is heard

  /** The frame at a byte position, or silence where the file is too short. */
  function FrameAt(f: Format, data: seq<nat>, pos: nat): Frame
    requires Supported(f)
  {
    if pos + FrameBytes(f) <= |data| then Decode(f, data, pos) else Frame(0, 0)
  }

  /** Frame k of the source. */
  function SourceFrame(f: Format, data: seq<nat>, k: nat): Frame
    requires Supported(f)
  {
    FrameAt(f, data, Times(k, FrameBytes(f)))
  }

  function OutputFrame(f: Format, data: seq<nat>, i: nat, percent: nat): Frame
    requires Supported(f)
  {
    Scaled(SourceFrame(f, data, SourceIndex(i, f.rate)), percent)
  }

  /** A file that holds all its frames sounds the same streamed as decoded into memory. */
  lemma StreamedAsBuffered(f: Format, file: seq<nat>, frames: nat, i: nat, percent: nat)
    requires Supported(f) && Times(frames, FrameBytes(f)) <= |file| && i < OutFrames(frames, f.rate)
    ensures OutputFrame(f, file, i, percent) == OutputFrame(f, file[..Times(frames, FrameBytes(f))], i, percent)
  {
    IndexInRange(i, frames, f.rate);
    var k := SourceIndex(i, f.rate);
    var pcm := file[..Times(frames, FrameBytes(f))];
    TimesNext(k, FrameBytes(f));
    TimesAtMost(k + 1, frames, FrameBytes(f));
    DecodeSame(f, file, Times(k, FrameBytes(f)), pcm, Times(k, FrameBytes(f)));
  }

  // ---------------------------------------------------------------- the running error

  /** Adding the rate to the error term in 32 bits, and how often the device's rate comes out of it. */
  function Advance(error: nat, rate: nat): (nat, nat) {
    var sum := (error + rate) % TWO_TO_32;
    (sum / AC97_RATE, sum % AC97_RATE)
  }

  /** The step is exact just when the sum fits in 32 bits. */
  lemma AdvanceExact(error: nat, rate: nat)
    requires error < AC97_RATE && rate < TWO_TO_32
    ensures error + rate < TWO_TO_32 <==>
      Advance(error, rate).0 * AC97_RATE + Advance(error, rate).1 == error + rate
  {
    var sum := (error + rate) % TWO_TO_32;
    assert sum == (sum / AC97_RATE) * AC97_RATE + sum % AC97_RATE;
  }

  /** The error term and the frames stepped over, n output frames after frame i. */
  lemma RunningError(i: nat, n: nat, rate: nat, steps: nat, error: nat)
    requires (SourceIndex(i, rate) + steps) * AC97_RATE + error == Times(i + n, rate) && error < AC97_RATE
    ensures SourceIndex(i + n, rate) == SourceIndex(i, rate) + steps
    ensures error == Times(i + n, rate) % AC97_RATE
  {}

  lemma StartError(i: nat, rate: nat)
    ensures SourceIndex(i, rate) * AC97_RATE + Times(i, rate) % AC97_RATE == Times(i, rate)
  {}

  lemma IndexGrows(i: nat, n: nat, rate: nat)
    ensures SourceIndex(i, rate) <= SourceIndex(i + n, rate)
  {
    TimesAdd(i, n, rate);
  }

  // ---------------------------------------------------------------- positions that sound the same

  /** Two byte positions hold the same frame whatever is in a file of some size: they are the same, or the
      file has no whole frame at either. */
  predicate SameSound(f: Format, size: nat, p: nat, q: nat)
    requires Supported(f)
  {
    p == q || (p + FrameBytes(f) > size && q + FrameBytes(f) > size)
  }

  /** The byte that decodes to silence. */
  function Rest(f: Format): nat {
    if f.bits == 16 then 0 else 128
  }

  function BlipByte(f: Format, p: nat, k: nat): nat {
    if k == p then Rest(f) + 1 else Rest(f)
  }

  /** A file that is silent but for one byte. */
  function Blip(f: Format, size: nat, p: nat): (data: seq<nat>)
    ensures |data| == size
  {
    seq(size, k requires k >= 0 => BlipByte(f, p, k))
  }

  lemma BlipIsHeard(f: Format, size: nat, p: nat, q: nat)
    requires Supported(f) && p + FrameBytes(f) <= size && p < q
    ensures FrameAt(f, Blip(f, size, p), p) != FrameAt(f, Blip(f, size, p), q)
  {
    var data := Blip(f, size, p);
    assert data[p] == Rest(f) + 1;
    assert Decode(f, data, p).left == if f.bits == 16 then 1 else 256;
    if q + FrameBytes(f) <= size {
      assert data[q] == Rest(f) && Decode(f, data, q).left == 0;
    }
  }

  lemma SameSoundExactly(f: Format, size: nat, p: nat, q: nat)
    requires Supported(f)
    ensures SameSound(f, size, p, q) <==>
      forall data: seq<nat> | |data| == size :: FrameAt(f, data, p) == FrameAt(f, data, q)
  {
    hide Decode, Blip;
    if !SameSound(f, size, p, q) {
      var at := if p < q then p else q;
      if p < q {
        BlipIsHeard(f, size, p, q);
      } else {
        BlipIsHeard(f, size, q, p);
      }
      assert |Blip(f, size, at)| == size;
    }
  }

  /** The frames taken from some byte positions are the output frames from a cursor on, whatever the file
      holds. */
  ghost predicate RightPlaces(f: Format, size: nat, cursor: nat, places: seq<nat>)
    requires Supported(f)
  {
    forall i :: 0 <= i < |places| ==>
      SameSound(f, size, places[i], Times(SourceIndex(cursor + i, f.rate), FrameBytes(f)))
  }

  /** They are those of one file. */
  ghost predicate SoundsRight(f: Format, data: seq<nat>, out: nat, places: seq<nat>)
    requires Supported(f)
  {
    |places| == out && forall i :: 0 <= i < out ==>
        FrameAt(f, data, places[i]) == SourceFrame(f, data, SourceIndex(i, f.rate))
  }

  /** Playing from some positions is right for every file of a size exactly when the positions are. */
  lemma SoundsRightExactly(f: Format, size: nat, out: nat, places: seq<nat>)
    requires Supported(f)
    ensures (|places| == out && RightPlaces(f, size, 0, places)) <==>
      forall data: seq<nat> | |data| == size :: SoundsRight(f, data, out, places)
  {
    hide SameSound, FrameAt, Times, SourceIndex, FrameBytes, Blip;
    assert |Blip(f, size, 0)| == size;
    forall i | 0 <= i < |places|
      ensures SameSound(f, size, places[i], Times(SourceIndex(i, f.rate), FrameBytes(f))) <==>
        forall data: seq<nat> | |data| == size ::
            FrameAt(f, data, places[i]) == SourceFrame(f, data, SourceIndex(i, f.rate))
    {
      SameSoundExactly(f, size, places[i], Times(SourceIndex(i, f.rate), FrameBytes(f)));
    }
    if i :| 0 <= i < |places| && !SameSound(f, size, places[i], Times(SourceIndex(i, f.rate), FrameBytes(f))) {
      var data: seq<nat> :| |data| == size &&
          FrameAt(f, data, places[i]) != SourceFrame(f, data, SourceIndex(i, f.rate));
      assert |places| == out ==> !SoundsRight(f, data, out, places);
    }
  }
}
