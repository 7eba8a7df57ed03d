/** Playing a looping video file: delta, run-length and raw frames. */
module Video {
  import opened Numbers
  import opened Options
  import opened ByteNumbers
  import opened ByteRuns
  import opened PackBits

  /** An index entry: where the frame's data lies and how it is coded. */
  datatype Entry = Entry(offset: nat, size: nat, delta: bool, rle8: bool, rle565: bool)

  /** A file: its version, its index (for the versions that have one), and the data after it. */
  datatype File = File(version: nat, frameBytes: nat, frameCount: nat, loops: bool, index: seq<Entry>, data: Bytes)

  ghost predicate ValidFile(f: File) {
    && 1 <= f.version <= 3 && f.frameBytes > 0 && f.frameBytes % 2 == 0 && f.frameCount > 0
    && |f.data| < TWO_TO_32
    && (f.version > 1 ==> |f.index| == f.frameCount)
  }

  function Xor(a: Bytes, b: Bytes): (r: Bytes)
    requires |a| == |b|
    ensures |r| == |a|
  {
    seq(|a|, i requires 0 <= i < |a| => a[i] ^ b[i])
  }

  /** What an entry's data means after the previous frame. */
  function Coded(e: Entry, payload: Bytes, prev: Bytes): (r: Option<Bytes>)
    ensures r.Some? ==> |r.value| == |prev|
  {
    if e.delta then
      match (if e.rle8 then Unpack(payload, |prev|, 1) else if |payload| == |prev| then Some(payload) else None)
      case None => None
      case Some(delta) => Some(Xor(prev, delta))
    else if e.rle565 then Unpack(payload, |prev|, 2)
    else if |payload| == |prev| then Some(payload) else None
  }

  /** Where in the data the decoder stands before frame k. */
  function Place(f: File, k: nat): nat
    requires ValidFile(f) && k <= f.frameCount
  {
    if f.version == 1 then Times(k, f.frameBytes)
    else if k == 0 then 0 else f.index[k - 1].offset + f.index[k - 1].size
  }

  /** Frame k of the file, starting from an all-zero previous frame; none where the file is bad. */
  function F(f: File, k: nat): (r: Option<Bytes>)
    requires ValidFile(f) && k < f.frameCount
    ensures r.Some? ==> |r.value| == f.frameBytes
    decreases k
  {
    var prev := if k == 0 then Some(Zeros(f.frameBytes)) else F(f, k - 1);
    if prev.None? then None
    else if f.version == 1 then
      var at := Times(k, f.frameBytes);
      if at + f.frameBytes > |f.data| then None else Some(f.data[at..at + f.frameBytes])
    else
      var e := f.index[k];
      if e.offset < Place(f, k) || e.offset + e.size > |f.data| then None
      else Coded(e, f.data[e.offset..e.offset + e.size], prev.value)
  }

  /** The frame before frame k, as the decoder keeps it. */
  function Before(f: File, k: nat): (r: Option<Bytes>)
    requires ValidFile(f) && k <= f.frameCount
    ensures r.Some? ==> |r.value| == f.frameBytes
  {
    if k == 0 then Some(Zeros(f.frameBytes)) else F(f, k - 1)
  }

  // ---------------------------------------------------------------- the decoder

  class Stream {
    const file: File
    const frame: array<bv8>
    const prevFrame: array<bv8>
    /** Where the open file stands in the data, and where the decoder believes it stands. */
    var filePos: nat
    var payloadOff: nat
    var nextFrame: nat
    /** Frames decoded since the file was opened. */
    ghost var shown: nat

    ghost predicate Valid()
      reads this, frame, prevFrame
    {
      && ValidFile(file)
      && frame != prevFrame && frame.Length == prevFrame.Length == file.frameBytes
      && nextFrame <= file.frameCount
      && Before(file, nextFrame) == Some(prevFrame[..])
      && filePos == payloadOff == Place(file, nextFrame) <= |file.data|
      && (if nextFrame == file.frameCount then shown % file.frameCount == 0 else nextFrame == shown % file.frameCount)
      && (!file.loops ==> shown == nextFrame)
    }

    constructor (file: File)
      requires ValidFile(file)
      ensures Valid() && shown == 0 && this.file == file && fresh(frame) && fresh(prevFrame)
    {
      this.file := file;
      frame := new bv8[file.frameBytes](_ => 0);
      prevFrame := new bv8[file.frameBytes](_ => 0);
      filePos, payloadOff, nextFrame, shown := 0, 0, 0, 0;
      new;
      assert prevFrame[..] == Zeros(file.frameBytes);
      assert Times(0, file.frameBytes) == 0;
    }

    /** Reads exactly len bytes. */
    method ReadExact(len: nat) returns (bytes: Option<Bytes>)
      modifies this`filePos
      ensures bytes == if old(filePos) + len <= |file.data| then Some(file.data[old(filePos)..old(filePos) + len])
          else None
      ensures bytes.Some? ==> filePos == old(filePos) + len
    {
      if filePos + len > |file.data| {
        return None;
      }
      bytes := Some(file.data[filePos..filePos + len]);
      filePos := filePos + len;
    }

    /** Back to the start, by seeking or by opening the file again. */
    method Rewind()
      requires Valid() && nextFrame == file.frameCount && file.loops
      modifies this`filePos, this`payloadOff, this`nextFrame, prevFrame
      ensures Valid() && nextFrame == 0
    {
      nextFrame, payloadOff, filePos := 0, 0, 0;
      for i := 0 to prevFrame.Length
        modifies prevFrame
        invariant forall j :: 0 <= j < i ==> prevFrame[j] == 0
      {
        prevFrame[i] := 0;
      }
      assert prevFrame[..] == Zeros(file.frameBytes);
      assert Times(0, file.frameBytes) == 0;
    }

    method Copy(bytes: Bytes, into: array<bv8>)
      requires |bytes| == into.Length
      modifies into
      ensures into[..] == bytes
    {
      for i := 0 to into.Length
        invariant forall j :: 0 <= j < i ==> into[j] == bytes[j]
      {
        into[i] := bytes[i];
      }
    }

    method XorInto(delta: Bytes)
      requires |delta| == frame.Length == prevFrame.Length && frame != prevFrame
      modifies frame
      ensures frame[..] == Xor(prevFrame[..], delta)
    {
      for i := 0 to frame.Length
        invariant forall j :: 0 <= j < i ==> frame[j] == prevFrame[j] ^ delta[j]
      {
        frame[i] := prevFrame[i] ^ delta[i];
      }
    }

    /** Decodes one entry's data into the frame. */
    method DecodeEntry(e: Entry, payload: Bytes) returns (ok: bool)
      requires frame != prevFrame && frame.Length == prevFrame.Length
      modifies frame
      ensures ok <==> Coded(e, payload, prevFrame[..]).Some?
      ensures ok ==> frame[..] == Coded(e, payload, prevFrame[..]).value
    {
      hide Unpack, Xor;
      if e.delta {
        var delta := payload;
        if e.rle8 {
          var deltaBuf := new bv8[frame.Length];
          var unpacked := RleDecodePackbits(payload, deltaBuf, 1);
          if !unpacked {
            return false;
          }
          delta := deltaBuf[..];
        } else if |payload| != frame.Length {
          return false;
        }
        XorInto(delta);
        return true;
      } else if e.rle565 {
        ok := RleDecodePackbits(payload, frame, 2);
      } else {
        if |payload| != frame.Length {
          return false;
        }
        Copy(payload, frame);
        return true;
      }
    }

    /** The data of the next frame of a file without an index. */
    method DecodeRaw() returns (ok: bool)
      requires Valid() && nextFrame < file.frameCount && file.version == 1
      modifies this`filePos, this`payloadOff, frame
      ensures ok <==> F(file, nextFrame).Some?
      ensures ok ==> frame[..] == F(file, nextFrame).value
      ensures ok ==> filePos == payloadOff == Place(file, nextFrame + 1) <= |file.data|
    {
      hide Times;
      var bytes := ReadExact(file.frameBytes);
      if bytes.None? {
        return false;
      }
      Copy(bytes.value, frame);
      payloadOff := payloadOff + file.frameBytes;
      TimesNext(nextFrame, file.frameBytes);
      return true;
    }

    /** The data of the next frame as its index entry describes it. */
    method DecodeIndexed() returns (ok: bool)
      requires Valid() && nextFrame < file.frameCount && file.version > 1
      modifies this`filePos, this`payloadOff, frame
      ensures ok <==> F(file, nextFrame).Some?
      ensures ok ==> frame[..] == F(file, nextFrame).value
      ensures ok ==> filePos == payloadOff == Place(file, nextFrame + 1) <= |file.data|
    {
      hide Coded, Times;
      var e := file.index[nextFrame];
      if e.offset < payloadOff {
        return false;
      }
      var gap := e.offset - payloadOff;
      if gap > 0 {
        var skipped := ReadExact(gap);
        if skipped.None? {
          return false;
        }
        payloadOff := payloadOff + gap;
      }
      var payload := ReadExact(e.size);
      if payload.None? {
        return false;
      }
      payloadOff := payloadOff + e.size;
      ok := DecodeEntry(e, payload.value);
    }

    /** 0 with the next frame, 1 at the end of a file that does not loop, or -1. */
    method DecodeNext() returns (rc: int)
      requires Valid()
      modifies this, frame, prevFrame
      ensures rc == 0 || rc == 1 || rc == -1
      ensures rc == 1 <==> !file.loops && old(shown) == file.frameCount
      ensures rc == 0 <==> rc != 1 && F(file, old(shown) % file.frameCount).Some?
      ensures rc == 0 ==> Valid() && shown == old(shown) + 1 && frame[..] == F(file, old(shown) % file.frameCount).value
      ensures rc == 1 ==> Valid() && shown == old(shown)
    {
      hide F, Place;
      if nextFrame >= file.frameCount {
        if !file.loops {
          return 1;
        }
        Rewind();
      }
      assert nextFrame == shown % file.frameCount by {
        Small(nextFrame, file.frameCount);
      }
      var ok;
      if file.version == 1 {
        ok := DecodeRaw();
      } else {
        ok := DecodeIndexed();
      }
      if !ok {
        return -1;
      }
      Copy(frame[..], prevFrame);
      NextRemainder(shown, file.frameCount);
      nextFrame := nextFrame + 1;
      shown := shown + 1;
      return 0;
    }
  }

  lemma Small(a: nat, m: nat)
    requires a < m
    ensures a % m == a
  {}

  /** Every frame of a looping file that decodes at all is shown over and over. */
  method Show(file: File, n: nat) returns (frames: seq<Bytes>)
    requires ValidFile(file) && file.loops && forall k :: 0 <= k < file.frameCount ==> F(file, k).Some?
    ensures |frames| == n
    ensures forall k :: 0 <= k < n ==> Some(frames[k]) == F(file, k % file.frameCount)
  {
    hide F;
    var stream := new Stream(file);
    frames := [];
    for k := 0 to n
      invariant stream.Valid() && stream.file == file && stream.shown == k && fresh(stream) && fresh(stream.frame) &&
          fresh(stream.prevFrame)
      invariant |frames| == k && forall i :: 0 <= i < k ==> Some(frames[i]) == F(file, i % file.frameCount)
    {
      var rc := stream.DecodeNext();
      assert rc == 0;
      frames := frames + [stream.frame[..]];
    }
  }

  // ---------------------------------------------------------------- what an encoder may write

  /** A way to store one frame. */
  /** Where a frame differs from the one before it. */
  function Difference(frame: Bytes, prev: Bytes): (r: Bytes)
    requires |frame| == |prev|
    ensures |r| == |frame|
  {
    seq(|frame|, i requires 0 <= i < |frame| => frame[i] ^ prev[i])
  }

  datatype Coding = Raw | Packed565(runs: seq<Run>) | Delta | PackedDelta(runs: seq<Run>)

  ghost predicate Stores(c: Coding, frame: Bytes, prev: Bytes)
    requires |frame| == |prev|
  {
    match c
    case Raw => true
    case Delta => true
    case Packed565(runs) => AllWellFormed(runs, 2) && Meaning(runs) == frame
    case PackedDelta(runs) => AllWellFormed(runs, 1) && Meaning(runs) == Difference(frame, prev)
  }

  ghost function Payload(c: Coding, frame: Bytes, prev: Bytes): Bytes
    requires |frame| == |prev| && Stores(c, frame, prev)
  {
    match c
    case Raw => frame
    case Delta => Difference(frame, prev)
    case Packed565(runs) => Encode(runs, 2)
    case PackedDelta(runs) => Encode(runs, 1)
  }

  function Flags(c: Coding, offset: nat, size: nat): Entry {
    Entry(offset, size, c.Delta? || c.PackedDelta?, c.PackedDelta?, c.Packed565?)
  }

  lemma XorTwice(frame: Bytes, prev: Bytes)
    requires |frame| == |prev|
    ensures Xor(prev, Difference(frame, prev)) == frame
  {
    forall i | 0 <= i < |frame| ensures Xor(prev, Difference(frame, prev))[i] == frame[i] {
      XorByte(frame[i], prev[i]);
    }
  }

  lemma XorByte(a: bv8, b: bv8)
    ensures b ^ (a ^ b) == a
  {}

  lemma CodedRoundTrip(c: Coding, frame: Bytes, prev: Bytes, offset: nat, size: nat)
    requires |frame| == |prev| && Stores(c, frame, prev)
    ensures Coded(Flags(c, offset, size), Payload(c, frame, prev), prev) == Some(frame)
  {
    hide Unpack, Meaning, Encode, Xor, Difference;
    XorTwice(frame, prev);
    match c
    case Packed565(runs) =>
      UnpackEncoded(runs, [], 2);
      assert Encode(runs, 2) + [] == Encode(runs, 2);
    case PackedDelta(runs) =>
      UnpackEncoded(runs, [], 1);
      assert Encode(runs, 1) + [] == Encode(runs, 1);
      assert |Meaning(runs)| == |prev|;
    case _ =>
  }

  function Previous(f: File, frames: seq<Bytes>, k: nat): Bytes
    requires k <= |frames|
  {
    if k == 0 then Zeros(f.frameBytes) else frames[k - 1]
  }

  /** The file stores these frames, each coded in its own way, in order and without overlap. */
  ghost predicate Holds(f: File, frames: seq<Bytes>, codings: seq<Coding>)
    requires ValidFile(f)
  {
    && |frames| == |codings| == f.frameCount
    && (forall k :: 0 <= k < f.frameCount ==> |frames[k]| == f.frameBytes)
    && forall k :: 0 <= k < f.frameCount ==> HoldsFrame(f, frames, codings, k)
  }

  /** In the first version the frames lie one after the other; later ones have an index. */
  ghost predicate HoldsFrame(f: File, frames: seq<Bytes>, codings: seq<Coding>, k: nat)
    requires ValidFile(f) && k < f.frameCount == |frames| == |codings|
  {
    if f.version == 1 then
      var at := Times(k, f.frameBytes);
      at + |frames[k]| <= |f.data| && f.data[at..at + |frames[k]|] == frames[k]
    else
      && f.index[k].offset >= Place(f, k)
      && FrameStored(f, frames[k], codings[k], Previous(f, frames, k), f.index[k])
  }

  ghost predicate FrameStored(f: File, frame: Bytes, c: Coding, prev: Bytes, e: Entry) {
    && |frame| == |prev| && Stores(c, frame, prev) && e == Flags(c, e.offset, e.size)
    && e.offset + e.size <= |f.data| && f.data[e.offset..e.offset + e.size] == Payload(c, frame, prev)
  }

  lemma NextF(f: File, k: nat, prev: Bytes)
    requires ValidFile(f) && f.version > 1 && k < f.frameCount && Before(f, k) == Some(prev)
    requires f.index[k].offset >= Place(f, k) && f.index[k].offset + f.index[k].size <= |f.data|
    ensures var e := f.index[k]; F(f, k) == Coded(e, f.data[e.offset..e.offset + e.size], prev)
  {
    hide Coded;
  }

  lemma HoldsAt(f: File, frames: seq<Bytes>, codings: seq<Coding>, k: nat)
    requires ValidFile(f) && Holds(f, frames, codings) && k < f.frameCount
    ensures |frames| == |codings| == f.frameCount && |frames[k]| == f.frameBytes
    ensures HoldsFrame(f, frames, codings, k)
  {
    hide HoldsFrame;
  }

  lemma NextPlain(f: File, k: nat)
    requires ValidFile(f) && f.version == 1 && k < f.frameCount && Before(f, k).Some?
    ensures var at := Times(k, f.frameBytes);
            at + f.frameBytes <= |f.data| ==> F(f, k) == Some(f.data[at..at + f.frameBytes])
  {
    hide Times;
  }

  /** Such a file decodes to exactly those frames. */
  lemma {:induction false} StoredFramesDecode(f: File, frames: seq<Bytes>, codings: seq<Coding>, k: nat)
    requires ValidFile(f) && Holds(f, frames, codings) && k < f.frameCount
    ensures F(f, k) == Some(frames[k])
    decreases k
  {
    hide Coded, Payload, Stores, F, Place, Holds, Zeros;
    HoldsAt(f, frames, codings, k);
    if k > 0 {
      StoredFramesDecode(f, frames, codings, k - 1);
    }
    var prev := Previous(f, frames, k);
    if f.version == 1 {
      NextPlain(f, k);
    } else {
      var e := f.index[k];
      CodedRoundTrip(codings[k], frames[k], prev, e.offset, e.size);
      NextF(f, k, prev);
    }
  }
}
