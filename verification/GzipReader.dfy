/** gzip_read: the inflated bytes in pieces of any requested size, ending with the trailer check
    of section 2.3.1 of RFC 1952. */
module GzipReader {
  import opened Numbers
  import opened Bits
  import opened HuffmanCode
  import opened HuffmanTree
  import opened BitReader
  import opened OutputWindow
  import opened InflateSpec
  import opened DynamicTrees
  import opened Inflater
  import Crc32

  // ---------------------------------------------------------------- the trailer

  /** After the compressed data: at a byte boundary, the CRC-32 and the length mod 2^32 of the
      uncompressed data, least significant byte first. */
  ghost predicate TrailerMatches(bits: BitSeq, data: seq<byte>) {
    var aligned := bits[|bits| % 8..];
    && |aligned| >= 64
    && Value(aligned[..32]) == Crc32.Crc(data)
    && Value(aligned[32..64]) == |data| % TWO_TO_32
  }

  lemma {:induction false} ValueConcat(a: BitSeq, b: BitSeq)
    ensures Value(a + b) == Value(a) + ShiftLeft(Value(b), |a|)
  {
    if a == [] {
      assert a + b == b;
    } else {
      ValueConcat(a[1..], b);
      assert (a + b)[1..] == a[1..] + b;
    }
  }

  /** A 32-bit little-endian number, one byte at a time. */
  method ReadWord(gz: Reader) returns (ok: bool, w: nat)
    requires gz.Valid()
    modifies gz, gz.inbuf
    ensures ok == (32 <= |old(gz.Bits())|)
    ensures ok ==> gz.Valid() && w == Value(old(gz.Bits())[..32]) && gz.Bits() == old(gz.Bits())[32..]
  {
    hide LsbBits, BytesBits, Value, ShiftLeft;
    ghost var bits := gz.Bits();
    w := 0;
    assert bits[0..] == bits && bits[..0] == [];
    assert Value([]) == 0 by {
      NoBits();
    }
    for i := 0 to 4
      invariant gz.Valid() && 8 * i <= |bits| && gz.Bits() == bits[8 * i..]
      invariant w == Value(bits[..8 * i])
    {
      var b;
      ok, b := gz.ReadBits(8);
      if !ok {
        return;
      }
      ValueConcat(bits[..8 * i], bits[8 * i..][..8]);
      assert bits[..8 * i] + bits[8 * i..][..8] == bits[..8 * (i + 1)];
      assert bits[8 * i..][8..] == bits[8 * (i + 1)..];
      // The bytes occupy different bits, so the disjunction is a sum.
      w := w + ShiftLeft(b, 8 * i);
    }
    ok := true;
  }

  // ---------------------------------------------------------------- the stream a caller sees

  /** The bytes still to be delivered, and whether the stream then ends with a matching trailer. */
  datatype Stream = Stream(out: seq<byte>, sound: bool)

  ghost function StreamOf(r: Result, history: seq<byte>, trailerDone: bool): Stream {
    if trailerDone then Stream([], true)
    else Stream(r.out, r.end.Done? && TrailerMatches(r.end.rest, history + r.out))
  }

  /** What a read of len bytes returns: up to len bytes, or -1 when an error comes before the
      first of them. */
  function ReadCount(s: Stream, len: nat): int {
    if len <= |s.out| then len
    else if s.out == [] && !s.sound then -1
    else |s.out|
  }

  /** The read meets the error of an unsound stream. */
  predicate Fails(s: Stream, len: nat) {
    len > |s.out| && !s.sound
  }

  function AfterRead(s: Stream, len: nat): Stream {
    Stream(s.out[if len <= |s.out| then len else |s.out|..], s.sound)
  }

  /** The results of reads of the given sizes, until one of them meets an error. */
  function ReadAll(s: Stream, lens: seq<nat>): (r: seq<byte>)
    decreases |lens|
  {
    if lens == [] then []
    else
      var n := ReadCount(s, lens[0]);
      (if n > 0 then s.out[..n] else [])
      + if Fails(s, lens[0]) then [] else ReadAll(AfterRead(s, lens[0]), lens[1..])
  }

  lemma CutTwice(out: seq<byte>, len: nat, more: nat)
    requires len <= |out|
    ensures out[..len] + out[len..][..if more <= |out| - len then more else |out| - len]
         == out[..if len + more <= |out| then len + more else |out|]
  {}

  /** However the requests are sized, their results concatenate to the stream's bytes, cut at the
      total number requested. */
  lemma {:induction false} ReadsConcatenate(s: Stream, lens: seq<nat>)
    ensures ReadAll(s, lens) == s.out[..if Sum(lens) <= |s.out| then Sum(lens) else |s.out|]
    decreases |lens|
  {
    if lens != [] {
      var len := lens[0];
      if len <= |s.out| {
        ReadsConcatenate(AfterRead(s, len), lens[1..]);
        var rest := ReadAll(AfterRead(s, len), lens[1..]);
        assert ReadAll(s, lens) == s.out[..len] + rest;
        CutTwice(s.out, len, Sum(lens[1..]));
      } else if s.sound {
        ReadsConcatenate(AfterRead(s, len), lens[1..]);
        assert ReadAll(AfterRead(s, len), lens[1..]) == [];
      }
    }
  }

  /** The two words of the trailer, from the next byte boundary on. */
  method ReadTrailer(gz: Reader) returns (ok: bool, crc: nat, isize: nat)
    requires gz.Valid()
    modifies gz, gz.inbuf
    ensures var aligned := old(gz.Bits())[|old(gz.Bits())| % 8..];
            && ok == (|aligned| >= 64)
            && (ok ==> gz.Valid() && crc == Value(aligned[..32]) && isize == Value(aligned[32..64]))
  {
    hide Value, LsbBits, BytesBits, Pow2;
    crc, isize := 0, 0;
    gz.AlignToByte();
    ghost var aligned := gz.Bits();
    ok, crc := ReadWord(gz);
    if !ok {
      return;
    }
    ok, isize := ReadWord(gz);
    if ok {
      assert aligned[32..][..32] == aligned[32..64];
    }
  }

  /** The trailer check of gzip_finish_trailer. */
  method FinishTrailer(gz: GzipState) returns (ok: bool)
    requires gz.Valid()
    modifies gz, gz.input, gz.input.inbuf
    ensures gz.trailerDone == (old(gz.trailerDone) || ok)
    ensures ok == (old(gz.trailerDone) || TrailerMatches(old(gz.input.Bits()), gz.output.history))
    ensures ok ==> gz.Valid()
  {
    hide Value, LsbBits, BytesBits, Describes, IsTrie, Mirrors, Crc32.Register, Crc32.Number, HistoryAt, Pow2;
    if gz.trailerDone {
      return true;
    }
    var crcExpect, isizeExpect;
    ok, crcExpect, isizeExpect := ReadTrailer(gz.input);
    if !ok {
      return;
    }
    var crcActual := Crc32.Number(gz.output.crc32);
    if crcActual != crcExpect || gz.output.outSize != isizeExpect {
      return false;
    }
    gz.trailerDone := true;
  }

  /** The stream that gzip_read has still to deliver. */
  ghost function Pending(gz: GzipState): Stream
    requires gz.input.Buffered()
    reads gz, gz.input, gz.input.inbuf, gz.output
  {
    StreamOf(gz.ToCome(), gz.output.history, gz.trailerDone)
  }

  lemma ValidIsBuffered(gz: GzipState)
    requires gz.Valid()
    ensures gz.input.Buffered()
  {}

  /** A machine at the first compressed byte of a file. */
  method Open(file: seq<byte>) returns (gz: GzipState)
    ensures gz.Valid() && Pending(gz) == StreamOf(Inflate(BytesBits(file)), [], false) && gz.output.history == []
    ensures fresh(gz) && fresh(gz.input) && fresh(gz.output) && fresh(gz.litNodes) && fresh(gz.distNodes)
    ensures fresh(gz.input.inbuf) && fresh(gz.output.window)
  {
    hide BytesBits, Inflate, Value, LsbBits, Describes, IsTrie, Mirrors, Crc32.Register, TrailerMatches, Remaining;
    gz := new GzipState(file);
  }

  /** Delivers the next bytes of the stream, at most dst.Length of them. */
  method GzipRead(gz: GzipState, dst: array<byte>) returns (n: int)
    requires gz.Valid() && dst != gz.output.window && dst != gz.input.inbuf
    modifies gz, gz.input, gz.input.inbuf, gz.output, gz.output.window, gz.litNodes, gz.distNodes, dst
    ensures n == ReadCount(old(Pending(gz)), dst.Length) <= dst.Length
    ensures n > 0 ==> dst[..n] == old(Pending(gz)).out[..n] && gz.output.history == old(gz.output.history) + dst[..n]
    ensures n <= 0 ==> gz.output.history == old(gz.output.history)
    ensures !Fails(old(Pending(gz)), dst.Length) ==>
        gz.Valid() && Pending(gz) == AfterRead(old(Pending(gz)), dst.Length)
    ensures gz.trailerDone && !old(gz.trailerDone) ==>
              old(gz.ToCome()).end.Done? && TrailerMatches(old(gz.ToCome()).end.rest, gz.output.history)
  {
    hide Value, LsbBits, BytesBits, Describes, IsTrie, Mirrors, Crc32.Register, TrailerMatches, Remaining;
    ghost var s, history := Pending(gz), gz.output.history;
    var produced := 0;
    assert s.out[0..] == s.out;
    while produced < dst.Length
      invariant gz.Valid() && 0 <= produced <= dst.Length && produced <= |s.out|
      invariant Pending(gz) == Stream(s.out[produced..], s.sound)
      invariant dst[..produced] == s.out[..produced]
      invariant gz.output.history == history + dst[..produced]
      invariant !gz.trailerDone ==> gz.ToCome().end == old(gz.ToCome()).end
      invariant gz.trailerDone && !old(gz.trailerDone) ==>
                  old(gz.ToCome()).end.Done? && TrailerMatches(old(gz.ToCome()).end.rest, gz.output.history)
      decreases dst.Length - produced, if gz.trailerDone then 0 else 1
    {
      if gz.trailerDone {
        break;
      }
      ghost var before, soFar := gz.ToCome(), gz.output.history;
      var rc, b := gz.InflateNextByte();
      if rc < 0 {
        StreamEnds(before, soFar);
        return if produced > 0 then produced else -1;
      }
      if rc == 0 {
        StreamEnds(gz.ToCome(), gz.output.history);
        var ok := FinishTrailer(gz);
        if !ok {
          return if produced > 0 then produced else -1;
        }
        continue;
      }
      dst[produced] := b;
      StreamAdvances(before, gz.ToCome(), soFar, b);
      produced := produced + 1;
      assert dst[..produced] == dst[..produced - 1] + [b];
    }
    n := produced;
  }

  lemma StreamEnds(r: Result, history: seq<byte>)
    requires r.out == []
    ensures StreamOf(r, history, false) == Stream([], r.end.Done? && TrailerMatches(r.end.rest, history))
  {
    assert history + [] == history;
  }

  lemma StreamAdvances(before: Result, after: Result, history: seq<byte>, b: byte)
    requires before == Prepend([b], after)
    ensures var s := StreamOf(before, history, false);
            s.out != [] && s.out[0] == b && StreamOf(after, history + [b], false) == Stream(s.out[1..], s.sound)
  {
    assert history + before.out == (history + [b]) + after.out;
  }
}
