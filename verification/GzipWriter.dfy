/** A gzip body as a compressor writes it, and that reading it delivers what was compressed. */
module GzipWriter {
  import opened Numbers
  import opened Bits
  import opened InflateSpec
  import opened DeflateStream
  import GzipReader
  import Crc32

  /** Bits packed into bytes. */
  function Pack(bits: BitSeq): (r: seq<byte>)
    requires |bits| % 8 == 0
    ensures |r| == |bits| / 8
  {
    if bits == [] then [] else [ByteAt(bits)] + Pack(bits[8..])
  }

  lemma {:induction false} PackedBits(bits: BitSeq)
    requires |bits| % 8 == 0
    ensures BytesBits(Pack(bits)) == bits
    decreases |bits|
  {
    hide LsbBits, Value;
    if bits != [] {
      PackedBits(bits[8..]);
      LsbBitsValue(bits[..8]);
      assert bits == bits[..8] + bits[8..];
    }
  }

  lemma {:induction false} BytesBitsJoin(a: seq<byte>, b: seq<byte>)
    ensures BytesBits(a + b) == BytesBits(a) + BytesBits(b)
  {
    hide ByteBits, BytesBits;
    if a == [] {
      assert a + b == b && BytesBits(a) == [] by {
        BytesBitsFirst(a);
      }
    } else {
      BytesBitsJoin(a[1..], b);
      assert (a + b)[1..] == a[1..] + b;
      BytesBitsFirst(a);
      BytesBitsFirst(a + b);
      JoinThree(ByteBits(a[0]), BytesBits(a[1..]), BytesBits(b));
    }
  }

  lemma BytesBitsFirst(s: seq<byte>)
    ensures BytesBits(s) == if s == [] then [] else ByteBits(s[0]) + BytesBits(s[1..])
  {
    hide ByteBits;
  }

  lemma JoinThree(a: BitSeq, b: BitSeq, c: BitSeq)
    ensures a + (b + c) == (a + b) + c
  {}

  /** The blocks, and at the next byte boundary the CRC-32 and the length of what they stand for. */
  ghost function GzipBits(bs: seq<Block>): (r: BitSeq)
    requires ValidBlocks(bs, [])
    ensures |r| % 8 == 0
  {
    var whole := Aligned(StreamBits(bs, 0, []));
    EightMoreBytes(|whole|);
    whole + Trailer(Output(bs, []))
  }

  function Aligned(bits: BitSeq): (r: BitSeq)
    ensures |r| % 8 == 0
  {
    bits + Gap(|bits|)
  }

  lemma EightMoreBytes(n: nat)
    ensures n % 8 == 0 ==> (n + 64) % 8 == 0
  {}

  function Trailer(out: seq<byte>): (r: BitSeq)
    ensures |r| == 64
  {
    LsbBits(Crc32.Crc(out), 32) + LsbBits(|out| % TWO_TO_32, 32)
  }

  lemma CrcFits(out: seq<byte>)
    ensures Crc32.Crc(out) < TWO_TO_32
  {}

  lemma Pow2Of32()
    ensures Pow2(32) == TWO_TO_32
  {
    assert Pow2(8) == 256;
    assert Pow2(16) == 65536;
    assert Pow2(24) == 0x100_0000;
  }

  lemma TrailerReadsBack(gap: BitSeq, out: seq<byte>, more: BitSeq)
    requires |gap| < 8 && (|gap| + |more|) % 8 == |gap|
    ensures GzipReader.TrailerMatches(gap + Trailer(out) + more, out)
  {
    hide LsbBits, Value, Pow2, Crc32.Crc;
    var bits := gap + Trailer(out) + more;
    assert |bits| % 8 == |gap|;
    var aligned := bits[|gap|..];
    Pow2Of32();
    CrcFits(out);
    ValueLsbBits(Crc32.Crc(out), 32);
    ValueLsbBits(|out| % TWO_TO_32, 32);
    assert aligned == Trailer(out) + more;
    assert Trailer(out)[..32] == LsbBits(Crc32.Crc(out), 32);
    assert Trailer(out)[32..] == LsbBits(|out| % TWO_TO_32, 32);
    assert aligned[..32] == LsbBits(Crc32.Crc(out), 32);
    assert aligned[32..64] == Trailer(out)[32..] == LsbBits(|out| % TWO_TO_32, 32);
  }

  /** Reading a written file delivers what its blocks stand for, whatever bytes follow it,
      and finds the trailer right. */
  lemma WrittenReadsBack(bs: seq<Block>, more: seq<byte>)
    requires bs != [] && ValidBlocks(bs, [])
    ensures GzipReader.StreamOf(Inflate(BytesBits(Pack(GzipBits(bs)) + more)), [], false)
         == GzipReader.Stream(Output(bs, []), true)
  {
    hide StreamBits, Output, BytesBits, Gap, Trailer, Inflate, Pack, GzipBits, ValidBlocks, GzipReader.TrailerMatches;
    var bits, out := StreamBits(bs, 0, []), Output(bs, []);
    var gap, after := Gap(|bits|), BytesBits(more);
    WholeFile(bs, more);
    Lengths(|bits|, |gap|, |more|);
    StreamReadsBack(bs, gap + Trailer(out) + after);
    TrailerReadsBack(gap, out, after);
    assert [] + out == out;
  }

  /** The file is the blocks, and then the rest. */
  lemma WholeFile(bs: seq<Block>, more: seq<byte>)
    requires ValidBlocks(bs, [])
    ensures var bits := StreamBits(bs, 0, []);
            BytesBits(Pack(GzipBits(bs)) + more) == bits + (Gap(|bits|) + Trailer(Output(bs, [])) + BytesBits(more))
  {
    hide StreamBits, Output, BytesBits, Gap, Trailer, Pack, ValidBlocks;
    var bits := StreamBits(bs, 0, []);
    PackedBits(GzipBits(bs));
    BytesBitsJoin(Pack(GzipBits(bs)), more);
    var gap, trailer, after := Gap(|bits|), Trailer(Output(bs, [])), BytesBits(more);
    assert bits + gap + trailer + after == bits + (gap + trailer + after);
  }

  lemma Lengths(bits: nat, gap: nat, more: nat)
    requires gap < 8 && (bits + gap) % 8 == 0
    ensures (bits + (gap + 64 + 8 * more)) % 8 == 0 && (gap + 8 * more) % 8 == gap
  {}
}
