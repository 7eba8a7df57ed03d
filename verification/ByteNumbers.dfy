/** Bytes as numbers, by way of their bits. */
module ByteNumbers {
  import opened Bits

  type Bytes = seq<bv8>

  function HasBit(b: bv8, mask: bv8): bool {
    b & mask != 0
  }

  /** The bits of a byte, least significant first. */
  function BitsOf(b: bv8): (s: BitSeq)
    ensures |s| == 8
  {
    [HasBit(b, 1), HasBit(b, 2), HasBit(b, 4), HasBit(b, 8), HasBit(b, 0x10), HasBit(b, 0x20), HasBit(b, 0x40),
        HasBit(b, 0x80)]
  }

  function Flag(on: bool, mask: bv8): bv8 {
    if on then mask else 0
  }

  function FromBits(s: BitSeq): bv8
    requires |s| == 8
  {
    Flag(s[0], 1) | Flag(s[1], 2) | Flag(s[2], 4) | Flag(s[3], 8) | Flag(s[4], 0x10) | Flag(s[5], 0x20) |
        Flag(s[6], 0x40) | Flag(s[7], 0x80)
  }

  lemma BitsOfFromBits(s: BitSeq)
    requires |s| == 8
    ensures BitsOf(FromBits(s)) == s
  {}

  lemma FromBitsOfBits(b: bv8)
    ensures FromBits(BitsOf(b)) == b
  {}

  lemma EightBits()
    ensures Pow2(8) == 256
  {
    assert Pow2(4) == 16;
  }

  function ByteOf(x: nat): bv8
    requires x < 256
  {
    FromBits(LsbBits(x, 8))
  }

  function NumOf(b: bv8): (n: nat)
    ensures n < 256
  {
    ValueBound(BitsOf(b));
    EightBits();
    Value(BitsOf(b))
  }

  lemma ByteRoundTrip(x: nat)
    requires x < 256
    ensures NumOf(ByteOf(x)) == x
  {
    hide BitsOf, FromBits, LsbBits, Value, Pow2;
    BitsOfFromBits(LsbBits(x, 8));
    EightBits();
    ValueLsbBits(x, 8);
  }

  lemma NumRoundTrip(b: bv8)
    ensures ByteOf(NumOf(b)) == b
  {
    hide BitsOf, FromBits, LsbBits, Value;
    LsbBitsValue(BitsOf(b));
    FromBitsOfBits(b);
  }

  lemma ZeroByte(b: bv8)
    ensures NumOf(b) == 0 <==> b == 0
  {
    hide FromBits, LsbBits, Value, NumOf;
    NumRoundTrip(b);
    NoBitsSet();
    ByteRoundTrip(0);
    FromBitsOfBits(0);
  }

  lemma NoBitsSet()
    ensures BitsOf(0) == LsbBits(0, 8)
  {
    hide LsbBits;
    NoneSet(8);
  }

  lemma {:induction false} NoneSet(n: nat)
    ensures LsbBits(0, n) == seq(n, _ => false)
  {
    if n > 0 {
      NoneSet(n - 1);
    }
  }
}

/** Runs of bytes. */
module ByteRuns {
  import opened ByteNumbers

  function Zeros(n: nat): (z: Bytes)
    ensures |z| == n
  {
    seq(n, _ => 0)
  }

  method CopyInto(bytes: Bytes, out: array<bv8>, at: nat)
    requires at + |bytes| <= out.Length
    modifies out
    ensures out[..at] == old(out[..at]) && out[at..at + |bytes|] == bytes
  {
    for i := 0 to |bytes|
      invariant out[..at] == old(out[..at]) && out[at..at + i] == bytes[..i]
    {
      out[at + i] := bytes[i];
    }
  }
}
