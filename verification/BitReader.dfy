/** The extractor's bit buffer: bytes arrive in chunks of arbitrary size and leave as bits, least
    significant bit first. */
module BitReader {
  import opened Bits

  const INBUF_SIZE: nat := 1024

  class Reader {
    // What read(2) has not delivered yet; a read error looks like the end of this sequence.
    var file: seq<byte>

    const inbuf: array<byte>
    var inPos: nat
    var inLen: nat

    var bitbuf: nat
    var bitcount: nat

    // Bytes taken out of the input buffer and bits handed to the caller, since the start.
    ghost var pulled: nat
    ghost var consumed: nat

    ghost predicate Valid()
      reads this, inbuf
    {
      && Buffered()
      && bitcount < 8
    }

    /** Valid, except that the bit buffer may hold whole bytes. */
    ghost predicate Buffered()
      reads this, inbuf
    {
      && inbuf.Length == INBUF_SIZE && inPos <= inLen <= INBUF_SIZE
      && bitcount < 24 && bitbuf < Pow2(bitcount)
      && 8 * pulled == consumed + bitcount
    }

    ghost function Unread(): seq<byte>
      requires Buffered()
      reads this, inbuf
    {
      inbuf[inPos..inLen] + file
    }

    /** The bits still to come. */
    ghost function Bits(): BitSeq
      requires Buffered()
      reads this, inbuf
    {
      LsbBits(bitbuf, bitcount) + BytesBits(Unread())
    }

    /** Exactly the bytes that hold consumed bits have been pulled, and the bits left in the
        buffer are those of the last of them. */
    lemma PulledIsCeiling()
      requires Valid()
      ensures pulled == (consumed + 7) / 8
      ensures bitcount == |Bits()| % 8
    {
    }

    constructor (file: seq<byte>)
      ensures Valid() && Bits() == BytesBits(file) && fresh(inbuf) && consumed == 0
    {
      this.file := file;
      inbuf := new byte[INBUF_SIZE];
      inPos, inLen, bitbuf, bitcount := 0, 0, 0, 0;
      pulled, consumed := 0, 0;
      new;
      assert Unread() == file;
    }

    /** read(2): some bytes, at least one unless there are none left. */
    method ReadChunk() returns (n: nat)
      requires Buffered() && inPos == inLen
      modifies this`file, inbuf
      ensures n <= INBUF_SIZE && (n == 0 <==> old(file) == [])
      ensures n <= |old(file)| && inbuf[..n] == old(file)[..n] && file == old(file)[n..]
    {
      if file == [] {
        return 0;
      }
      n :| 1 <= n <= |file| && n <= INBUF_SIZE;
      for i := 0 to n
        modifies inbuf
        invariant inbuf[..i] == file[..i]
      {
        inbuf[i] := file[i];
      }
      file := file[n..];
    }

    method PullInputByte() returns (ok: bool, b: byte)
      requires Buffered()
      modifies this`file, this`inPos, this`inLen, inbuf
      ensures Buffered()
      ensures ok == (old(Unread()) != [])
      ensures ok ==> [b] + Unread() == old(Unread())
      ensures !ok ==> Unread() == []
    {
      b := 0;
      ghost var was := Unread();
      if inPos >= inLen {
        var n := ReadChunk();
        if n == 0 {
          ok := false;
          return;
        }
        inPos := 0;
        inLen := n;
        assert Unread() == was;
      }
      b := inbuf[inPos];
      inPos := inPos + 1;
      ok := true;
    }

    method FillBits(nbits: nat) returns (ok: bool)
      requires Valid() && nbits <= 16
      modifies this, inbuf
      ensures Buffered() && Bits() == old(Bits()) && consumed == old(consumed)
      ensures ok == (nbits <= |old(Bits())|)
      ensures ok ==> nbits <= bitcount && (bitcount < nbits + 8 || bitcount < 8)
    {
      hide LsbBits, BytesBits, Pow2;
      while bitcount < nbits
        invariant Buffered() && Bits() == old(Bits()) && consumed == old(consumed)
        invariant bitcount < 8 || bitcount < nbits + 8
        decreases nbits - bitcount
      {
        ghost var unread := Unread();
        var more, b := PullInputByte();
        if !more {
          assert Bits() == old(Bits());
          ok := false;
          return;
        }
        ByteMovesToBuffer(bitbuf, bitcount, b, Unread());
        // The buffer has no bit at bitcount or above, so the disjunction is a sum.
        bitbuf := bitbuf + ShiftLeft(b, bitcount);
        bitcount := bitcount + 8;
        pulled := pulled + 1;
      }
      ok := true;
    }

    /** Takes nbits bits, at most 16, as a number; the 32-bit buffer never overflows. */
    method ReadBits(nbits: int) returns (ok: bool, v: nat)
      requires Valid()
      modifies this, inbuf
      ensures ok == (0 <= nbits <= 16 && nbits <= |old(Bits())|)
      ensures ok ==> Valid() && v == Value(old(Bits())[..nbits]) && Bits() == old(Bits())[nbits..]
      ensures ok ==> consumed == old(consumed) + nbits
    {
      hide LsbBits, BytesBits, Pow2, Low, ShiftRight, Value;
      v := 0;
      if nbits < 0 || nbits > 16 {
        return false, 0;
      }
      if nbits == 0 {
        assert old(Bits())[..0] == [];
        NoBits();
        ok := true;
        return;
      }
      ok := FillBits(nbits);
      if !ok {
        return;
      }
      TakeFromBuffer(bitbuf, bitcount, nbits, Unread());
      v := Low(bitbuf, nbits);
      bitbuf := ShiftRight(bitbuf, nbits);
      bitcount := bitcount - nbits;
      consumed := consumed + nbits;
    }

    /** Drops the rest of the current byte. */
    method AlignToByte()
      requires Valid()
      modifies this
      ensures Valid() && bitcount == 0 && bitbuf == 0 && pulled == old(pulled)
      ensures Bits() == old(Bits())[|old(Bits())| % 8..]
      ensures consumed == 8 * pulled
    {
      hide LsbBits, BytesBits, ShiftRight, Pow2;
      PulledIsCeiling();
      var drop := bitcount % 8;
      TakeFromBuffer(bitbuf, bitcount, drop, Unread());
      NoBits();
      bitbuf := ShiftRight(bitbuf, drop);
      bitcount := bitcount - drop;
      consumed := consumed + drop;
    }
  }

  lemma NoBits()
    ensures Value([]) == 0 && Pow2(0) == 1
  {}

  lemma ByteMovesToBuffer(buf: nat, count: nat, b: byte, rest: seq<byte>)
    requires buf < Pow2(count)
    ensures buf + ShiftLeft(b, count) < Pow2(count + 8)
    ensures LsbBits(buf, count) + BytesBits([b] + rest) ==
        LsbBits(buf + ShiftLeft(b, count), count + 8) + BytesBits(rest)
  {
    hide LsbBits, Pow2, ShiftLeft;
    ByteFits(b);
    LsbBitsAppend(buf, count, b, 8);
    assert ([b] + rest)[1..] == rest;
  }

  lemma ByteFits(b: byte)
    ensures b < Pow2(8)
  {
    assert Pow2(8) == 256;
  }

  lemma TakeFromBuffer(buf: nat, count: nat, n: nat, rest: seq<byte>)
    requires buf < Pow2(count) && n <= count
    ensures ShiftRight(buf, n) < Pow2(count - n)
    ensures var bits := LsbBits(buf, count) + BytesBits(rest);
            && Value(bits[..n]) == Low(buf, n)
            && bits[n..] == LsbBits(ShiftRight(buf, n), count - n) + BytesBits(rest)
  {
    hide LsbBits, BytesBits, Pow2, Value;
    LsbBitsSplit(buf, n, count);
    var bits := LsbBits(buf, count) + BytesBits(rest);
    assert bits[..n] == LsbBits(buf, count)[..n];
  }
}
