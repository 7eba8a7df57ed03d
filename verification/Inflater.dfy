/** The resumable inflate machine: one output byte per call. */
module Inflater {
  import opened Options
  import opened Bits
  import opened HuffmanCode
  import opened HuffmanTree
  import opened BitReader
  import opened SymbolDecoder
  import opened OutputWindow
  import opened InflateSpec
  import opened DynamicTrees
  import Crc32

  function LenBase(i: nat): nat
    requires i < 29
  {
    match i
    case 0 => 3 case 1 => 4 case 2 => 5 case 3 => 6 case 4 => 7
    case 5 => 8 case 6 => 9 case 7 => 10 case 8 => 11 case 9 => 13
    case 10 => 15 case 11 => 17 case 12 => 19 case 13 => 23 case 14 => 27
    case 15 => 31 case 16 => 35 case 17 => 43 case 18 => 51 case 19 => 59
    case 20 => 67 case 21 => 83 case 22 => 99 case 23 => 115 case 24 => 131
    case 25 => 163 case 26 => 195 case 27 => 227 case _ => 258
  }

  function LenExtra(i: nat): (r: nat)
    requires i < 29
    ensures r <= 5
  {
    match i
    case 0 => 0 case 1 => 0 case 2 => 0 case 3 => 0 case 4 => 0
    case 5 => 0 case 6 => 0 case 7 => 0 case 8 => 1 case 9 => 1
    case 10 => 1 case 11 => 1 case 12 => 2 case 13 => 2 case 14 => 2
    case 15 => 2 case 16 => 3 case 17 => 3 case 18 => 3 case 19 => 3
    case 20 => 4 case 21 => 4 case 22 => 4 case 23 => 4 case 24 => 5
    case 25 => 5 case 26 => 5 case 27 => 5 case _ => 0
  }

  function DistBase(i: nat): nat
    requires i < 30
  {
    match i
    case 0 => 1 case 1 => 2 case 2 => 3 case 3 => 4 case 4 => 5
    case 5 => 7 case 6 => 9 case 7 => 13 case 8 => 17 case 9 => 25
    case 10 => 33 case 11 => 49 case 12 => 65 case 13 => 97 case 14 => 129
    case 15 => 193 case 16 => 257 case 17 => 385 case 18 => 513 case 19 => 769
    case 20 => 1025 case 21 => 1537 case 22 => 2049 case 23 => 3073 case 24 => 4097
    case 25 => 6145 case 26 => 8193 case 27 => 12289 case 28 => 16385 case _ => 24577
  }

  function DistExtra(i: nat): (r: nat)
    requires i < 30
    ensures r <= 13
  {
    match i
    case 0 => 0 case 1 => 0 case 2 => 0 case 3 => 0 case 4 => 1
    case 5 => 1 case 6 => 2 case 7 => 2 case 8 => 3 case 9 => 3
    case 10 => 4 case 11 => 4 case 12 => 5 case 13 => 5 case 14 => 6
    case 15 => 6 case 16 => 7 case 17 => 7 case 18 => 8 case 19 => 8
    case 20 => 9 case 21 => 9 case 22 => 10 case 23 => 10 case 24 => 11
    case 25 => 11 case 26 => 12 case 27 => 12 case 28 => 13 case _ => 13
  }

  // ---------------------------------------------------------------- the tables

  lemma ExtraTables(i: nat)
    ensures i <= 28 ==> LenExtra(i) == LengthExtra(i)
    ensures i <= 29 ==> DistExtra(i) == DistanceExtra(i)
  {}

  lemma {:induction false} LengthTable(i: nat)
    requires i <= 28
    ensures LenBase(i) == LengthBase(i) && LenExtra(i) == LengthExtra(i)
  {
    hide Pow2, LengthExtra, LenBase, LenExtra;
    ExtraTables(i);
    LengthEnds();
    if 0 < i < 28 {
      ExtraTables(i - 1);
      LengthTable(i - 1);
      LengthStep(i);
    }
  }

  lemma LengthEnds()
    ensures LenBase(0) == 3 && LenBase(28) == 258
  {}

  lemma LengthStep(i: nat)
    requires 0 < i < 28
    ensures LenBase(i) == LenBase(i - 1) + Pow2(LenExtra(i - 1))
  {
    hide Pow2;
    SmallPowers();
  }

  lemma {:induction false} DistanceTable(i: nat)
    requires i <= 29
    ensures DistBase(i) == DistanceBase(i) && DistExtra(i) == DistanceExtra(i)
  {
    hide Pow2, DistanceExtra, DistBase, DistExtra;
    ExtraTables(i);
    DistanceStart();
    if 0 < i {
      ExtraTables(i - 1);
      DistanceTable(i - 1);
      DistanceStep(i);
    }
  }

  lemma DistanceStart()
    ensures DistBase(0) == 1
  {}

  lemma DistanceStep(i: nat)
    requires 0 < i < 30
    ensures DistBase(i) == DistBase(i - 1) + Pow2(DistExtra(i - 1))
  {
    hide Pow2;
    SmallPowers();
  }

  lemma SmallPowers()
    ensures Pow2(0) == 1 && Pow2(1) == 2 && Pow2(2) == 4 && Pow2(3) == 8 && Pow2(4) == 16 && Pow2(5) == 32
    ensures Pow2(6) == 64 && Pow2(7) == 128 && Pow2(8) == 256 && Pow2(9) == 512 && Pow2(10) == 1024
    ensures Pow2(11) == 2048 && Pow2(12) == 4096 && Pow2(13) == 8192
  {}

  lemma LengthInRange(i: nat, extra: nat)
    requires i <= 28 && extra < Pow2(LengthExtra(i))
    ensures 3 <= LengthBase(i) + extra <= 258
  {
    hide Pow2, LengthBase, LengthExtra;
    SmallPowers();
    LengthTable(i);
  }

  lemma DistanceInRange(i: nat, extra: nat)
    requires i <= 29 && extra < Pow2(DistanceExtra(i))
    ensures 1 <= DistanceBase(i) + extra <= WINDOW_SIZE
  {
    hide Pow2, DistanceBase, DistanceExtra;
    SmallPowers();
    DistanceTable(i);
  }

  /** Every match is 3 to 258 bytes long, at a distance of 1 to 32768: the range checks on
      decoded matches never fire. */
  lemma MatchInRange(sym: nat, dist: Option<Lengths>, bits: BitSeq)
    requires 257 <= sym <= 285 && ReadMatch(sym, dist, bits).Some?
    ensures var m := ReadMatch(sym, dist, bits).value; 3 <= m.len <= 258 && 1 <= m.dist <= WINDOW_SIZE
  {
    hide DecodeSymbol, LengthBase, DistanceBase, LengthExtra, DistanceExtra, Pow2, ReadInt, CodeBits;
    var i := sym - 257;
    var bits1 := bits[LengthExtra(i)..];
    var ds := DecodeSymbol(dist.value, bits1).value;
    var bits2 := bits1[dist.value[ds]..];
    LengthInRange(i, ReadInt(bits, LengthExtra(i)));
    DistanceInRange(ds, ReadInt(bits2, DistanceExtra(ds)));
  }

  // ---------------------------------------------------------------- control state

  /** What the machine still has to do, apart from its input and history. */
  datatype Control = Control(
    blockActive: bool, stored: bool, final: bool, deflateDone: bool,
    storedRemaining: nat, pendingLen: nat, pendingDist: nat,
    lit: Lengths, dist: Option<Lengths>)

  /** The output still to come once a pending match has been copied. */
  ghost function AfterCopy(c: Control, bits: BitSeq, history: seq<byte>): Result {
    if c.blockActive && c.stored then StoredBytes(c.final, c.storedRemaining, bits, history)
    else if c.deflateDone then Result([], Done(bits))
    else if !c.blockActive then Blocks(bits, history)
    else Compressed(c.final, c.lit, c.dist, bits, history)
  }

  /** The output still to come from a state of the machine. */
  ghost function Remaining(c: Control, bits: BitSeq, history: seq<byte>): Result {
    if c.pendingLen == 0 || c.pendingDist == 0 then AfterCopy(c, bits, history)
    else
      var copy := CopyMatch(history, c.pendingDist, c.pendingLen);
      Prepend(copy, AfterCopy(c, bits, history + copy))
  }

  /** Copying one byte of a pending match produces the first byte still to come. */
  lemma CopyStep(c: Control, bits: BitSeq, history: seq<byte>)
    requires c.pendingLen > 0 && c.pendingDist > 0
    ensures var b := HistoryAt(history, c.pendingDist);
            Remaining(c, bits, history)
            == Prepend([b], Remaining(c.(pendingLen := c.pendingLen - 1), bits, history + [b]))
  {
    hide AfterCopy;
    var b := HistoryAt(history, c.pendingDist);
    var longer := history + [b];
    var rest := CopyMatch(longer, c.pendingDist, c.pendingLen - 1);
    var copy := CopyMatch(history, c.pendingDist, c.pendingLen);
    assert copy == [b] + rest;
    assert history + copy == longer + rest;
    var next := c.(pendingLen := c.pendingLen - 1);
    assert AfterCopy(c, bits, history + copy) == AfterCopy(next, bits, longer + rest) by {
      SameAfterCopy(c, next, bits, history + copy);
    }
    if c.pendingLen == 1 {
      assert rest == [] && longer + rest == longer;
    }
    var tail := AfterCopy(c, bits, history + copy).out;
    assert ([b] + rest) + tail == [b] + (rest + tail);
    if rest == [] {
      assert rest + tail == tail;
    }
  }

  lemma SameAfterCopy(c: Control, d: Control, bits: BitSeq, history: seq<byte>)
    requires d == c.(pendingLen := d.pendingLen)
    ensures AfterCopy(c, bits, history) == AfterCopy(d, bits, history)
  {}

  /** The length of a stored block, if its header is there and its two copies agree. */
  function StoredLength(bits: BitSeq): (r: Option<nat>)
    ensures r.Some? ==> |bits| - |bits| % 8 >= 32
  {
    var aligned := bits[|bits| % 8..];
    if |aligned| < 32 || ReadInt(aligned, 16) + ReadInt(aligned[16..], 16) != 0xFFFF then None
    else Some(ReadInt(aligned, 16))
  }

  method ReadStoredLength(gz: Reader) returns (ok: bool, len: nat)
    requires gz.Valid()
    modifies gz, gz.inbuf
    ensures ok == StoredLength(old(gz.Bits())).Some?
    ensures ok ==>
              && gz.Valid() && StoredLength(old(gz.Bits())) == Some(len) && len < 65536
              && gz.Bits() == old(gz.Bits())[|old(gz.Bits())| % 8..][32..]
  {
    hide Value, LsbBits, BytesBits, Pow2;
    gz.AlignToByte();
    ghost var aligned := gz.Bits();
    var nlen;
    ok, len := gz.ReadBits(16);
    if !ok {
      return;
    }
    ok, nlen := gz.ReadBits(16);
    if !ok {
      return;
    }
    assert aligned[16..][16..] == aligned[32..];
    Pow2Of16();
    assert len == ReadInt(aligned, 16) && nlen == ReadInt(aligned[16..], 16);
    // The one's complement of a 16-bit number.
    var complement: nat := 0xFFFF - len;
    ok := complement == nlen;
  }

  class GzipState {
    const input: Reader
    const output: Window
    const litNodes: array<HuffNode>
    const distNodes: array<HuffNode>

    var blockActive: bool
    var blockStored: bool
    var blockIsFinal: bool
    var deflateDone: bool
    var trailerDone: bool
    var storedRemaining: nat
    var pendingCopyLen: nat
    var pendingCopyDist: nat
    var distTreePresent: bool

    // The codes that the tries hold.
    ghost var lit: Lengths
    ghost var dist: Lengths

    ghost predicate Separate()
      reads this
    {
      && input.inbuf != output.window && litNodes != distNodes
      && litNodes.Length == HUFF_MAX_NODES && distNodes.Length == HUFF_MAX_NODES
    }

    /** Holds between calls as long as no call has failed. */
    ghost predicate Valid()
      reads this, input, input.inbuf, output, output.window, litNodes, distNodes
    {
      && Separate() && input.Valid() && output.Valid()
      && (blockActive && !blockStored ==> TreesBuilt())
      && (pendingCopyLen > 0 ==> 0 < pendingCopyDist <= WINDOW_SIZE && blockActive && !blockStored)
      && (deflateDone ==> !blockActive)
      && storedRemaining < 65536 && pendingCopyLen <= 258
    }

    ghost predicate TreesBuilt()
      reads this, litNodes, distNodes
    {
      && |lit| == 288 && Describes(lit) && IsTrie(litNodes[..], lit)
      && (distTreePresent ==> |dist| == 32 && Describes(dist) && IsTrie(distNodes[..], dist))
    }

    ghost function State(): Control
      reads this
    {
      Control(blockActive, blockStored, blockIsFinal, deflateDone, storedRemaining, pendingCopyLen, pendingCopyDist,
              lit, if distTreePresent then Some(dist) else None)
    }

    /** All the output still to come. */
    ghost function ToCome(): Result
      requires input.Buffered()
      reads this, input, input.inbuf, output
    {
      Remaining(State(), input.Bits(), output.history)
    }

    constructor (file: seq<byte>)
      ensures Valid() && ToCome() == Inflate(BytesBits(file)) && output.history == []
      ensures !trailerDone
      ensures fresh(input) && fresh(output) && fresh(litNodes) && fresh(distNodes)
      ensures fresh(input.inbuf) && fresh(output.window)
    {
      input := new Reader(file);
      output := new Window();
      litNodes := new HuffNode[HUFF_MAX_NODES](_ => EMPTY_NODE);
      distNodes := new HuffNode[HUFF_MAX_NODES](_ => EMPTY_NODE);
      blockActive, blockStored, blockIsFinal, deflateDone, trailerDone := false, true, false, false, false;
      storedRemaining, pendingCopyLen, pendingCopyDist, distTreePresent := 0, 0, 0, false;
      lit, dist := [], [];
    }

    /** Starts the next block. It fails exactly when the stream is malformed at this point, and
        otherwise leaves the output to come as it was. */
    method StartBlock() returns (ok: bool)
      requires Valid() && !blockActive && !deflateDone && pendingCopyLen == 0
      modifies this, input, input.inbuf, litNodes, distNodes
      ensures trailerDone == old(trailerDone)
      ensures ok ==> Valid() && ToCome() == old(ToCome()) && |input.Bits()| < |old(input.Bits())|
      ensures ok ==> pendingCopyLen == 0
      ensures !ok ==> old(ToCome()) == MALFORMED
    {
      hide Value, LsbBits, BytesBits, Describes, IsTrie, Mirrors;
      hide DynamicHeader, Blocks, Stored, StoredBytes, Compressed, EndBlock;
      ghost var bits := input.Bits();
      BlocksByType(bits, output.history);
      var bfinal, btype;
      ok, bfinal := input.ReadBits(1);
      if !ok {
        return;
      }
      ok, btype := input.ReadBits(2);
      if !ok {
        return;
      }
      HeaderBits(bits);
      blockIsFinal := bfinal == 1;
      if btype == 0 {
        ok := StartStored(bits[3..]);
      } else if btype == 1 {
        StartFixed();
      } else if btype == 2 {
        ok := StartDynamic(bits[3..]);
      } else {
        ok := false;
      }
    }

    /** The rest of the header of a stored block: its length, twice. */
    method StartStored(ghost bits: BitSeq) returns (ok: bool)
      requires Valid() && !blockActive && !deflateDone && pendingCopyLen == 0 && bits == input.Bits()
      modifies this, input, input.inbuf
      ensures trailerDone == old(trailerDone) && pendingCopyLen == 0
      ensures ok ==> Valid() && ToCome() == Stored(old(blockIsFinal), bits, output.history)
      ensures ok ==> |input.Bits()| <= |bits|
      ensures !ok ==> Stored(old(blockIsFinal), bits, output.history) == MALFORMED
    {
      hide Value, LsbBits, BytesBits, Describes, IsTrie, Mirrors, CopyMatch, Crc32.Register, ReadInt, StoredLength;
      hide Blocks, Stored, StoredBytes, Compressed, EndBlock, TreesBuilt;
      StoredHeader(blockIsFinal, bits, output.history);
      var len;
      ok, len := ReadStoredLength(input);
      if !ok {
        return;
      }
      blockStored, storedRemaining := true, len;
      if len == 0 {
        blockActive := false;
        if blockIsFinal {
          deflateDone := true;
        }
      } else {
        blockActive := true;
      }
    }

    method StartFixed()
      requires Valid() && !blockActive && !deflateDone && pendingCopyLen == 0
      modifies this, litNodes, distNodes
      ensures trailerDone == old(trailerDone) && pendingCopyLen == 0
      ensures Valid() && ToCome() == Compressed(old(blockIsFinal), FixedLiteral(), Some(FixedDistance()),
                                                input.Bits(), output.history)
    {
      hide LsbBits, BytesBits, Describes, IsTrie, Mirrors, Blocks, Stored, StoredBytes, Compressed, EndBlock,
          CopyMatch, Crc32.Register;
      var ok := BuildFixedTrees(litNodes, distNodes);
      distTreePresent := true;
      lit, dist := FixedLiteral(), FixedDistance();
      blockStored, blockActive := false, true;
    }

    method StartDynamic(ghost bits: BitSeq) returns (ok: bool)
      requires Valid() && !blockActive && !deflateDone && pendingCopyLen == 0 && bits == input.Bits()
      modifies this, input, input.inbuf, litNodes, distNodes
      ensures trailerDone == old(trailerDone) && pendingCopyLen == 0
      ensures ok == DynamicHeader(bits).Some?
      ensures ok ==>
                var h := DynamicHeader(bits).value;
                && Valid() && |input.Bits()| <= |bits|
                && ToCome() == Compressed(old(blockIsFinal), h.lit, h.dist, h.rest, output.history)
    {
      hide LsbBits, BytesBits, Describes, IsTrie, Mirrors, Blocks, Stored, StoredBytes, Compressed, EndBlock,
          CopyMatch, Crc32.Register, DynamicHeader;
      var present;
      ok, present := BuildDynamicTrees(input, litNodes, distNodes);
      if ok {
        ghost var h := DynamicHeader(bits).value;
        lit := h.lit;
        if h.dist.Some? {
          dist := h.dist.value;
        }
        distTreePresent, blockStored, blockActive := present, false, true;
      }
    }

    /** Takes one byte of a stored block. */
    method StoredByte() returns (ok: bool, b: byte)
      requires Valid() && blockActive && blockStored && storedRemaining > 0
      modifies this, input, input.inbuf, output, output.window
      ensures trailerDone == old(trailerDone)
      ensures ok ==> Valid() && output.history == old(output.history) + [b] && old(ToCome()) == Prepend([b], ToCome())
      ensures !ok ==> old(ToCome()) == MALFORMED && output.history == old(output.history)
    {
      hide Value, LsbBits, BytesBits, Describes, IsTrie, Mirrors, CopyMatch, Crc32.Register, TreesBuilt, Pow2;
      hide Blocks, Stored, StoredBytes, Compressed, EndBlock;
      b := 0;
      StoredUnfold(blockIsFinal, storedRemaining, input.Bits(), output.history);
      var v;
      ok, v := input.ReadBits(8);
      if !ok {
        return;
      }
      b := v;
      output.EmitByte(b);
      storedRemaining := storedRemaining - 1;
      if storedRemaining == 0 {
        blockActive := false;
        if blockIsFinal {
          deflateDone := true;
        }
      }
    }

    /** Copies one byte of the pending match. */
    method CopyByte() returns (b: byte)
      requires Valid() && pendingCopyLen > 0
      modifies this, output, output.window
      ensures trailerDone == old(trailerDone)
      ensures Valid() && output.history == old(output.history) + [b] && old(ToCome()) == Prepend([b], ToCome())
    {
      hide LsbBits, BytesBits, Describes, IsTrie, Mirrors, CopyMatch, Crc32.Register, AfterCopy, Remaining, HistoryAt;
      hide Blocks, Stored, StoredBytes, Compressed, EndBlock;
      CopyStep(State(), input.Bits(), output.history);
      b := output.Fetch(pendingCopyDist);
      output.EmitByte(b);
      pendingCopyLen := pendingCopyLen - 1;
    }

    ghost function DistCode(): Option<Lengths>
      reads this
    {
      if distTreePresent then Some(dist) else None
    }

    /** Decodes one symbol of a compressed block: a literal is emitted, the end of the block or a
        match only changes the state. */
    method HuffmanStep() returns (rc: int, b: byte)
      requires Valid() && blockActive && !blockStored && pendingCopyLen == 0
      modifies this, input, input.inbuf, output, output.window
      ensures trailerDone == old(trailerDone) && -1 <= rc <= 1
      ensures rc == 1 ==> Valid() && output.history == old(output.history) + [b]
      ensures rc == 1 ==> old(ToCome()) == Prepend([b], ToCome())
      ensures rc != 1 ==> output.history == old(output.history)
      ensures rc == 0 ==> Valid() && old(ToCome()) == ToCome()
      ensures rc == 0 ==> |input.Bits()| < |old(input.Bits())|
      ensures rc == -1 ==> old(ToCome()) == MALFORMED
    {
      hide Value, LsbBits, BytesBits, Describes, IsTrie, Mirrors, Crc32.Register, CodeBits, CopyMatch, ReadMatch;
      hide Blocks, Stored, StoredBytes, Compressed, EndBlock;
      b := 0;
      ghost var bits, history := input.Bits(), output.history;
      CompressedUnfold(blockIsFinal, lit, DistCode(), bits, history);
      var ok, sym := HuffDecodeSymbol(input, litNodes, lit);
      if !ok {
        return -1, 0;
      }
      if sym < 256 {
        b := sym;
        output.EmitByte(b);
        return 1, b;
      }
      if sym == 256 {
        blockActive := false;
        if blockIsFinal {
          deflateDone := true;
        }
        return 0, 0;
      }
      if sym < 257 || sym > 285 {
        return -1, 0;
      }
      var len, d;
      ok, len, d := DecodeMatch(input, distNodes, distTreePresent, dist, sym);
      if !ok || d == 0 || d > WINDOW_SIZE || len == 0 || len > 258 {
        return -1, 0;
      }
      pendingCopyLen, pendingCopyDist := len, d;
      return 0, 0;
    }

    /** The next output byte: 1 with the byte, 0 at the end of the stream, -1 if it is malformed. */
    method InflateNextByte() returns (rc: int, b: byte)
      requires Valid()
      modifies this, input, input.inbuf, output, output.window, litNodes, distNodes
      ensures trailerDone == old(trailerDone) && -1 <= rc <= 1
      ensures rc == 1 ==> Valid() && output.history == old(output.history) + [b]
      ensures rc == 1 ==> old(ToCome()) == Prepend([b], ToCome())
      ensures rc != 1 ==> output.history == old(output.history)
      ensures rc == 0 ==> Valid()
      ensures rc == 0 ==> old(ToCome()) == ToCome() == Result([], Done(input.Bits()))
      ensures rc == -1 ==> old(ToCome()) == MALFORMED
    {
      hide Value, LsbBits, BytesBits, Describes, IsTrie, Mirrors, Crc32.Register, CopyMatch;
      hide Blocks, Stored, StoredBytes, Compressed, EndBlock;
      b := 0;
      while true
        invariant Valid() && trailerDone == old(trailerDone)
        invariant ToCome() == old(ToCome()) && output.history == old(output.history)
        decreases |input.Bits()|, if blockActive then 1 else 0
      {
        if pendingCopyLen > 0 {
          b := CopyByte();
          return 1, b;
        }
        if blockActive && blockStored {
          if storedRemaining == 0 {
            StoredNone(blockIsFinal, input.Bits(), output.history);
            blockActive := false;
            if blockIsFinal {
              deflateDone := true;
            }
            continue;
          }
          var ok;
          ok, b := StoredByte();
          return if ok then 1 else -1, b;
        }
        if deflateDone {
          return 0, 0;
        }
        if !blockActive {
          var ok := StartBlock();
          if !ok {
            return -1, 0;
          }
          continue;
        }
        rc, b := HuffmanStep();
        if rc != 0 {
          return;
        }
      }
    }
  }

  /** The rest of a match after its length symbol. It fails exactly when the match is malformed. */
  method DecodeMatch(gz: Reader, distNodes: array<HuffNode>, distPresent: bool, ghost dist: Lengths, sym: nat)
    returns (ok: bool, len: nat, d: nat)
    requires gz.Valid() && 257 <= sym <= 285
    requires distPresent ==> Describes(dist) && IsTrie(distNodes[..], dist)
    modifies gz, gz.inbuf
    ensures var m := ReadMatch(sym, if distPresent then Some(dist) else None, old(gz.Bits()));
            && ok == m.Some?
            && (ok ==> gz.Valid() && m == Some(Match(len, d, gz.Bits())))
    ensures ok ==> 3 <= len <= 258 && 1 <= d <= WINDOW_SIZE
  {
    hide Value, LsbBits, BytesBits, Describes, IsTrie, CodeBits, LenBase, LenExtra;
    hide DistBase, DistExtra, LengthBase, LengthExtra, DistanceBase, DistanceExtra, ReadInt;
    len, d := 0, 0;
    ghost var bits := gz.Bits();
    var i := sym - 257;
    LengthTable(i);
    var extra;
    ok, extra := ReadExtra(gz, LenExtra(i));
    if !ok || !distPresent {
      return false, 0, 0;
    }
    len := LenBase(i) + extra;
    var ds;
    ok, ds := HuffDecodeSymbol(gz, distNodes, dist);
    if !ok || ds > 29 {
      return false, 0, 0;
    }
    DistanceTable(ds);
    ok, extra := ReadExtra(gz, DistExtra(ds));
    if !ok {
      return;
    }
    d := DistBase(ds) + extra;
    MatchInRange(sym, Some(dist), bits);
  }

  method ReadExtra(gz: Reader, n: nat) returns (ok: bool, extra: nat)
    requires gz.Valid() && n <= 16
    modifies gz, gz.inbuf
    ensures ok == (n <= |old(gz.Bits())|)
    ensures ok ==> gz.Valid() && extra == ReadInt(old(gz.Bits()), n) && gz.Bits() == old(gz.Bits())[n..]
  {
    hide LsbBits, BytesBits;
    extra := 0;
    if n > 0 {
      ok, extra := gz.ReadBits(n);
    } else {
      ok := true;
      assert gz.Bits()[..0] == [] && gz.Bits()[0..] == gz.Bits();
    }
  }

  // ---------------------------------------------------------------- unfolding the specification

  lemma HeaderBits(bits: BitSeq)
    requires |bits| >= 3
    ensures (Value(bits[..1]) == 1) == bits[0]
    ensures bits[1..][2..] == bits[3..]
    ensures ReadInt(bits[1..], 2) < 4
  {
    OneBit(bits);
    SmallPowers();
  }

  lemma BlocksByType(bits: BitSeq, history: seq<byte>)
    ensures |bits| < 3 ==> Blocks(bits, history) == MALFORMED
    ensures |bits| >= 3 ==>
              Blocks(bits, history) ==
              match ReadInt(bits[1..], 2)
              case 0 => Stored(bits[0], bits[3..], history)
              case 1 => Compressed(bits[0], FixedLiteral(), Some(FixedDistance()), bits[3..], history)
              case 2 =>
                (match DynamicHeader(bits[3..])
                 case None => MALFORMED
                 case Some(h) => Compressed(bits[0], h.lit, h.dist, h.rest, history))
              case _ => MALFORMED
  {}

  lemma StoredHeader(final: bool, bits: BitSeq, history: seq<byte>)
    ensures match StoredLength(bits)
            case None => Stored(final, bits, history) == MALFORMED
            case Some(len) =>
              var rest := bits[|bits| % 8..][32..];
              && Stored(final, bits, history) == StoredBytes(final, len, rest, history)
              && (len == 0 ==> Stored(final, bits, history) == AfterBlock(final, rest, history))
  {}

  /** What follows a block. */
  ghost function AfterBlock(final: bool, bits: BitSeq, history: seq<byte>): Result {
    if final then Result([], Done(bits)) else Blocks(bits, history)
  }

  lemma StoredUnfold(final: bool, n: nat, bits: BitSeq, history: seq<byte>)
    requires n > 0
    ensures |bits| < 8 ==> StoredBytes(final, n, bits, history) == MALFORMED
    ensures |bits| >= 8 ==>
              var b := Value(bits[..8]);
              && 0 <= b < 256
              && StoredBytes(final, n, bits, history)
                 == Prepend([b], if n == 1 then AfterBlock(final, bits[8..], history + [b])
                                 else StoredBytes(final, n - 1, bits[8..], history + [b]))
  {
    if |bits| >= 8 {
      var b := ByteAt(bits);
      assert Value(bits[..8]) == b;
      StoredNone(final, bits[8..], history + [b]);
      assert StoredBytes(final, n, bits, history) == Prepend([b], StoredBytes(final, n - 1, bits[8..], history + [b]));
    }
  }

  lemma StoredNone(final: bool, bits: BitSeq, history: seq<byte>)
    ensures StoredBytes(final, 0, bits, history) == AfterBlock(final, bits, history)
  {}

  lemma CompressedUnfold(final: bool, lit: Lengths, dist: Option<Lengths>, bits: BitSeq, history: seq<byte>)
    ensures match DecodeSymbol(lit, bits)
            case None => Compressed(final, lit, dist, bits, history) == MALFORMED
            case Some(s) =>
              var rest := bits[lit[s]..];
              && |rest| < |bits|
              && (s < 256 ==>
                    Compressed(final, lit, dist, bits, history)
                    == Prepend([s], Compressed(final, lit, dist, rest, history + [s])))
              && (s == 256 ==> Compressed(final, lit, dist, bits, history) == AfterBlock(final, rest, history))
              && (s > 285 ==> Compressed(final, lit, dist, bits, history) == MALFORMED)
              && (257 <= s <= 285 ==>
                    match ReadMatch(s, dist, rest)
                    case None => Compressed(final, lit, dist, bits, history) == MALFORMED
                    case Some(m) =>
                      && 3 <= m.len && 1 <= m.dist <= WINDOW_SIZE
                      && var copy := CopyMatch(history, m.dist, m.len);
                         Compressed(final, lit, dist, bits, history)
                         == Prepend(copy, Compressed(final, lit, dist, m.rest, history + copy)))
  {
    hide ReadMatch, CodeBits;
    var r := DecodeSymbol(lit, bits);
    if r.Some? && 257 <= r.value <= 285 {
      var rest := bits[lit[r.value]..];
      if ReadMatch(r.value, dist, rest).Some? {
        MatchInRange(r.value, dist, rest);
      }
    }
  }
}
