/** Whole compressed streams as a compressor may write them: stored blocks, and blocks under the fixed or under
    transmitted codes. All of them inflate to the bytes that their tokens stand for. */
module DeflateStream {
  import opened Numbers
  import opened Options
  import opened Bits
  import opened HuffmanCode
  import opened InflateSpec
  import opened DeflateWriter
  import DynamicTrees

  // ---------------------------------------------------------------- the fixed codes

  /** The codes listed in section 3.2.6 of RFC 1951. */
  function FixedCode(s: nat): BitSeq {
    if s <= 143 then MsbBits(0x30 + s, 8)
    else if s <= 255 then MsbBits(0x190 + (s - 144), 9)
    else if s <= 279 then MsbBits(s - 256, 7)
    else MsbBits(0xC0 + (s - 280), 8)
  }

  lemma {:induction false} FixedCounts(k: nat)
    requires k <= 288
    ensures CountUpTo(FixedLiteral(), k, 7) == if k <= 256 then 0 else if k <= 280 then k - 256 else 24
    ensures CountUpTo(FixedLiteral(), k, 8) == if k <= 144 then k else if k <= 280 then 144 else k - 136
    ensures CountUpTo(FixedLiteral(), k, 9) == if k <= 144 then 0 else if k <= 256 then k - 144 else 112
    ensures forall len :: 0 <= len < 7 ==> CountUpTo(FixedLiteral(), k, len) == 0
  {
    if k > 0 {
      FixedCounts(k - 1);
    }
  }

  lemma {:induction false} NoShortCodes(lengths: Lengths, len: nat)
    requires forall n :: 0 <= n < len ==> Count(lengths, n) == 0
    ensures FirstCode(lengths, len) == 0
  {
    if len > 0 {
      NoShortCodes(lengths, len - 1);
    }
  }

  lemma FixedFirstCodes()
    ensures FirstCode(FixedLiteral(), 7) == 0 && FirstCode(FixedLiteral(), 8) == 0x30
    ensures FirstCode(FixedLiteral(), 9) == 0x190
  {
    hide CountUpTo, FixedLiteral;
    FixedCounts(288);
    NoShortCodes(FixedLiteral(), 7);
  }

  /** The code lengths of the fixed codes give the codes listed. */
  lemma FixedCodesAsListed(s: nat)
    requires s < 288
    ensures Coded(FixedLiteral(), s) && CodeBits(FixedLiteral(), s) == FixedCode(s)
  {
    hide CountUpTo, MsbBits;
    FixedFirstCodes();
    FixedCounts(s);
  }

  lemma {:induction false} FiveBitCounts(k: nat, len: nat)
    requires k <= 32
    ensures CountUpTo(FixedDistance(), k, len) == if len == 5 then k else 0
  {
    if k > 0 {
      FiveBitCounts(k - 1, len);
    }
  }

  /** A distance code is the number itself in five bits. */
  lemma FixedDistancesAsListed(d: nat)
    requires d < 32
    ensures Coded(FixedDistance(), d) && CodeBits(FixedDistance(), d) == MsbBits(d, 5)
  {
    hide CountUpTo, MsbBits;
    FiveBitCounts(d, 5);
    forall n | 0 <= n < 5 ensures Count(FixedDistance(), n) == 0 {
      FiveBitCounts(32, n);
    }
    NoShortCodes(FixedDistance(), 5);
  }

  // ---------------------------------------------------------------- transmitted codes

  /** Code lengths of both alphabets; those of the code they are written in, of which the first few are sent; and the
      runs that write them. */
  datatype Dynamic = Dynamic(lit: Lengths, dist: Lengths, code: Lengths, sent: nat, runs: seq<Written>)

  /** The order in which the lengths of the code length code are sent (section 3.2.7 of RFC 1951). */
  const SENT_ORDER: seq<nat> := [16, 17, 18, 0, 8, 7, 9, 6, 10, 5, 11, 4, 12, 3, 13, 2, 14, 1, 15]

  /** Symbols that are not mentioned have no code. */
  function Filled(lengths: Lengths, n: nat): (r: Lengths)
    requires |lengths| <= n
    ensures |r| == n
  {
    lengths + seq(n - |lengths|, _ => 0)
  }

  predicate NoCodes(lengths: Lengths) {
    forall i :: 0 <= i < |lengths| ==> lengths[i] == 0
  }

  ghost predicate ValidDynamic(h: Dynamic) {
    && 257 <= |h.lit| <= 286 && 1 <= |h.dist| <= 32 && h.lit[256] > 0
    && Describes(Filled(h.lit, 288)) && (NoCodes(h.dist) || Describes(Filled(h.dist, 32)))
    && |h.code| == 19 && Describes(h.code) && 4 <= h.sent <= 19
    && (forall s :: 0 <= s < 19 ==> h.code[s] <= 7)
    && (forall i :: h.sent <= i < 19 ==> h.code[SENT_ORDER[i]] == 0)
    && ValidRuns(h.runs) && Writable(h.code, h.runs) && Meaning(h.runs) == h.lit + h.dist
  }

  function LitCode(h: Dynamic): Lengths
    requires |h.lit| <= 288
  {
    Filled(h.lit, 288)
  }

  function DistCode(h: Dynamic): Option<Lengths>
    requires |h.dist| <= 32
  {
    if NoCodes(h.dist) then None else Some(Filled(h.dist, 32))
  }

  /** The first k lengths of the code length code. */
  function SentBits(code: Lengths, k: nat): (r: BitSeq)
    requires |code| == 19 && k <= 19
    ensures |r| == 3 * k
  {
    if k == 0 then [] else SentBits(code, k - 1) + LsbBits(code[SENT_ORDER[k - 1]], 3)
  }

  function HeaderBits(h: Dynamic): BitSeq
    requires |h.lit| >= 257 && |h.dist| >= 1 && |h.code| == 19 && 4 <= h.sent <= 19 && Writable(h.code, h.runs)
  {
    LsbBits(|h.lit| - 257, 5) + LsbBits(|h.dist| - 1, 5) + LsbBits(h.sent - 4, 4)
    + SentBits(h.code, h.sent) + RunBits(h.code, h.runs)
  }

  lemma {:induction false} SentAt(code: Lengths, k: nat, i: nat)
    requires |code| == 19 && i < k <= 19
    ensures SentBits(code, k)[3 * i..3 * i + 3] == LsbBits(code[SENT_ORDER[i]], 3)
    decreases k
  {
    hide LsbBits;
    if i < k - 1 {
      SentAt(code, k - 1, i);
      assert SentBits(code, k)[3 * i..3 * i + 3] == SentBits(code, k - 1)[3 * i..3 * i + 3];
    }
  }

  lemma OrderPlaces(s: nat)
    requires s < 19
    ensures TransmissionPlace(s) < 19 && SENT_ORDER[TransmissionPlace(s)] == s
  {}

  lemma CodeReadsBack(code: Lengths, sent: nat, rest: BitSeq)
    requires |code| == 19 && sent <= 19 && forall s :: 0 <= s < 19 ==> code[s] <= 7
    requires forall i :: sent <= i < 19 ==> code[SENT_ORDER[i]] == 0
    ensures CodeLengthCode(SentBits(code, sent) + rest, sent) == code
  {
    hide SentBits, LsbBits, Value, TransmissionPlace, Pow2;
    var bits := SentBits(code, sent) + rest;
    forall s | 0 <= s < 19
      ensures CodeLengthCode(bits, sent)[s] == code[s]
    {
      var i := TransmissionPlace(s);
      OrderPlaces(s);
      if i < sent {
        SentAt(code, sent, i);
        assert bits[3 * i..][..3] == SentBits(code, sent)[3 * i..3 * i + 3];
        SmallPowers();
        ValueLsbBits(code[s], 3);
      }
    }
  }

  lemma {:induction false} ZerosRepeat(lengths: Lengths, n: nat)
    requires |lengths| <= n
    ensures Filled(lengths, n) == Padded(lengths, n)
    ensures NoCodes(lengths) <==> Padded(lengths, n) == Repeat(0, n)
  {
    if Padded(lengths, n) == Repeat(0, n) {
      forall i | 0 <= i < |lengths| ensures lengths[i] == 0 {
        assert Padded(lengths, n)[i] == Repeat(0, n)[i];
      }
    }
  }

  lemma CountsReadBack(a: nat, b: nat, c: nat, rest: BitSeq)
    requires a < 32 && b < 32 && c < 16
    ensures var bits := LsbBits(a, 5) + LsbBits(b, 5) + LsbBits(c, 4) + rest;
            && ReadInt(bits, 5) == a && ReadInt(bits[5..], 5) == b && ReadInt(bits[10..], 4) == c
            && bits[14..] == rest
  {
    hide LsbBits, Value, Pow2;
    SmallPowers();
    var bits := LsbBits(a, 5) + LsbBits(b, 5) + LsbBits(c, 4) + rest;
    ValueLsbBits(a, 5);
    ValueLsbBits(b, 5);
    ValueLsbBits(c, 4);
    assert bits[..5] == LsbBits(a, 5) && bits[5..][..5] == LsbBits(b, 5) && bits[10..][..4] == LsbBits(c, 4);
  }

  /** A header is read back as the codes it describes. */
  lemma HeaderReadsBack(h: Dynamic, rest: BitSeq)
    requires ValidDynamic(h)
    ensures DynamicHeader(HeaderBits(h) + rest) == Some(Header(LitCode(h), DistCode(h), rest))
  {
    hide LsbBits, Describes, Value, Meaning, RunBits, SentBits, CodeLengths, CodeLengthCode, ReadInt, Padded, Filled,
        NoCodes;
    var tail := RunBits(h.code, h.runs) + rest;
    var after := SentBits(h.code, h.sent) + tail;
    CountsReadBack(|h.lit| - 257, |h.dist| - 1, h.sent - 4, after);
    var bits := LsbBits(|h.lit| - 257, 5) + LsbBits(|h.dist| - 1, 5) + LsbBits(h.sent - 4, 4) + after;
    assert HeaderBits(h) + rest == bits;
    CodeReadsBack(h.code, h.sent, tail);
    assert bits[14 + 3 * h.sent..] == after[3 * h.sent..] == tail;
    LengthsReadBack(h.code, h.runs, rest);
    var all := h.lit + h.dist;
    assert all[..|h.lit|] == h.lit && all[|h.lit|..] == h.dist;
    ZerosRepeat(h.lit, 288);
    ZerosRepeat(h.dist, 32);
    assert Filled(h.lit, 288)[256] == h.lit[256] by {
      FilledKeeps(h.lit, 288, 256);
    }
  }

  lemma FilledKeeps(lengths: Lengths, n: nat, i: nat)
    requires i < |lengths| <= n
    ensures Filled(lengths, n)[i] == lengths[i]
  {}

  // ---------------------------------------------------------------- blocks

  datatype Block = StoredBlock(data: seq<byte>) | FixedBlock(tokens: seq<Token>)
                 | DynamicBlock(header: Dynamic, tokens: seq<Token>)

  ghost predicate ValidBlock(b: Block, before: nat) {
    match b
    case StoredBlock(data) => |data| < 65536
    case FixedBlock(ts) => ValidTokens(ts, before)
    case DynamicBlock(h, ts) => ValidDynamic(h) && ValidTokens(ts, before) && AllWritable(LitCode(h), DistCode(h), ts)
  }

  /** The output once a block is read. */
  ghost function BlockOutput(b: Block, before: seq<byte>): (r: seq<byte>)
    requires ValidBlock(b, |before|)
    ensures before <= r
  {
    match b
    case StoredBlock(data) => before + data
    case FixedBlock(ts) => ExpandGrows(ts, before); Expand(ts, before)
    case DynamicBlock(_, ts) => ExpandGrows(ts, before); Expand(ts, before)
  }

  /** The bits up to the next byte boundary. */
  function Gap(pos: nat): (r: BitSeq)
    ensures |r| < 8 && (pos + |r|) % 8 == 0
  {
    GapFills(pos);
    seq((8 - pos % 8) % 8, _ => false)
  }

  lemma GapFills(pos: nat)
    ensures (pos + (8 - pos % 8) % 8) % 8 == 0
  {}

  /** Stored data from a bit position on: its length and the complement of it, at a byte boundary, and its bytes. */
  function StoredBits(data: seq<byte>, pos: nat): BitSeq
    requires |data| < 65536
  {
    Gap(pos) + LsbBits(|data|, 16) + LsbBits(0xFFFF - |data|, 16) + BytesBits(data)
  }

  /** A block that starts at a bit position. */
  ghost function BlockBits(last: bool, pos: nat, b: Block, before: nat): BitSeq
    requires ValidBlock(b, before)
  {
    match b
    case StoredBlock(data) =>
      [last, false, false] + StoredBits(data, pos + 3)
    case FixedBlock(ts) =>
      TokensAreFixed(ts, before);
      [last, true, false] + TokensBits(FixedLiteral(), Some(FixedDistance()), ts)
    case DynamicBlock(h, ts) =>
      [last, false, true] + HeaderBits(h) + TokensBits(LitCode(h), DistCode(h), ts)
  }

  /** Every token has fixed codes. */
  lemma {:induction false} TokensAreFixed(ts: seq<Token>, before: nat)
    requires ValidTokens(ts, before)
    ensures AllWritable(FixedLiteral(), Some(FixedDistance()), ts)
    decreases |ts|
  {
    hide FixedLiteral, FixedDistance, LengthSymbol, DistanceSymbol;
    FixedCodesAsListed(256);
    if ts != [] {
      TokensAreFixed(ts[1..], before + Size(ts[0]));
      match ts[0]
      case Lit(b) => FixedCodesAsListed(b);
      case Copy(len, d) =>
        LengthReadsBack(len, []);
        DistanceReadsBack(d, []);
        FixedCodesAsListed(LengthSymbol(len));
        FixedDistancesAsListed(DistanceSymbol(d));
    }
  }

  ghost predicate ValidBlocks(bs: seq<Block>, before: seq<byte>) {
    bs == [] || (ValidBlock(bs[0], |before|) && ValidBlocks(bs[1..], BlockOutput(bs[0], before)))
  }

  /** The bytes that a stream of blocks stands for. */
  ghost function Output(bs: seq<Block>, before: seq<byte>): seq<byte>
    requires ValidBlocks(bs, before)
  {
    if bs == [] then before else Output(bs[1..], BlockOutput(bs[0], before))
  }

  /** The blocks one after the other; only the last one says that it is. */
  ghost function StreamBits(bs: seq<Block>, pos: nat, before: seq<byte>): BitSeq
    requires ValidBlocks(bs, before)
  {
    if bs == [] then []
    else
      var first := BlockBits(|bs| == 1, pos, bs[0], |before|);
      first + StreamBits(bs[1..], pos + |first|, BlockOutput(bs[0], before))
  }

  lemma {:induction false} StoredReadsBack(final: bool, data: seq<byte>, rest: BitSeq, before: seq<byte>)
    ensures StoredBytes(final, |data|, BytesBits(data) + rest, before)
         == Prepend(data, EndBlock(final, rest, before + data))
    decreases |data|
  {
    hide LsbBits, Value, EndBlock;
    if data == [] {
      assert BytesBits(data) + rest == rest && before + data == before;
      var r := EndBlock(final, rest, before);
      assert [] + r.out == r.out;
    } else {
      var b, others := data[0], data[1..];
      assert Pow2(8) == 256;
      ReadsBack(b, 8, BytesBits(others) + rest);
      StoredReadsBack(final, others, rest, before + [b]);
      assert BytesBits(data) + rest == LsbBits(b, 8) + (BytesBits(others) + rest);
      assert before + [b] + others == before + data;
      var r := EndBlock(final, rest, before + data);
      assert [b] + (others + r.out) == data + r.out;
    }
  }

  lemma GapIsRest(pos: nat, n: nat)
    requires (pos + n) % 8 == 0
    ensures |Gap(pos)| == n % 8
  {}

  lemma Pow2Of16()
    ensures Pow2(16) == 65536
  {
    assert Pow2(8) == 256;
  }

  lemma StoredHeaderReadsBack(final: bool, data: seq<byte>, pos: nat, rest: BitSeq, before: seq<byte>)
    requires |data| < 65536
    requires (pos + |StoredBits(data, pos) + rest|) % 8 == 0
    ensures Stored(final, StoredBits(data, pos) + rest, before)
         == Prepend(data, EndBlock(final, rest, before + data))
  {
    hide LsbBits, Value, EndBlock, StoredBytes, BytesBits, Gap, Pow2;
    var n := |data|;
    var body := BytesBits(data) + rest;
    var bits := Gap(pos) + LsbBits(n, 16) + LsbBits(0xFFFF - n, 16) + BytesBits(data) + rest;
    assert bits == StoredBits(data, pos) + rest;
    GapIsRest(pos, |bits|);
    assert bits[|bits| % 8..] == LsbBits(n, 16) + (LsbBits(0xFFFF - n, 16) + body);
    Pow2Of16();
    ReadsBack(n, 16, LsbBits(0xFFFF - n, 16) + body);
    ReadsBack(0xFFFF - n, 16, body);
    var aligned := LsbBits(n, 16) + (LsbBits(0xFFFF - n, 16) + body);
    assert aligned[32..] == aligned[16..][16..] == body;
    StoredReadsBack(final, data, rest, before);
  }

  lemma KindReadsBack(last: bool, low: bool, high: bool, rest: BitSeq)
    ensures ReadInt(([last, low, high] + rest)[1..], 2) == BitOf(low) + 2 * BitOf(high)
    ensures ([last, low, high] + rest)[0] == last && ([last, low, high] + rest)[3..] == rest
  {
    var bits := ([last, low, high] + rest)[1..][..2];
    assert bits == [low, high] && bits[1..] == [high] && bits[1..][1..] == [];
    assert Value(bits[1..]) == BitOf(high) + 2 * Value([]) && Value([]) == 0;
  }

  /** Which kind of block follows. */
  lemma KindOfBlock(last: bool, rest: BitSeq, before: seq<byte>)
    ensures Blocks([last, false, false] + rest, before) == Stored(last, rest, before)
    ensures Blocks([last, true, false] + rest, before)
         == Compressed(last, FixedLiteral(), Some(FixedDistance()), rest, before)
    ensures DynamicHeader(rest).Some? ==>
              var h := DynamicHeader(rest).value;
              Blocks([last, false, true] + rest, before) == Compressed(last, h.lit, h.dist, h.rest, before)
  {
    hide Stored, Compressed, FixedLiteral, FixedDistance, ReadInt, DynamicHeader;
    KindReadsBack(last, false, false, rest);
    KindReadsBack(last, true, false, rest);
    KindReadsBack(last, false, true, rest);
  }

  lemma FixedBlockReadsBack(last: bool, ts: seq<Token>, rest: BitSeq, before: seq<byte>)
    requires ValidTokens(ts, |before|) && AllWritable(FixedLiteral(), Some(FixedDistance()), ts)
    ensures Blocks([last, true, false] + TokensBits(FixedLiteral(), Some(FixedDistance()), ts) + rest, before)
         == Prepend(Added(ts, before), EndBlock(last, rest, Expand(ts, before)))
  {
    hide Blocks, EndBlock, Compressed, TokensBits, Expand, Added, FixedLiteral, FixedDistance, ValidTokens, AllWritable;
    var bits := TokensBits(FixedLiteral(), Some(FixedDistance()), ts);
    KindOfBlock(last, bits + rest, before);
    assert [last, true, false] + bits + rest == [last, true, false] + (bits + rest);
    DynamicTrees.FixedCodesDescribe();
    TokensReadBack(last, FixedLiteral(), Some(FixedDistance()), ts, rest, before);
  }

  lemma DynamicBlockReadsBack(last: bool, h: Dynamic, ts: seq<Token>, rest: BitSeq, before: seq<byte>)
    requires ValidDynamic(h) && ValidTokens(ts, |before|) && AllWritable(LitCode(h), DistCode(h), ts)
    ensures Blocks([last, false, true] + HeaderBits(h) + TokensBits(LitCode(h), DistCode(h), ts) + rest, before)
         == Prepend(Added(ts, before), EndBlock(last, rest, Expand(ts, before)))
  {
    hide Blocks, EndBlock, Compressed, TokensBits, HeaderBits, Expand, Added, LitCode, DistCode, ValidTokens,
      AllWritable, DynamicHeader;
    var lit, dist := LitCode(h), DistCode(h);
    var bits := TokensBits(lit, dist, ts);
    HeaderReadsBack(h, bits + rest);
    CodesDescribe(h);
    KindOfBlock(last, HeaderBits(h) + (bits + rest), before);
    assert [last, false, true] + HeaderBits(h) + bits + rest == [last, false, true] + (HeaderBits(h) + (bits + rest));
    TokensReadBack(last, lit, dist, ts, rest, before);
  }

  lemma StoredBlockReadsBack(last: bool, data: seq<byte>, pos: nat, rest: BitSeq, before: seq<byte>)
    requires |data| < 65536 && (pos + 3 + |StoredBits(data, pos + 3) + rest|) % 8 == 0
    ensures Blocks([last, false, false] + StoredBits(data, pos + 3) + rest, before)
         == Prepend(data, EndBlock(last, rest, before + data))
  {
    hide EndBlock, Blocks, Stored, StoredBits;
    var bits := StoredBits(data, pos + 3);
    KindOfBlock(last, bits + rest, before);
    assert [last, false, false] + bits + rest == [last, false, false] + (bits + rest);
    StoredHeaderReadsBack(last, data, pos + 3, rest, before);
  }

  /** One block is read back, whatever follows it in the stream. */
  lemma BlockReadsBack(last: bool, pos: nat, b: Block, rest: BitSeq, before: seq<byte>)
    requires ValidBlock(b, |before|)
    requires (pos + |BlockBits(last, pos, b, |before|)| + |rest|) % 8 == 0
    ensures var out := BlockOutput(b, before);
            Blocks(BlockBits(last, pos, b, |before|) + rest, before) ==
                Prepend(out[|before|..], EndBlock(last, rest, out))
  {
    hide EndBlock, Blocks, TokensBits, HeaderBits, Expand, FixedLiteral, FixedDistance, ValidDynamic, LitCode, DistCode,
      ValidTokens, AllWritable, StoredBits;
    match b
    case StoredBlock(data) => StoredBlockReadsBack(last, data, pos, rest, before);
    case FixedBlock(ts) =>
      TokensAreFixed(ts, |before|);
      FixedBlockReadsBack(last, ts, rest, before);
    case DynamicBlock(h, ts) => DynamicBlockReadsBack(last, h, ts, rest, before);
  }

  lemma CodesDescribe(h: Dynamic)
    requires ValidDynamic(h)
    ensures Describes(LitCode(h)) && (DistCode(h).Some? ==> Describes(DistCode(h).value))
  {}

  /** All blocks are read back: the bytes they stand for, and the end of the stream where they end. */
  lemma {:induction false} BlocksReadBack(bs: seq<Block>, pos: nat, rest: BitSeq, before: seq<byte>)
    requires bs != [] && ValidBlocks(bs, before)
    requires (pos + |StreamBits(bs, pos, before)| + |rest|) % 8 == 0
    ensures before <= Output(bs, before)
    ensures Blocks(StreamBits(bs, pos, before) + rest, before) == Result(Output(bs, before)[|before|..], Done(rest))
    decreases |bs|
  {
    hide BlockBits, Blocks, BlockOutput, ValidBlock;
    var b, others := bs[0], bs[1..];
    var first, out := BlockBits(|bs| == 1, pos, b, |before|), BlockOutput(b, before);
    var tail := StreamBits(others, pos + |first|, out) + rest;
    assert StreamBits(bs, pos, before) + rest == first + tail;
    BlockReadsBack(|bs| == 1, pos, b, tail, before);
    if |bs| == 1 {
      assert tail == rest && out[|before|..] + [] == out[|before|..];
    } else {
      BlocksReadBack(others, pos + |first|, rest, out);
      var all := Output(bs, before);
      assert out[|before|..] + all[|out|..] == all[|before|..];
    }
  }

  /** A stream of blocks inflates to what they stand for, and ends where they end. */
  lemma StreamReadsBack(bs: seq<Block>, rest: BitSeq)
    requires bs != [] && ValidBlocks(bs, []) && (|StreamBits(bs, 0, [])| + |rest|) % 8 == 0
    ensures Inflate(StreamBits(bs, 0, []) + rest) == Result(Output(bs, []), Done(rest))
  {
    hide Blocks, StreamBits, Output;
    BlocksReadBack(bs, 0, rest, []);
  }
}
