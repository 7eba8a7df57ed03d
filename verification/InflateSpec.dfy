/** The meaning of a DEFLATE bit stream, after sections 3.2.3 to 3.2.7 of RFC 1951.

    The whole remaining stream is a bit string whose end is on a byte boundary, so the bits left
    in the current byte are |bits| % 8. Output is described by the bytes produced until the
    stream ends or turns out to be malformed. */
module InflateSpec {
  import opened Numbers
  import opened Options
  import opened Bits
  import opened HuffmanCode

  const WINDOW_SIZE: nat := 32768

  datatype End = Done(rest: BitSeq) | Malformed

  datatype Result = Result(out: seq<byte>, end: End)

  const MALFORMED := Result([], Malformed)

  function Prepend(out: seq<byte>, r: Result): Result {
    Result(out + r.out, r.end)
  }

  function ReadInt(bits: BitSeq, n: nat): (v: nat)
    requires n <= |bits|
    ensures v < Pow2(n)
  {
    ValueBound(bits[..n]);
    Value(bits[..n])
  }

  // ---------------------------------------------------------------- history and matches

  /** The d-th most recent byte, where an infinite run of zero bytes precedes the output. */
  function HistoryAt(history: seq<byte>, d: nat): byte
    requires d > 0
  {
    if d <= |history| then history[|history| - d] else 0
  }

  /** The bytes that a match of the given distance and length appends, one at a time: a match
      may run into the bytes it has itself produced. */
  function CopyMatch(history: seq<byte>, dist: nat, len: nat): (r: seq<byte>)
    requires dist > 0
    ensures |r| == len
    decreases len
  {
    if len == 0 then []
    else
      var b := HistoryAt(history, dist);
      [b] + CopyMatch(history + [b], dist, len - 1)
  }

  /** A match repeats the last dist bytes before it with period dist. */
  lemma {:induction false} MatchIsPeriodic(history: seq<byte>, dist: nat, len: nat, k: nat)
    requires dist > 0 && k < len
    ensures CopyMatch(history, dist, len)[k] == HistoryAt(history, dist - k % dist)
    decreases len, k
  {
    if k > 0 {
      var b := HistoryAt(history, dist);
      MatchIsPeriodic(history + [b], dist, len - 1, k - 1);
      NextRemainder(k - 1, dist);
      HistoryShift(history, b, (k - 1) % dist, k % dist, dist);
    } else {
      assert 0 % dist == 0 by {
        DivModUnique(0, dist, 0, 0);
      }
    }
  }

  lemma HistoryShift(history: seq<byte>, b: byte, before: nat, after: nat, dist: nat)
    requires dist > 0 && before < dist && b == HistoryAt(history, dist)
    requires after == if before == dist - 1 then 0 else before + 1
    ensures HistoryAt(history + [b], dist - before) == HistoryAt(history, dist - after)
  {}

  // ---------------------------------------------------------------- length and distance codes

  /** Extra bits and first length of length code 257 + i (section 3.2.5 of RFC 1951). */
  function LengthExtra(i: nat): nat {
    if i < 8 || i >= 28 then 0 else (i - 4) / 4
  }

  function LengthBase(i: nat): nat {
    if i == 0 then 3
    else if i >= 28 then 258
    else LengthBase(i - 1) + Pow2(LengthExtra(i - 1))
  }

  /** Extra bits and first distance of distance code i. */
  function DistanceExtra(i: nat): nat {
    if i < 4 then 0 else (i - 2) / 2
  }

  function DistanceBase(i: nat): nat {
    if i == 0 then 1 else DistanceBase(i - 1) + Pow2(DistanceExtra(i - 1))
  }

  datatype Match = Match(len: nat, dist: nat, rest: BitSeq)

  /** The match announced by length symbol sym: extra length bits, distance code, extra bits. */
  ghost function ReadMatch(sym: nat, dist: Option<Lengths>, bits: BitSeq): (r: Option<Match>)
    requires 257 <= sym <= 285
    ensures r.Some? ==> |r.value.rest| <= |bits|
  {
    var lx := LengthExtra(sym - 257);
    if |bits| < lx then None
    else
      var len := LengthBase(sym - 257) + ReadInt(bits, lx);
      if dist.None? then None
      else
        var bits1 := bits[lx..];
        var ds := DecodeSymbol(dist.value, bits1);
        if ds.None? || ds.value > 29 then None
        else
          var bits2 := bits1[dist.value[ds.value]..];
          var dx := DistanceExtra(ds.value);
          if |bits2| < dx then None
          else Some(Match(len, DistanceBase(ds.value) + ReadInt(bits2, dx), bits2[dx..]))
  }

  // ---------------------------------------------------------------- dynamic Huffman headers

  datatype Header = Header(lit: Lengths, dist: Option<Lengths>, rest: BitSeq)

  /** Code length symbols are transmitted in the order 16 17 18 0 8 7 9 6 10 5 11 4 12 3 13 2 14
      1 15; this is the place of each symbol in that order. */
  function TransmissionPlace(s: nat): nat {
    if s >= 16 then s - 16
    else if s == 0 then 3
    else if s >= 8 then 4 + 2 * (s - 8)
    else 5 + 2 * (7 - s)
  }

  function CodeLengthCode(bits: BitSeq, hclen: nat): (r: Lengths)
    requires 3 * hclen <= |bits|
    ensures |r| == 19
  {
    seq(19, s requires 0 <= s < 19 =>
      var i := TransmissionPlace(s); if i < hclen then ReadInt(bits[3 * i..], 3) else 0)
  }

  function Repeat(x: nat, n: nat): (r: Lengths)
    ensures |r| == n
  {
    seq(n, _ => x)
  }

  /** The run that a code length symbol stands for, given the lengths read so far. */
  ghost function Run(sym: nat, bits: BitSeq, acc: Lengths): (r: Option<(Lengths, BitSeq)>)
    ensures r.Some? ==> |r.value.1| <= |bits| && |r.value.0| > 0
  {
    if sym <= 15 then Some(([sym], bits))
    else if sym == 16 then
      if acc == [] || |bits| < 2 then None else Some((Repeat(acc[|acc| - 1], 3 + ReadInt(bits, 2)), bits[2..]))
    else if sym == 17 then
      if |bits| < 3 then None else Some((Repeat(0, 3 + ReadInt(bits, 3)), bits[3..]))
    else if sym == 18 then
      if |bits| < 7 then None else Some((Repeat(0, 11 + ReadInt(bits, 7)), bits[7..]))
    else None
  }

  /** Code lengths up to a given total. */
  ghost function CodeLengths(code: Lengths, bits: BitSeq, total: nat, acc: Lengths): (r: Option<(Lengths, BitSeq)>)
    requires |acc| <= total
    ensures r.Some? ==> |r.value.0| == total && |r.value.1| <= |bits|
    decreases |bits|
  {
    if |acc| == total then Some((acc, bits))
    else
      var s := DecodeSymbol(code, bits);
      if s.None? then None
      else
        var run := Run(s.value, bits[code[s.value]..], acc);
        if run.None? || |acc| + |run.value.0| > total then None
        else CodeLengths(code, run.value.1, total, acc + run.value.0)
  }

  function Padded(lengths: Lengths, n: nat): (r: Lengths)
    requires |lengths| <= n
    ensures |r| == n
  {
    lengths + Repeat(0, n - |lengths|)
  }

  /** The codes given by the transmitted lengths, hlit of them for the literal/length alphabet. A
      block may have no distance codes at all; otherwise both codes must be prefix codes, and an
      end-of-block code exists. */
  ghost function Tables(all: Lengths, hlit: nat, rest: BitSeq): (r: Option<Header>)
    requires 257 <= hlit <= 286 && hlit <= |all| <= hlit + 32
    ensures r.Some? ==> |r.value.lit| == 288 && Describes(r.value.lit) && r.value.rest == rest
    ensures r.Some? && r.value.dist.Some? ==> |r.value.dist.value| == 32 && Describes(r.value.dist.value)
  {
    var lit := Padded(all[..hlit], 288);
    var dist := Padded(all[hlit..], 32);
    if lit[256] == 0 || !Describes(lit) then None
    else if dist == Repeat(0, 32) then Some(Header(lit, None, rest))
    else if !Describes(dist) then None
    else Some(Header(lit, Some(dist), rest))
  }

  /** The header of a dynamic block (section 3.2.7 of RFC 1951). */
  ghost function DynamicHeader(bits: BitSeq): (r: Option<Header>)
    ensures r.Some? ==> |r.value.rest| <= |bits|
    ensures r.Some? ==> |r.value.lit| == 288 && Describes(r.value.lit)
    ensures r.Some? && r.value.dist.Some? ==> |r.value.dist.value| == 32 && Describes(r.value.dist.value)
  {
    if |bits| < 14 then None
    else
      var hlit := 257 + ReadInt(bits, 5);
      var hdist := 1 + ReadInt(bits[5..], 5);
      var hclen := 4 + ReadInt(bits[10..], 4);
      if hlit > 286 || hdist > 32 || |bits| < 14 + 3 * hclen then None
      else
        var code := CodeLengthCode(bits[14..], hclen);
        if !Describes(code) then None
        else
          var all := CodeLengths(code, bits[14 + 3 * hclen..], hlit + hdist, []);
          if all.None? then None else Tables(all.value.0, hlit, all.value.1)
  }

  /** The fixed codes of section 3.2.6 of RFC 1951. */
  function FixedLiteral(): (r: Lengths)
    ensures |r| == 288
  {
    seq(288, i => if i <= 143 then 8 else if i <= 255 then 9 else if i <= 279 then 7 else 8)
  }

  function FixedDistance(): (r: Lengths)
    ensures |r| == 32
  {
    Repeat(5, 32)
  }

  // ---------------------------------------------------------------- blocks

  /** A sequence of blocks, after the given output. */
  ghost function Blocks(bits: BitSeq, history: seq<byte>): Result
    decreases |bits|, 0
  {
    if |bits| < 3 then MALFORMED
    else
      var final := bits[0];
      var rest := bits[3..];
      match ReadInt(bits[1..], 2)
      case 0 => Stored(final, rest, history)
      case 1 => Compressed(final, FixedLiteral(), Some(FixedDistance()), rest, history)
      case 2 =>
        (match DynamicHeader(rest)
         case None => MALFORMED
         case Some(h) => Compressed(final, h.lit, h.dist, h.rest, history))
      case _ => MALFORMED
  }

  /** A stored block starts at the next byte boundary with its length and the complement of it. */
  ghost function Stored(final: bool, bits: BitSeq, history: seq<byte>): Result
    decreases |bits|, 3
  {
    var aligned := bits[|bits| % 8..];
    if |aligned| < 32 || ReadInt(aligned, 16) + ReadInt(aligned[16..], 16) != 0xFFFF then MALFORMED
    else StoredBytes(final, ReadInt(aligned, 16), aligned[32..], history)
  }

  ghost function StoredBytes(final: bool, n: nat, bits: BitSeq, history: seq<byte>): Result
    decreases |bits|, 2
  {
    if n == 0 then EndBlock(final, bits, history)
    else if |bits| < 8 then MALFORMED
    else
      var b: byte := ByteAt(bits);
      Prepend([b], StoredBytes(final, n - 1, bits[8..], history + [b]))
  }

  function ByteAt(bits: BitSeq): byte
    requires |bits| >= 8
  {
    assert Pow2(8) == 256;
    ReadInt(bits, 8)
  }

  ghost function Compressed(final: bool, lit: Lengths, dist: Option<Lengths>, bits: BitSeq, history: seq<byte>): Result
    decreases |bits|, 2
  {
    var s := DecodeSymbol(lit, bits);
    if s.None? then MALFORMED
    else
      var rest := bits[lit[s.value]..];
      if s.value < 256 then Prepend([s.value], Compressed(final, lit, dist, rest, history + [s.value]))
      else if s.value == 256 then EndBlock(final, rest, history)
      else if s.value > 285 then MALFORMED
      else
        match ReadMatch(s.value, dist, rest)
        case None => MALFORMED
        case Some(m) =>
          if m.dist == 0 || m.dist > WINDOW_SIZE then MALFORMED
          else
            var copy := CopyMatch(history, m.dist, m.len);
            Prepend(copy, Compressed(final, lit, dist, m.rest, history + copy))
  }

  ghost function EndBlock(final: bool, bits: BitSeq, history: seq<byte>): Result
    decreases |bits|, 1
  {
    if final then Result([], Done(bits)) else Blocks(bits, history)
  }

  /** The output of a whole stream. */
  ghost function Inflate(bits: BitSeq): Result {
    Blocks(bits, [])
  }
}
