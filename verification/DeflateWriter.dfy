/** What a compressor may write (sections 3.2.3 to 3.2.7 of RFC 1951), defined without regard to how it is read, and
    that the inflate specification reads it back. */
module DeflateWriter {
  import opened Numbers
  import opened Options
  import opened Bits
  import opened HuffmanCode
  import opened InflateSpec

  // ---------------------------------------------------------------- numbers in the stream

  lemma {:induction false} ValueOfLow(v: nat, n: nat)
    ensures Value(LsbBits(v, n)) == Low(v, n)
  {
    if n > 0 {
      ValueOfLow(v / 2, n - 1);
      assert LsbBits(v, n)[1..] == LsbBits(v / 2, n - 1);
    }
  }

  /** A number is read back from its bits, whatever follows. */
  lemma ReadsBack(v: nat, n: nat, rest: BitSeq)
    requires v < Pow2(n)
    ensures ReadInt(LsbBits(v, n) + rest, n) == v && (LsbBits(v, n) + rest)[n..] == rest
  {
    hide LsbBits, Value, Pow2;
    ValueLsbBits(v, n);
    assert (LsbBits(v, n) + rest)[..n] == LsbBits(v, n);
  }

  /** A symbol is read back from its code, whatever follows. */
  lemma SymbolReadsBack(lengths: Lengths, s: nat, rest: BitSeq)
    requires Describes(lengths) && Coded(lengths, s)
    ensures DecodeSymbol(lengths, CodeBits(lengths, s) + rest) == Some(s)
    ensures (CodeBits(lengths, s) + rest)[lengths[s]..] == rest
  {
    hide Describes, MsbBits, Code;
    DecodeSymbolUnique(lengths, s, CodeBits(lengths, s) + rest);
  }

  // ---------------------------------------------------------------- run-length coded code lengths

  /** One length, the previous length some times over, or some zeros. */
  datatype Written = One(len: nat) | Again(n: nat) | Zeros(n: nat)

  predicate ValidWritten(w: Written, first: bool) {
    match w
    case One(len) => len <= 15
    case Again(n) => 3 <= n <= 6 && !first
    case Zeros(n) => 3 <= n <= 138
  }

  predicate ValidRuns(ws: seq<Written>) {
    forall i :: 0 <= i < |ws| ==> ValidWritten(ws[i], i == 0)
  }

  /** What one run stands for after some lengths. */
  function Stands(w: Written, before: Lengths): Lengths {
    match w
    case One(len) => [len]
    case Again(n) => seq(n, _ => if before == [] then 0 else before[|before| - 1])
    case Zeros(n) => seq(n, _ => 0)
  }

  /** The lengths that the runs stand for. */
  function Meaning(ws: seq<Written>): Lengths {
    if ws == [] then []
    else
      var before := Meaning(ws[..|ws| - 1]);
      before + Stands(ws[|ws| - 1], before)
  }

  function SymbolFor(w: Written): nat {
    match w
    case One(len) => len
    case Again(_) => 16
    case Zeros(n) => if n <= 10 then 17 else 18
  }

  /** How often a length repeats, after the symbol: 2, 3 or 7 more bits. */
  function CountBits(w: Written): BitSeq {
    match w
    case One(_) => []
    case Again(n) => if n >= 3 then LsbBits(n - 3, 2) else []
    case Zeros(n) => if n >= 11 then LsbBits(n - 11, 7) else if n >= 3 then LsbBits(n - 3, 3) else []
  }

  predicate Writable(code: Lengths, ws: seq<Written>) {
    forall i :: 0 <= i < |ws| ==> Coded(code, SymbolFor(ws[i]))
  }

  function RunBits(code: Lengths, ws: seq<Written>): BitSeq
    requires Writable(code, ws)
  {
    if ws == [] then [] else CodeBits(code, SymbolFor(ws[0])) + CountBits(ws[0]) + RunBits(code, ws[1..])
  }

  /** One run is read as what it stands for. */
  lemma RunReadsBack(w: Written, before: Lengths, bits: BitSeq)
    requires ValidWritten(w, before == [])
    ensures Run(SymbolFor(w), CountBits(w) + bits, before) == Some((Stands(w, before), bits))
  {
    hide LsbBits, Value, Pow2;
    SmallPowers();
    match w
    case One(len) => assert CountBits(w) + bits == bits;
    case Again(n) => ReadsBack(n - 3, 2, bits);
    case Zeros(n) =>
      if n <= 10 {
        ReadsBack(n - 3, 3, bits);
      } else {
        ReadsBack(n - 11, 7, bits);
      }
  }

  lemma SmallPowers()
    ensures Pow2(2) == 4 && Pow2(3) == 8 && Pow2(4) == 16 && Pow2(5) == 32 && Pow2(7) == 128
  {}

  lemma MeaningNext(ws: seq<Written>, k: nat)
    requires k < |ws| && ValidRuns(ws)
    ensures Meaning(ws[..k + 1]) == Meaning(ws[..k]) + Stands(ws[k], Meaning(ws[..k]))
    ensures |Stands(ws[k], Meaning(ws[..k]))| > 0
  {
    assert ws[..k + 1][..k] == ws[..k];
  }

  lemma {:induction false} MeaningGrows(ws: seq<Written>, k: nat)
    requires k <= |ws| && ValidRuns(ws)
    ensures |Meaning(ws[..k])| <= |Meaning(ws)|
    ensures k > 0 ==> Meaning(ws[..k]) != []
    decreases |ws| - k
  {
    hide ValidRuns, Meaning;
    if k < |ws| {
      MeaningNext(ws, k);
      MeaningGrows(ws, k + 1);
    } else {
      assert ws[..k] == ws;
    }
    if k > 0 {
      MeaningNext(ws, k - 1);
    }
  }

  lemma LengthsStep(code: Lengths, w: Written, before: Lengths, total: nat, bits: BitSeq)
    requires Describes(code) && Coded(code, SymbolFor(w)) && ValidWritten(w, before == [])
    requires |before| + |Stands(w, before)| <= total && |Stands(w, before)| > 0
    ensures CodeLengths(code, CodeBits(code, SymbolFor(w)) + (CountBits(w) + bits), total, before)
         == CodeLengths(code, bits, total, before + Stands(w, before))
  {
    hide CodeBits, CountBits, Run, DecodeSymbol;
    SymbolReadsBack(code, SymbolFor(w), CountBits(w) + bits);
    RunReadsBack(w, before, bits);
  }

  /** From the k-th run on, after what the first k stand for. */
  lemma {:induction false} RunsReadBack(code: Lengths, ws: seq<Written>, k: nat, rest: BitSeq)
    requires Describes(code) && ValidRuns(ws) && Writable(code, ws) && k <= |ws|
    ensures |Meaning(ws[..k])| <= |Meaning(ws)|
    ensures CodeLengths(code, RunBits(code, ws[k..]) + rest, |Meaning(ws)|, Meaning(ws[..k])) ==
        Some((Meaning(ws), rest))
    decreases |ws| - k
  {
    hide Describes, Meaning, CodeBits, CountBits, Stands;
    MeaningGrows(ws, k);
    if k == |ws| {
      assert ws[..k] == ws && RunBits(code, ws[k..]) + rest == rest;
    } else {
      var w, before, tail := ws[k], Meaning(ws[..k]), RunBits(code, ws[k + 1..]) + rest;
      MeaningGrows(ws, k + 1);
      MeaningNext(ws, k);
      assert ws[k..][0] == w && ws[k..][1..] == ws[k + 1..];
      assert RunBits(code, ws[k..]) + rest == CodeBits(code, SymbolFor(w)) + (CountBits(w) + tail);
      assert ValidWritten(w, before == []) by {
        if k == 0 {
          MeaningOfNone(ws);
        }
      }
      LengthsStep(code, w, before, |Meaning(ws)|, tail);
      RunsReadBack(code, ws, k + 1, rest);
    }
  }

  lemma MeaningOfNone(ws: seq<Written>)
    ensures Meaning(ws[..0]) == []
  {}

  /** Run-length coded code lengths are read as what was written. */
  lemma LengthsReadBack(code: Lengths, ws: seq<Written>, rest: BitSeq)
    requires Describes(code) && ValidRuns(ws) && Writable(code, ws)
    ensures CodeLengths(code, RunBits(code, ws) + rest, |Meaning(ws)|, []) == Some((Meaning(ws), rest))
  {
    hide Describes, Meaning, CodeLengths, RunBits;
    RunsReadBack(code, ws, 0, rest);
    MeaningOfNone(ws);
    assert ws[0..] == ws;
  }

  // ---------------------------------------------------------------- literals and matches

  /** A byte, or a copy of some of the output. */
  datatype Token = Lit(b: byte) | Copy(len: nat, dist: nat)

  /** The bytes a token adds: a copy longer than its distance repeats itself. */
  function Piece(t: Token, before: seq<byte>): (r: seq<byte>)
    requires ValidToken(t, |before|)
    ensures |r| == Size(t)
  {
    match t
    case Lit(b) => [b]
    case Copy(len, dist) => seq(len, k requires 0 <= k < len => before[|before| - dist + k % dist])
  }

  function Size(t: Token): nat {
    if t.Lit? then 1 else t.len
  }

  predicate ValidToken(t: Token, before: nat) {
    t.Copy? ==> 3 <= t.len <= 258 && 1 <= t.dist <= 32768 && t.dist <= before
  }

  predicate ValidTokens(ts: seq<Token>, before: nat) {
    ts == [] ||
    (ValidToken(ts[0], before) && ValidTokens(ts[1..], before + Size(ts[0])))
  }

  /** The output after some tokens. */
  function Expand(ts: seq<Token>, before: seq<byte>): seq<byte>
    requires ValidTokens(ts, |before|)
  {
    if ts == [] then before else Expand(ts[1..], before + Piece(ts[0], before))
  }

  /** The code of a number: small ones have a code each; above, each doubling has lead codes, told apart by the bits
      after the leading one. */
  function Index(n: nat, lead: nat): nat
    requires lead > 0
  {
    if n < 2 * lead then n else lead + Index(n / 2, lead)
  }

  /** How many low bits follow the code. */
  function Extra(n: nat, lead: nat): nat
    requires lead > 0
  {
    if n < 2 * lead then 0 else 1 + Extra(n / 2, lead)
  }

  /** The symbol of a match length, with a symbol of its own for the longest, and the bits after it. */
  function LengthSymbol(len: nat): nat
    requires len >= 3
  {
    if len == 258 then 285 else 257 + Index(len - 3, 4)
  }

  function LengthBits(len: nat): BitSeq
    requires len >= 3
  {
    if len == 258 then [] else LsbBits(len - 3, Extra(len - 3, 4))
  }

  function DistanceSymbol(dist: nat): nat
    requires dist >= 1
  {
    Index(dist - 1, 2)
  }

  function DistanceBits(dist: nat): BitSeq
    requires dist >= 1
  {
    LsbBits(dist - 1, Extra(dist - 1, 2))
  }

  lemma {:induction false} IndexRange(n: nat, lead: nat, j: nat)
    requires lead > 0 && n < 2 * lead * Pow2(j)
    ensures Index(n, lead) < 2 * lead + lead * j
    decreases j
  {
    assert Pow2(0) == 1;
    if n >= 2 * lead {
      assert 2 * lead * Pow2(j) == 2 * (2 * lead * Pow2(j - 1));
      IndexRange(n / 2, lead, j - 1);
      assert lead * j == lead * (j - 1) + lead;
    }
  }

  lemma {:induction false} FirstLengths(i: nat)
    requires i <= 8
    ensures LengthBase(i) == 3 + i
  {
    if i > 0 {
      FirstLengths(i - 1);
      assert Pow2(0) == 1;
    }
  }

  lemma {:induction false} LengthDoubles(i: nat)
    requires 4 <= i < 24
    ensures LengthBase(i + 4) - 3 == 2 * (LengthBase(i) - 3) && LengthExtra(i + 4) == LengthExtra(i) + 1
  {
    if i > 4 {
      LengthDoubles(i - 1);
    } else {
      FirstLengths(4);
      FirstLengths(8);
    }
  }

  lemma {:induction false} DistanceDoubles(i: nat)
    requires 2 <= i
    ensures DistanceBase(i + 2) - 1 == 2 * (DistanceBase(i) - 1) && DistanceExtra(i + 2) == DistanceExtra(i) + 1
  {
    if i > 2 {
      DistanceDoubles(i - 1);
    }
  }

  lemma {:induction false} LengthIndex(n: nat)
    requires Index(n, 4) < 28
    ensures LengthExtra(Index(n, 4)) == Extra(n, 4)
    ensures LengthBase(Index(n, 4)) + Low(n, Extra(n, 4)) == n + 3
  {
    if n >= 8 {
      LengthIndex(n / 2);
      LengthDoubles(Index(n / 2, 4));
    } else {
      FirstLengths(n);
    }
  }

  lemma {:induction false} DistanceIndex(n: nat)
    ensures DistanceExtra(Index(n, 2)) == Extra(n, 2)
    ensures DistanceBase(Index(n, 2)) + Low(n, Extra(n, 2)) == n + 1
  {
    if n >= 4 {
      DistanceIndex(n / 2);
      DistanceDoubles(Index(n / 2, 2));
    }
  }

  /** What a token needs of the two codes; a code for distances may be missing if nothing is copied. */
  predicate TokenWritable(lit: Lengths, dist: Option<Lengths>, t: Token) {
    if t.Lit? then Coded(lit, t.b)
    else
      && t.len >= 3 && t.dist >= 1 && Coded(lit, LengthSymbol(t.len))
      && dist.Some? && Coded(dist.value, DistanceSymbol(t.dist))
  }

  function TokenBits(lit: Lengths, dist: Option<Lengths>, t: Token): BitSeq
    requires TokenWritable(lit, dist, t)
  {
    match t
    case Lit(b) => CodeBits(lit, b)
    case Copy(len, d) =>
      CodeBits(lit, LengthSymbol(len)) + LengthBits(len) + CodeBits(dist.value, DistanceSymbol(d)) + DistanceBits(d)
  }

  predicate AllWritable(lit: Lengths, dist: Option<Lengths>, ts: seq<Token>) {
    Coded(lit, 256) && forall i :: 0 <= i < |ts| ==> TokenWritable(lit, dist, ts[i])
  }

  /** The tokens one after the other, and the end of the block. */
  function TokensBits(lit: Lengths, dist: Option<Lengths>, ts: seq<Token>): BitSeq
    requires AllWritable(lit, dist, ts)
  {
    if ts == [] then CodeBits(lit, 256) else TokenBits(lit, dist, ts[0]) + TokensBits(lit, dist, ts[1..])
  }

  lemma LengthReadsBack(len: nat, rest: BitSeq)
    requires 3 <= len <= 258
    ensures 257 <= LengthSymbol(len) <= 285
    ensures var i := LengthSymbol(len) - 257; var bits := LengthBits(len) + rest;
            && |bits| >= LengthExtra(i) && LengthBase(i) + ReadInt(bits, LengthExtra(i)) == len
            && bits[LengthExtra(i)..] == rest
  {
    hide LsbBits, Value, Index, LengthBase, LengthExtra, Extra, Pow2;
    if len == 258 {
      LongestLength();
      assert LengthBits(len) + rest == rest && rest[..0] == [] && Value([]) == 0 by {
        EmptyValue();
      }
    } else {
      SmallPowers();
      IndexRange(len - 3, 4, 5);
      LengthIndex(len - 3);
      ValueOfLow(len - 3, Extra(len - 3, 4));
      assert (LengthBits(len) + rest)[..Extra(len - 3, 4)] == LengthBits(len);
    }
  }

  lemma LongestLength()
    ensures LengthBase(28) == 258 && LengthExtra(28) == 0
  {}

  lemma EmptyValue()
    ensures Value([]) == 0
  {}

  lemma DistanceReadsBack(d: nat, rest: BitSeq)
    requires 1 <= d <= 32768
    ensures DistanceSymbol(d) <= 29
    ensures var i := DistanceSymbol(d); var bits := DistanceBits(d) + rest;
            && |bits| >= DistanceExtra(i) && DistanceBase(i) + ReadInt(bits, DistanceExtra(i)) == d
            && bits[DistanceExtra(i)..] == rest
  {
    hide LsbBits, Value, Index, DistanceBase, DistanceExtra, Extra, Pow2;
    assert Pow2(13) == 8192 by {
      Pow2Of13();
    }
    IndexRange(d - 1, 2, 13);
    DistanceIndex(d - 1);
    ValueOfLow(d - 1, Extra(d - 1, 2));
    assert (DistanceBits(d) + rest)[..Extra(d - 1, 2)] == DistanceBits(d);
  }

  lemma Pow2Of13()
    ensures Pow2(13) == 8192
  {
    assert Pow2(8) == 256;
  }

  /** A match is read back after its length symbol. */
  lemma MatchReadsBack(dist: Lengths, len: nat, d: nat, rest: BitSeq)
    requires Describes(dist) && 3 <= len <= 258 && 1 <= d <= 32768 && Coded(dist, DistanceSymbol(d))
    ensures 257 <= LengthSymbol(len) <= 285
    ensures ReadMatch(LengthSymbol(len), Some(dist),
                      LengthBits(len) + (CodeBits(dist, DistanceSymbol(d)) + (DistanceBits(d) + rest)))
         == Some(Match(len, d, rest))
  {
    hide LengthSymbol, LengthBits, DistanceSymbol, DistanceBits, CodeBits, ReadInt, LengthBase, LengthExtra,
      DistanceBase, DistanceExtra, DecodeSymbol;
    var bits2 := DistanceBits(d) + rest;
    LengthReadsBack(len, CodeBits(dist, DistanceSymbol(d)) + bits2);
    SymbolReadsBack(dist, DistanceSymbol(d), bits2);
    DistanceReadsBack(d, rest);
  }

  /** What the code copies is the piece. */
  lemma CopyIsPiece(before: seq<byte>, len: nat, d: nat)
    requires ValidToken(Copy(len, d), |before|)
    ensures CopyMatch(before, d, len) == Piece(Copy(len, d), before)
  {
    hide Piece, CopyMatch, HistoryAt;
    forall k | 0 <= k < len
      ensures CopyMatch(before, d, len)[k] == Piece(Copy(len, d), before)[k]
    {
      MatchIsPeriodic(before, d, len, k);
      PieceAt(before, len, d, k);
    }
  }

  lemma PieceAt(before: seq<byte>, len: nat, d: nat, k: nat)
    requires ValidToken(Copy(len, d), |before|) && k < len
    ensures Piece(Copy(len, d), before)[k] == HistoryAt(before, d - k % d)
  {
    var r := k % d;
    assert 0 <= r < d;
    assert Piece(Copy(len, d), before)[k] == before[|before| - d + r];
  }

  lemma {:induction false} ExpandGrows(ts: seq<Token>, before: seq<byte>)
    requires ValidTokens(ts, |before|)
    ensures before <= Expand(ts, before)
    decreases |ts|
  {
    hide Piece;
    if ts != [] {
      ExpandGrows(ts[1..], before + Piece(ts[0], before));
    }
  }

  /** The bytes that some tokens add. */
  function Added(ts: seq<Token>, before: seq<byte>): seq<byte>
    requires ValidTokens(ts, |before|)
  {
    ExpandGrows(ts, before);
    Expand(ts, before)[|before|..]
  }

  lemma AddedFirst(t: Token, ts: seq<Token>, before: seq<byte>)
    requires ValidTokens([t] + ts, |before|)
    ensures ValidTokens(ts, |before + Piece(t, before)|)
    ensures Added([t] + ts, before) == Piece(t, before) + Added(ts, before + Piece(t, before))
    ensures Expand([t] + ts, before) == Expand(ts, before + Piece(t, before))
  {
    hide Piece;
    assert ([t] + ts)[1..] == ts && ([t] + ts)[0] == t;
    ExpandGrows(ts, before + Piece(t, before));
  }

  lemma LiteralStep(final: bool, lit: Lengths, dist: Option<Lengths>, b: byte, bits: BitSeq, before: seq<byte>)
    requires Describes(lit) && Coded(lit, b)
    ensures Compressed(final, lit, dist, CodeBits(lit, b) + bits, before)
         == Prepend([b], Compressed(final, lit, dist, bits, before + [b]))
  {
    hide CodeBits, DecodeSymbol;
    SymbolReadsBack(lit, b, bits);
  }

  lemma CopyStep(final: bool, lit: Lengths, dist: Lengths, len: nat, d: nat, bits: BitSeq, before: seq<byte>)
    requires Describes(lit) && Describes(dist) && ValidToken(Copy(len, d), |before|)
    requires TokenWritable(lit, Some(dist), Copy(len, d))
    ensures var piece := Piece(Copy(len, d), before);
            Compressed(final, lit, Some(dist), TokenBits(lit, Some(dist), Copy(len, d)) + bits, before)
            == Prepend(piece, Compressed(final, lit, Some(dist), bits, before + piece))
  {
    hide CodeBits, DecodeSymbol, LengthBits, DistanceBits, DistanceSymbol, LengthSymbol, ReadMatch, Piece, Describes;
    var tail := LengthBits(len) + (CodeBits(dist, DistanceSymbol(d)) + (DistanceBits(d) + bits));
    SymbolReadsBack(lit, LengthSymbol(len), tail);
    MatchReadsBack(dist, len, d, bits);
    CopyIsPiece(before, len, d);
    assert TokenBits(lit, Some(dist), Copy(len, d)) + bits == CodeBits(lit, LengthSymbol(len)) + tail;
  }

  lemma EndStep(final: bool, lit: Lengths, dist: Option<Lengths>, bits: BitSeq, before: seq<byte>)
    requires Describes(lit) && Coded(lit, 256)
    ensures Compressed(final, lit, dist, CodeBits(lit, 256) + bits, before) == EndBlock(final, bits, before)
  {
    hide CodeBits, DecodeSymbol, EndBlock;
    SymbolReadsBack(lit, 256, bits);
  }

  /** The tokens of a block are read back, under any prefix codes that have the symbols used. */
  lemma {:induction false} TokensReadBack(final: bool, lit: Lengths, dist: Option<Lengths>, ts: seq<Token>,
                                          rest: BitSeq, before: seq<byte>)
    requires Describes(lit) && (dist.Some? ==> Describes(dist.value))
    requires AllWritable(lit, dist, ts) && ValidTokens(ts, |before|)
    ensures Compressed(final, lit, dist, TokensBits(lit, dist, ts) + rest, before)
         == Prepend(Added(ts, before), EndBlock(final, rest, Expand(ts, before)))
    decreases |ts|
  {
    hide CodeBits, EndBlock, Compressed, Piece, TokenBits, Describes, TokenWritable, Expand;
    if ts == [] {
      EndStep(final, lit, dist, rest, before);
      NothingAdded(before);
      assert [] + EndBlock(final, rest, before).out == EndBlock(final, rest, before).out;
    } else {
      var t, others, piece := ts[0], ts[1..], Piece(ts[0], before);
      var tail := TokensBits(lit, dist, others) + rest;
      assert ts == [t] + others;
      AddedFirst(t, others, before);
      TokensReadBack(final, lit, dist, others, rest, before + piece);
      assert TokensBits(lit, dist, ts) + rest == TokenBits(lit, dist, t) + tail;
      TokenStep(final, lit, dist, t, tail, before);
      var last := EndBlock(final, rest, Expand(ts, before)).out;
      assert piece + (Added(others, before + piece) + last) == (piece + Added(others, before + piece)) + last;
    }
  }

  lemma NothingAdded(before: seq<byte>)
    ensures Added([], before) == [] && Expand([], before) == before
  {}

  lemma TokenStep(final: bool, lit: Lengths, dist: Option<Lengths>, t: Token, bits: BitSeq, before: seq<byte>)
    requires Describes(lit) && (dist.Some? ==> Describes(dist.value))
    requires TokenWritable(lit, dist, t) && ValidToken(t, |before|)
    ensures Compressed(final, lit, dist, TokenBits(lit, dist, t) + bits, before)
         == Prepend(Piece(t, before), Compressed(final, lit, dist, bits, before + Piece(t, before)))
  {
    hide CodeBits, Compressed, Describes;
    match t
    case Lit(b) => LiteralStep(final, lit, dist, b, bits, before);
    case Copy(len, d) => CopyStep(final, lit, dist.value, len, d, bits, before);
  }
}
