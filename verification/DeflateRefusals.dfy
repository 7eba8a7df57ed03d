/** What the inflate specification refuses, on streams written bit by bit. */
module DeflateRefusals {
  import opened Numbers
  import opened Options
  import opened Bits
  import opened HuffmanCode
  import opened InflateSpec
  import opened DeflateWriter
  import opened DeflateStream

  /** The fourth kind of block is reserved. */
  lemma ReservedKind(last: bool, rest: BitSeq, before: seq<byte>)
    ensures Blocks([last, true, true] + rest, before) == MALFORMED
  {
    hide Stored, Compressed, ReadInt;
    KindReadsBack(last, true, true, rest);
  }

  // ---------------------------------------------------------------- stored blocks

  /** Two numbers of n bits are complements exactly if all their bits differ. */
  lemma {:induction false} Complements(a: BitSeq, b: BitSeq)
    requires |a| == |b|
    ensures Value(a) + Value(b) == Pow2(|a|) - 1 <==> forall i :: 0 <= i < |a| ==> a[i] != b[i]
    decreases |a|
  {
    if a != [] {
      Complements(a[1..], b[1..]);
      assert forall i :: 0 < i < |a| ==> a[i] == a[1..][i - 1] && b[i] == b[1..][i - 1];
      if forall i :: 0 <= i < |a| ==> a[i] != b[i] {
        assert forall i :: 0 <= i < |a[1..]| ==> a[1..][i] == a[i + 1] && b[1..][i] == b[i + 1];
      }
    }
  }

  /** A stored block is refused exactly if its length is cut off or its bits and those of the copy are not all
      different, or its data is cut off; the end of the block is whatever follows. */
  lemma StoredExactly(final: bool, bits: BitSeq, before: seq<byte>)
    ensures var aligned := bits[|bits| % 8..];
            if |aligned| < 32 || !(forall i :: 0 <= i < 16 ==> aligned[i] != aligned[16 + i])
            then Stored(final, bits, before) == MALFORMED
            else Stored(final, bits, before) == StoredBytes(final, Value(aligned[..16]), aligned[32..], before)
  {
    hide StoredBytes, Value, Pow2;
    var aligned := bits[|bits| % 8..];
    if |aligned| >= 32 {
      var a, b := aligned[..16], aligned[16..][..16];
      Complements(a, b);
      Pow2Of16();
      assert forall i :: 0 <= i < 16 ==> a[i] == aligned[i] && b[i] == aligned[16 + i];
    }
  }

  // ---------------------------------------------------------------- code lengths

  /** Nothing can be repeated at the start. */
  lemma FirstRepeat(code: Lengths, bits: BitSeq, total: nat)
    requires Describes(code) && Coded(code, 16) && total > 0
    ensures CodeLengths(code, CodeBits(code, 16) + bits, total, []) == None
  {
    hide CodeBits, DecodeSymbol;
    SymbolReadsBack(code, 16, bits);
  }

  lemma OneTooMany(code: Lengths, w: Written, before: Lengths, total: nat, bits: BitSeq)
    requires Describes(code) && Coded(code, SymbolFor(w)) && ValidWritten(w, before == [])
    requires |before| < total < |before| + |Stands(w, before)|
    ensures CodeLengths(code, CodeBits(code, SymbolFor(w)) + (CountBits(w) + bits), total, before) == None
  {
    hide CodeBits, CountBits, Run, DecodeSymbol;
    SymbolReadsBack(code, SymbolFor(w), CountBits(w) + bits);
    RunReadsBack(w, before, bits);
  }

  /** Runs that pass over the total without meeting it are refused. */
  lemma {:induction false} Overrun(code: Lengths, ws: seq<Written>, k: nat, total: nat, rest: BitSeq)
    requires Describes(code) && ValidRuns(ws) && Writable(code, ws) && k <= |ws|
    requires |Meaning(ws[..k])| < total < |Meaning(ws)|
    requires forall j :: k <= j <= |ws| ==> |Meaning(ws[..j])| != total
    ensures CodeLengths(code, RunBits(code, ws[k..]) + rest, total, Meaning(ws[..k])) == None
    decreases |ws| - k
  {
    hide Describes, Meaning, CodeBits, CountBits, Stands, CodeLengths;
    assert ws[..|ws|] == ws;
    if k < |ws| {
      var w, before, tail := ws[k], Meaning(ws[..k]), RunBits(code, ws[k + 1..]) + rest;
      MeaningNext(ws, k);
      assert ws[k..][0] == w && ws[k..][1..] == ws[k + 1..];
      assert RunBits(code, ws[k..]) + rest == CodeBits(code, SymbolFor(w)) + (CountBits(w) + tail);
      assert ValidWritten(w, before == []) by {
        if k == 0 {
          MeaningOfNone(ws);
        } else {
          MeaningGrows(ws, k);
        }
      }
      if |before| + |Stands(w, before)| > total {
        OneTooMany(code, w, before, total, tail);
      } else {
        LengthsStep(code, w, before, total, tail);
        assert |Meaning(ws[..k + 1])| != total;
        Overrun(code, ws, k + 1, total, rest);
      }
    }
  }

  /** The first count states more than 286 literal and length codes. */
  lemma TooManyCodes(a: nat, rest: BitSeq)
    requires 30 <= a < 32
    ensures DynamicHeader(LsbBits(a, 5) + rest) == None
  {
    hide CodeLengths, CodeLengthCode, Tables, Value, LsbBits;
    SmallPowers();
    ReadsBack(a, 5, rest);
  }

  /** All of a header but the conditions on the two codes it describes. */
  ghost predicate WellWritten(h: Dynamic) {
    && 257 <= |h.lit| <= 286 && 1 <= |h.dist| <= 32
    && |h.code| == 19 && Describes(h.code) && 4 <= h.sent <= 19
    && (forall s :: 0 <= s < 19 ==> h.code[s] <= 7)
    && (forall i :: h.sent <= i < 19 ==> h.code[SENT_ORDER[i]] == 0)
    && ValidRuns(h.runs) && Writable(h.code, h.runs) && Meaning(h.runs) == h.lit + h.dist
  }

  /** A header is accepted exactly if a block can end, the literal code is a prefix code, and so is the distance code
      unless it is empty. */
  lemma HeaderExactly(h: Dynamic, rest: BitSeq)
    requires WellWritten(h)
    ensures DynamicHeader(HeaderBits(h) + rest).Some? <==>
      h.lit[256] > 0 && Describes(Filled(h.lit, 288)) && (NoCodes(h.dist) || Describes(Filled(h.dist, 32)))
  {
    hide LsbBits, Describes, Value, Meaning, RunBits, SentBits, CodeLengths, CodeLengthCode, ReadInt, Padded, Filled,
      NoCodes;
    var tail := RunBits(h.code, h.runs) + rest;
    var after := SentBits(h.code, h.sent) + tail;
    CountsReadBack(|h.lit| - 257, |h.dist| - 1, h.sent - 4, after);
    var bits := LsbBits(|h.lit| - 257, 5) + LsbBits(|h.dist| - 1, 5) + LsbBits(h.sent - 4, 4) + after;
    assert HeaderBits(h) + rest == bits;
    CodeReadsBack(h.code, h.sent, tail);
    assert bits[14 + 3 * h.sent..] == after[3 * h.sent..] == tail;
    LengthsReadBack(h.code, h.runs, rest);
    var all := h.lit + h.dist;
    assert all[..|h.lit|] == h.lit && all[|h.lit|..] == h.dist;
    ZerosRepeat(h.lit, 288);
    ZerosRepeat(h.dist, 32);
    FilledKeeps(h.lit, 288, 256);
  }

  // ---------------------------------------------------------------- symbols

  /** The two literal and length symbols that have no meaning. */
  lemma NoSuchLength(final: bool, lit: Lengths, dist: Option<Lengths>, s: nat, bits: BitSeq, before: seq<byte>)
    requires Describes(lit) && Coded(lit, s) && s >= 286
    ensures Compressed(final, lit, dist, CodeBits(lit, s) + bits, before) == MALFORMED
  {
    hide CodeBits, DecodeSymbol;
    SymbolReadsBack(lit, s, bits);
  }

  /** The distance symbols that have no meaning, and a copy in a block without distance codes. */
  lemma NoSuchDistance(dist: Lengths, len: nat, s: nat, bits: BitSeq)
    requires Describes(dist) && Coded(dist, s) && s >= 30 && 3 <= len <= 258
    ensures 257 <= LengthSymbol(len) <= 285
    ensures ReadMatch(LengthSymbol(len), Some(dist), LengthBits(len) + (CodeBits(dist, s) + bits)) == None
    ensures ReadMatch(LengthSymbol(len), None, LengthBits(len) + bits) == None
  {
    hide LengthSymbol, LengthBits, CodeBits, ReadInt, LengthBase, LengthExtra, DecodeSymbol;
    LengthReadsBack(len, CodeBits(dist, s) + bits);
    LengthReadsBack(len, bits);
    SymbolReadsBack(dist, s, bits);
  }
}
