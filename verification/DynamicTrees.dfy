/** Building the literal/length and distance tries of a block. */
module DynamicTrees {
  import opened Options
  import opened Bits
  import opened HuffmanCode
  import opened HuffmanTree
  import opened BitReader
  import opened SymbolDecoder
  import opened InflateSpec

  const HUFF_MAX_NODES: nat := 8192
  const HUFF_CLEN_MAX_NODES: nat := 512

  const CL_ORDER: seq<nat> := [16, 17, 18, 0, 8, 7, 9, 6, 10, 5, 11, 4, 12, 3, 13, 2, 14, 1, 15]

  lemma OrderIsTransmissionPlace(i: nat)
    requires i < 19
    ensures CL_ORDER[i] < 19 && TransmissionPlace(CL_ORDER[i]) == i
    ensures forall s :: 0 <= s < 19 && TransmissionPlace(s) == i ==> s == CL_ORDER[i]
  {}

  /** The code lengths of the code length code, three bits each. */
  method ReadCodeLengthCode(gz: Reader, hclen: nat) returns (ok: bool, clen: array<nat>)
    requires gz.Valid() && hclen <= 19
    modifies gz, gz.inbuf
    ensures fresh(clen)
    ensures ok == (3 * hclen <= |old(gz.Bits())|)
    ensures ok ==> gz.Valid() && clen[..] == CodeLengthCode(old(gz.Bits()), hclen)
    ensures ok ==> gz.Bits() == old(gz.Bits())[3 * hclen..]
  {
    hide LsbBits, BytesBits, Value;
    clen := new nat[19](_ => 0);
    ghost var bits := gz.Bits();
    assert bits[0..] == bits;
    for i := 0 to hclen
      invariant gz.Valid() && 3 * i <= |bits| && gz.Bits() == bits[3 * i..]
      invariant forall s :: 0 <= s < 19 ==>
                  clen[s] == if TransmissionPlace(s) < i then ReadInt(bits[3 * TransmissionPlace(s)..], 3) else 0
    {
      var more, v := gz.ReadBits(3);
      if !more {
        return false, clen;
      }
      OrderIsTransmissionPlace(i);
      assert bits[3 * i..][3..] == bits[3 * (i + 1)..];
      clen[CL_ORDER[i]] := v;
    }
    ok := true;
  }

  /** Fills idx..idx+repeat with one value. */
  method FillRun(all: array<nat>, idx: nat, x: nat, repeat: nat)
    requires idx + repeat <= all.Length
    modifies all
    ensures all[..idx + repeat] == old(all[..idx]) + Repeat(x, repeat)
    ensures all[idx + repeat..] == old(all[idx + repeat..])
  {
    for j := 0 to repeat
      invariant all[..idx + j] == old(all[..idx]) + Repeat(x, j)
      invariant all[idx + j..] == old(all[idx + j..])
    {
      all[idx + j] := x;
      assert all[..idx + j + 1] == all[..idx + j] + [x];
      assert Repeat(x, j + 1) == Repeat(x, j) + [x];
      assert all[idx + j + 1..] == old(all[idx + j..])[1..];
    }
  }

  /** The run length and value that follow a repeat symbol 16, 17 or 18. */
  method ReadRepeat(gz: Reader, sym: nat, prev: Option<nat>, ghost acc: Lengths) returns (ok: bool, x: nat, repeat: nat)
    requires gz.Valid() && sym > 15
    requires prev == if acc == [] then None else Some(acc[|acc| - 1])
    modifies gz, gz.inbuf
    ensures ok == Run(sym, old(gz.Bits()), acc).Some?
    ensures ok ==> gz.Valid() && Run(sym, old(gz.Bits()), acc) == Some((Repeat(x, repeat), gz.Bits()))
  {
    hide LsbBits, BytesBits, Value;
    ok, x, repeat := false, 0, 0;
    var extra: nat;
    if sym == 16 {
      if prev.None? {
        return;
      }
      ok, extra := gz.ReadBits(2);
      x, repeat := prev.value, 3 + extra;
    } else if sym == 17 {
      ok, extra := gz.ReadBits(3);
      repeat := 3 + extra;
    } else if sym == 18 {
      ok, extra := gz.ReadBits(7);
      repeat := 11 + extra;
    }
  }

  /** The code lengths of both alphabets, run-length coded. */
  method ReadCodeLengths(gz: Reader, codeNodes: array<HuffNode>, ghost code: Lengths, total: nat)
    returns (ok: bool, all: array<nat>)
    requires gz.Valid() && Describes(code) && IsTrie(codeNodes[..], code) && total <= 320
    modifies gz, gz.inbuf
    ensures fresh(all) && all.Length == 320
    ensures ok == CodeLengths(code, old(gz.Bits()), total, []).Some?
    ensures ok ==> gz.Valid() && CodeLengths(code, old(gz.Bits()), total, []) == Some((all[..total], gz.Bits()))
  {
    hide LsbBits, BytesBits, Value, IsTrie, Describes, CodeBits, Run;
    all := new nat[320](_ => 0);
    var idx := 0;
    ghost var bits, trie := gz.Bits(), codeNodes[..];
    assert all[..0] == [];
    while idx < total
      invariant gz.Valid() && idx <= total && codeNodes[..] == trie
      invariant CodeLengths(code, bits, total, []) == CodeLengths(code, gz.Bits(), total, all[..idx])
      decreases total - idx
    {
      ghost var acc, before := all[..idx], gz.Bits();
      var decoded, sym := HuffDecodeSymbol(gz, codeNodes, code);
      if !decoded {
        return false, all;
      }
      var x, repeat := sym, 1;
      if sym > 15 {
        var prev := if idx == 0 then None else Some(all[idx - 1]);
        ok, x, repeat := ReadRepeat(gz, sym, prev, acc);
        if !ok {
          return;
        }
      } else {
        SingleRun(sym, gz.Bits(), acc);
      }
      RunAdvances(code, before, total, acc, sym);
      if idx + repeat > total {
        return false, all;
      }
      FillRun(all, idx, x, repeat);
      idx := idx + repeat;
    }
    ok := true;
  }

  lemma SingleRun(sym: nat, bits: BitSeq, acc: Lengths)
    requires sym <= 15
    ensures Run(sym, bits, acc) == Some((Repeat(sym, 1), bits))
  {
    assert [sym] == Repeat(sym, 1);
  }

  lemma RunAdvances(code: Lengths, bits: BitSeq, total: nat, acc: Lengths, sym: nat)
    requires |acc| < total && DecodeSymbol(code, bits) == Some(sym)
    ensures var run := Run(sym, bits[code[sym]..], acc);
            CodeLengths(code, bits, total, acc) ==
            if run.None? || |acc| + |run.value.0| > total then None
            else CodeLengths(code, run.value.1, total, acc + run.value.0)
    ensures Run(sym, bits[code[sym]..], acc).Some? ==> |Run(sym, bits[code[sym]..], acc).value.0| > 0
  {}

  /** The counts at the head of a dynamic block header. */
  method ReadCounts(gz: Reader) returns (ok: bool, hlit: nat, hdist: nat, hclen: nat)
    requires gz.Valid()
    modifies gz, gz.inbuf
    ensures ok == (14 <= |old(gz.Bits())|)
    ensures ok ==>
              && gz.Valid() && gz.Bits() == old(gz.Bits())[14..]
              && hlit == 257 + ReadInt(old(gz.Bits()), 5)
              && hdist == 1 + ReadInt(old(gz.Bits())[5..], 5)
              && hclen == 4 + ReadInt(old(gz.Bits())[10..], 4)
              && hdist <= 32 && hclen <= 19
  {
    hide LsbBits, BytesBits, Value;
    ghost var bits := gz.Bits();
    hlit, hdist, hclen := 0, 0, 0;
    var v: nat;
    ok, v := gz.ReadBits(5);
    if !ok {
      return;
    }
    hlit := 257 + v;
    ok, v := gz.ReadBits(5);
    if !ok {
      return;
    }
    hdist := 1 + v;
    assert bits[5..][5..] == bits[10..];
    ok, v := gz.ReadBits(4);
    if !ok {
      return;
    }
    hclen := 4 + v;
    assert bits[10..][4..] == bits[14..];
    assert Pow2(5) == 32 && Pow2(4) == 16;
  }

  /** One of the two final tables: count lengths from an offset, the rest of the alphabet absent. */
  method PadLengths(all: array<nat>, from: nat, count: nat, n: nat) returns (r: Lengths)
    requires from + count <= all.Length && count <= n
    ensures r == Padded(all[from..from + count], n)
  {
    var lengths := new nat[n](_ => 0);
    for i := 0 to count
      invariant forall j :: 0 <= j < i ==> lengths[j] == all[from + j]
      invariant forall j :: i <= j < n ==> lengths[j] == 0
    {
      lengths[i] := all[from + i];
    }
    r := lengths[..];
  }

  method AllZero(lengths: Lengths) returns (zero: bool)
    ensures zero <==> lengths == Repeat(0, |lengths|)
  {
    for i := 0 to |lengths|
      invariant forall j :: 0 <= j < i ==> lengths[j] == 0
    {
      if lengths[i] != 0 {
        assert Repeat(0, |lengths|)[i] == 0;
        return false;
      }
    }
    zero := true;
  }

  ghost predicate TriesHold(lit: Nodes, dist: Nodes, header: Header) {
    && IsTrie(lit, header.lit)
    && (header.dist.Some? ==> IsTrie(dist, header.dist.value))
  }

  /** Builds both tries from the transmitted code lengths. */
  method BuildTables(all: array<nat>, hlit: nat, hdist: nat, litNodes: array<HuffNode>, distNodes: array<HuffNode>,
                     ghost rest: BitSeq)
    returns (ok: bool, distPresent: bool)
    requires all.Length == 320 && 257 <= hlit <= 286 && hdist <= 32 && litNodes != distNodes
    requires litNodes.Length == HUFF_MAX_NODES && distNodes.Length == HUFF_MAX_NODES
    modifies litNodes, distNodes
    ensures ok == Tables(all[..hlit + hdist], hlit, rest).Some?
    ensures ok ==>
              var h := Tables(all[..hlit + hdist], hlit, rest).value;
              distPresent == h.dist.Some? && TriesHold(litNodes[..], distNodes[..], h)
  {
    hide IsTrie, Describes;
    distPresent := false;
    var litLengths := PadLengths(all, 0, hlit, 288);
    var distLengths := PadLengths(all, hlit, hdist, 32);
    assert all[..hlit + hdist][..hlit] == all[0..0 + hlit];
    assert all[..hlit + hdist][hlit..] == all[hlit..hlit + hdist];
    if litLengths[256] == 0 {
      return false, false;
    }
    ok := HuffBuild(litNodes, litLengths);
    if !ok {
      return;
    }
    ghost var litTrie := litNodes[..];
    var zero := AllZero(distLengths);
    if zero {
      return;
    }
    ok := HuffBuild(distNodes, distLengths);
    assert litNodes[..] == litTrie;
    distPresent := ok;
  }

  /** Reads a dynamic header and builds both tries; it fails exactly on a malformed header. */
  method BuildDynamicTrees(gz: Reader, litNodes: array<HuffNode>, distNodes: array<HuffNode>)
    returns (ok: bool, distPresent: bool)
    requires gz.Valid() && litNodes != distNodes
    requires litNodes.Length == HUFF_MAX_NODES && distNodes.Length == HUFF_MAX_NODES
    modifies gz, gz.inbuf, litNodes, distNodes
    ensures ok == DynamicHeader(old(gz.Bits())).Some?
    ensures ok ==>
              var h := DynamicHeader(old(gz.Bits())).value;
              && gz.Valid() && gz.Bits() == h.rest && distPresent == h.dist.Some?
              && TriesHold(litNodes[..], distNodes[..], h)
  {
    hide LsbBits, BytesBits, Value, IsTrie, Describes, CodeBits, Run, CodeLengths, CodeLengthCode;
    ghost var bits := gz.Bits();
    distPresent := false;
    var hlit, hdist, hclen;
    ok, hlit, hdist, hclen := ReadCounts(gz);
    if !ok || hlit > 286 || hdist > 32 {
      return false, false;
    }
    var clen;
    ok, clen := ReadCodeLengthCode(gz, hclen);
    if !ok {
      return;
    }
    assert bits[14..][3 * hclen..] == bits[14 + 3 * hclen..];
    ghost var code := CodeLengthCode(bits[14..], hclen);
    var codeNodes := new HuffNode[HUFF_CLEN_MAX_NODES](_ => EMPTY_NODE);
    assert clen[..] == code;
    ok := HuffBuild(codeNodes, clen[..]);
    if !ok {
      return;
    }
    var all;
    ok, all := ReadCodeLengths(gz, codeNodes, code, hlit + hdist);
    if !ok {
      return;
    }
    ok, distPresent := BuildTables(all, hlit, hdist, litNodes, distNodes, gz.Bits());
  }

  /** The tries of the fixed codes. */
  method BuildFixedTrees(litNodes: array<HuffNode>, distNodes: array<HuffNode>) returns (ok: bool)
    requires litNodes != distNodes
    requires litNodes.Length == HUFF_MAX_NODES && distNodes.Length == HUFF_MAX_NODES
    modifies litNodes, distNodes
    ensures ok && IsTrie(litNodes[..], FixedLiteral()) && IsTrie(distNodes[..], FixedDistance())
    ensures Describes(FixedLiteral()) && Describes(FixedDistance())
  {
    hide IsTrie;
    var litLengths := new nat[288](_ => 0);
    for i := 0 to 288
      invariant forall j :: 0 <= j < i ==> litLengths[j] == FixedLiteral()[j]
    {
      litLengths[i] := if i <= 143 then 8 else if i <= 255 then 9 else if i <= 279 then 7 else 8;
    }
    var distLengths := new nat[32](_ => 5);
    assert litLengths[..] == FixedLiteral();
    assert distLengths[..] == FixedDistance();
    FixedCodesDescribe();
    ok := HuffBuild(litNodes, litLengths[..]);
    ghost var litTrie := litNodes[..];
    var distOk := HuffBuild(distNodes, distLengths[..]);
    assert litNodes[..] == litTrie;
    ok := ok && distOk;
  }

  /** The Kraft sum of a run of symbols with one length. */
  lemma {:induction false} KraftRun(lengths: Lengths, lo: nat, hi: nat, len: nat)
    requires lo <= hi <= |lengths| && 0 < len <= MAX_BITS
    requires forall i :: lo <= i < hi ==> lengths[i] == len
    ensures KraftUpTo(lengths, hi, MAX_BITS) == KraftUpTo(lengths, lo, MAX_BITS) + (hi - lo) * Pow2(MAX_BITS - len)
    decreases hi
  {
    if lo < hi {
      KraftRun(lengths, lo, hi - 1, len);
      assert (hi - lo) * Pow2(MAX_BITS - len) == (hi - 1 - lo) * Pow2(MAX_BITS - len) + Pow2(MAX_BITS - len);
    }
  }

  /** The fixed codes are complete prefix codes. */
  lemma FixedCodesDescribe()
    ensures Describes(FixedLiteral()) && Kraft(FixedLiteral(), MAX_BITS) == Pow2(MAX_BITS)
    ensures Describes(FixedDistance()) && Kraft(FixedDistance(), MAX_BITS) == Pow2(MAX_BITS)
  {
    hide KraftUpTo, Pow2;
    FixedLiteralKraft();
    FixedDistanceKraft();
    assert Coded(FixedLiteral(), 0) && Coded(FixedDistance(), 0);
  }

  lemma FixedLiteralKraft()
    ensures Kraft(FixedLiteral(), MAX_BITS) == Pow2(MAX_BITS)
  {
    hide KraftUpTo, Pow2;
    var lit := FixedLiteral();
    KraftOfNone(lit);
    KraftRun(lit, 0, 144, 8);
    KraftRun(lit, 144, 256, 9);
    KraftRun(lit, 256, 280, 7);
    KraftRun(lit, 280, 288, 8);
    PowersOfTwo();
  }

  lemma FixedDistanceKraft()
    ensures Kraft(FixedDistance(), MAX_BITS) == Pow2(MAX_BITS)
  {
    hide KraftUpTo, Pow2;
    var dist := FixedDistance();
    KraftOfNone(dist);
    KraftRun(dist, 0, 32, 5);
    PowersOfTwo();
  }

  lemma KraftOfNone(lengths: Lengths)
    ensures KraftUpTo(lengths, 0, MAX_BITS) == 0
  {}

  lemma PowersOfTwo()
    ensures Pow2(15) == 32768 && Pow2(10) == 1024 && Pow2(7) == 128 && Pow2(6) == 64 && Pow2(8) == 256
  {
    assert Pow2(4) == 16;
  }
}
