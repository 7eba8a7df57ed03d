/** Decoding one Huffman symbol by walking the trie bit by bit. */
module SymbolDecoder {
  import opened Options
  import opened Bits
  import opened HuffmanCode
  import opened HuffmanTree
  import opened BitReader

  /** The bits read so far lead to a node, and no code ends on the way. */
  ghost predicate Undecided(nodes: Nodes, lengths: Lengths, bits: BitSeq)
    requires Linked(nodes)
  {
    && Walk(nodes, bits) >= 0
    && forall k :: 0 < k <= |bits| ==> !HasSymbol(nodes, bits[..k])
  }

  /** The code that starts a bit string ends at a node that carries its symbol. */
  lemma CodeEndsWithSymbol(nodes: Nodes, lengths: Lengths, bits: BitSeq, s: nat)
    requires IsTrie(nodes, lengths) && StartsWithCode(lengths, s, bits)
    ensures HasSymbol(nodes, bits[..lengths[s]])
  {
    hide CodeBits, Walk;
    assert LeadsTo(nodes, CodeBits(lengths, s), s);
    assert bits[..lengths[s]] == CodeBits(lengths, s);
  }

  /** A code that starts a bit string has not ended within an undecided prefix of it. */
  lemma CodeIsLonger(nodes: Nodes, lengths: Lengths, bits: BitSeq, d: nat, s: nat)
    requires IsTrie(nodes, lengths) && d <= |bits| && Undecided(nodes, lengths, bits[..d])
    requires StartsWithCode(lengths, s, bits)
    ensures lengths[s] > d
  {
    hide CodeBits, Walk;
    assert lengths[s] <= d ==> bits[..d][..lengths[s]] == bits[..lengths[s]];
    CodeEndsWithSymbol(nodes, lengths, bits, s);
  }

  /** The walk along a code never leaves the trie. */
  lemma {:induction false} WalkPrefix(nodes: Nodes, path: BitSeq, k: nat)
    requires Linked(nodes) && Walk(nodes, path) >= 0 && k <= |path|
    ensures Walk(nodes, path[..k]) >= 0
    decreases |path|
  {
    if k < |path| {
      WalkPrefix(nodes, path[..|path| - 1], k);
      assert path[..|path| - 1][..k] == path[..k];
    } else {
      assert path[..k] == path;
    }
  }

  lemma CodePathStays(nodes: Nodes, lengths: Lengths, bits: BitSeq, s: nat, k: nat)
    requires IsTrie(nodes, lengths) && StartsWithCode(lengths, s, bits) && k <= lengths[s]
    ensures Walk(nodes, bits[..k]) >= 0
  {
    hide CodeBits, Walk;
    assert LeadsTo(nodes, CodeBits(lengths, s), s);
    WalkPrefix(nodes, CodeBits(lengths, s), k);
    assert CodeBits(lengths, s)[..k] == bits[..k];
  }

  /** If the next bit leads nowhere, or there is none, or 15 bits have gone by, no code starts the bit string. */
  lemma NoCode(nodes: Nodes, lengths: Lengths, bits: BitSeq, d: nat)
    requires Describes(lengths) && IsTrie(nodes, lengths) && d <= |bits| && Undecided(nodes, lengths, bits[..d])
    requires d == |bits| || d == MAX_BITS || Walk(nodes, bits[..d + 1]) < 0
    ensures DecodeSymbol(lengths, bits).None?
  {
    hide CodeBits, Walk;
    if s: nat :| StartsWithCode(lengths, s, bits) {
      CodeIsLonger(nodes, lengths, bits, d, s);
      if d < |bits| && d < MAX_BITS {
        CodePathStays(nodes, lengths, bits, s, d + 1);
      }
    }
  }

  /** The next bit of the stream. */
  method NextBit(gz: Reader, ghost bits: BitSeq, ghost depth: nat) returns (more: bool, bit: bool)
    requires gz.Valid() && depth <= |bits| && gz.Bits() == bits[depth..]
    modifies gz, gz.inbuf
    ensures more == (depth < |bits|)
    ensures more ==> gz.Valid() && bit == bits[depth] && gz.Bits() == bits[depth + 1..]
  {
    hide BytesBits, LsbBits;
    bit := false;
    var b;
    more, b := gz.ReadBits(1);
    if more {
      OneBit(bits[depth..]);
      assert bits[depth..][1..] == bits[depth + 1..];
      bit := b == 1;
    }
  }

  /** The symbol whose code comes next in the stream; on success exactly that code is consumed. */
  method HuffDecodeSymbol(gz: Reader, nodes: array<HuffNode>, ghost lengths: Lengths) returns (ok: bool, sym: nat)
    requires gz.Valid() && Describes(lengths) && IsTrie(nodes[..], lengths)
    modifies gz, gz.inbuf
    ensures ok == DecodeSymbol(lengths, old(gz.Bits())).Some?
    ensures ok ==> gz.Valid() && DecodeSymbol(lengths, old(gz.Bits())) == Some(sym)
    ensures ok ==> gz.Bits() == old(gz.Bits())[lengths[sym]..]
  {
    hide CodeBits, Describes, LsbBits, BytesBits, Walk, IsTrie, DecodeSymbol;
    ghost var bits := gz.Bits();
    ghost var trie := nodes[..];
    TrieRoot(trie, lengths);
    var node: int := 0;
    var depth := 0;
    assert bits[..0] == [] && bits[0..] == bits;
    while depth < MAX_BITS
      invariant 0 <= depth <= MAX_BITS && depth <= |bits|
      invariant gz.Valid() && gz.Bits() == bits[depth..]
      invariant nodes[..] == trie
      invariant Undecided(trie, lengths, bits[..depth]) && node == Walk(trie, bits[..depth])
    {
      var more, bit := NextBit(gz, bits, depth);
      if !more {
        NoCode(trie, lengths, bits, depth);
        return false, 0;
      }
      assert bits[..depth + 1] == bits[..depth] + [bit];
      WalkSnoc(trie, bits[..depth], bit);
      node := nodes[node].Child(bit);
      if node < 0 {
        NoCode(trie, lengths, bits, depth);
        return false, 0;
      }
      depth := depth + 1;
      if nodes[node].sym >= 0 {
        sym := nodes[node].sym;
        SymbolIsDecoded(trie, lengths, bits, depth);
        ok := true;
        return;
      }
      StillUndecided(trie, lengths, bits, depth - 1);
    }
    NoCode(trie, lengths, bits, depth);
    return false, 0;
  }

  lemma TrieRoot(nodes: Nodes, lengths: Lengths)
    requires IsTrie(nodes, lengths)
    ensures Linked(nodes) && Walk(nodes, []) == 0
  {}

  lemma OneBit(bits: BitSeq)
    requires |bits| > 0
    ensures Value(bits[..1]) == BitOf(bits[0])
  {
    assert bits[..1][1..] == [];
  }

  lemma SymbolIsDecoded(nodes: Nodes, lengths: Lengths, bits: BitSeq, d: nat)
    requires Describes(lengths) && IsTrie(nodes, lengths) && d <= |bits|
    requires HasSymbol(nodes, bits[..d])
    ensures var s := nodes[Walk(nodes, bits[..d])].sym;
            DecodeSymbol(lengths, bits) == Some(s) && s < |lengths| && lengths[s] == d
  {
    hide Walk, Describes;
    var s := nodes[Walk(nodes, bits[..d])].sym;
    DecodeSymbolUnique(lengths, s, bits);
  }

  lemma StillUndecided(nodes: Nodes, lengths: Lengths, bits: BitSeq, d: nat)
    requires Linked(nodes) && d < |bits| && Undecided(nodes, lengths, bits[..d])
    requires Walk(nodes, bits[..d + 1]) >= 0 && !HasSymbol(nodes, bits[..d + 1])
    ensures Undecided(nodes, lengths, bits[..d + 1])
  {
    hide Walk;
    var longer := bits[..d + 1];
    forall k | 0 < k <= |longer|
      ensures !HasSymbol(nodes, longer[..k])
    {
      assert longer[..k] == if k <= d then bits[..d][..k] else longer;
    }
  }
}
