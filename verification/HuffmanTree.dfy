/** The array trie that the extractor decodes Huffman symbols with. */
module HuffmanTree {
  import opened Bits
  import opened HuffmanCode

  /** A node's children are indices into the same array, -1 when absent; sym is -1 on inner nodes. */
  datatype HuffNode = HuffNode(left: int, right: int, sym: int) {
    function Child(bit: bool): int {
      if bit then right else left
    }

    function WithChild(bit: bool, child: int): HuffNode {
      if bit then this.(right := child) else this.(left := child)
    }
  }

  const EMPTY_NODE := HuffNode(-1, -1, -1)

  type Nodes = seq<HuffNode>

  /** Every child index is -1 or inside the array. */
  predicate Linked(nodes: Nodes) {
    |nodes| > 0 && forall n :: 0 <= n < |nodes| ==>
                     -1 <= nodes[n].left < |nodes| && -1 <= nodes[n].right < |nodes|
  }

  /** The node reached from the root by following the bits, or -1. */
  function Walk(nodes: Nodes, path: BitSeq): (n: int)
    requires Linked(nodes)
    ensures -1 <= n < |nodes|
    decreases |path|
  {
    if path == [] then 0
    else
      var parent := Walk(nodes, path[..|path| - 1]);
      if parent < 0 then -1 else nodes[parent].Child(path[|path| - 1])
  }

  predicate LeadsTo(nodes: Nodes, path: BitSeq, s: int)
    requires Linked(nodes)
  {
    Walk(nodes, path) >= 0 && nodes[Walk(nodes, path)].sym == s
  }

  predicate Reaches(nodes: Nodes, path: BitSeq)
    requires Linked(nodes)
  {
    Walk(nodes, path) >= 0
  }

  predicate HasSymbol(nodes: Nodes, path: BitSeq)
    requires Linked(nodes)
  {
    Walk(nodes, path) >= 0 && nodes[Walk(nodes, path)].sym >= 0
  }

  /** The trie is exactly the canonical code: the code of each symbol leads to the node carrying
      it, nodes reached otherwise carry none, and there is no path outside the codes. */
  ghost predicate IsTrie(nodes: Nodes, lengths: Lengths) {
    && Linked(nodes)
    && (forall s :: Coded(lengths, s) ==>
                      LeadsTo(nodes, CodeBits(lengths, s), s))
    && (forall p :: HasSymbol(nodes, p) ==>
                      var s := nodes[Walk(nodes, p)].sym; Coded(lengths, s) && CodeBits(lengths, s) == p)
    && (forall p :: Reaches(nodes, p) ==> exists s :: Coded(lengths, s) && p <= CodeBits(lengths, s))
  }

  /** Interior nodes carry no symbol. */
  lemma InteriorHasNoSymbol(nodes: Nodes, lengths: Lengths, path: BitSeq, bit: bool)
    requires Describes(lengths) && IsTrie(nodes, lengths)
    requires Walk(nodes, path) >= 0 && nodes[Walk(nodes, path)].Child(bit) >= 0
    ensures nodes[Walk(nodes, path)].sym < 0
  {
    hide CodeBits, Describes;
    if HasSymbol(nodes, path) {
      var longer := path + [bit];
      assert longer[..|longer| - 1] == path;
      assert Reaches(nodes, longer);
      var t :| Coded(lengths, t) && longer <= CodeBits(lengths, t);
      var s := nodes[Walk(nodes, path)].sym;
      assert CodeBits(lengths, s) <= longer <= CodeBits(lengths, t);
      PrefixFree(lengths, s, t);
      assert false;
    }
  }

  // ---------------------------------------------------------------- insertion, on values

  /** new has all the edges of nodes. */
  ghost predicate Extends(nodes: Nodes, new_: Nodes) {
    && Linked(nodes) && Linked(new_) && |nodes| == |new_|
    && forall n, b :: 0 <= n < |nodes| && nodes[n].Child(b) >= 0 ==> new_[n].Child(b) == nodes[n].Child(b)
  }

  lemma {:induction false} WalkExtends(nodes: Nodes, new_: Nodes, path: BitSeq)
    requires Extends(nodes, new_) && Walk(nodes, path) >= 0
    ensures Walk(new_, path) == Walk(nodes, path)
    decreases |path|
  {
    if path != [] {
      WalkExtends(nodes, new_, path[..|path| - 1]);
    }
  }

  /** While symbols are inserted, paths[n] is the bit string that leads to node n. */
  ghost predicate Labelled(nodes: Nodes, paths: seq<BitSeq>) {
    && Linked(nodes) && 0 < |paths| <= |nodes| && paths[0] == []
    && (forall n, b :: 0 <= n < |paths| && nodes[n].Child(b) >= 0 ==>
                         0 < nodes[n].Child(b) < |paths| && paths[nodes[n].Child(b)] == paths[n] + [b])
    && (forall n :: |paths| <= n < |nodes| ==> nodes[n] == EMPTY_NODE)
  }

  lemma {:induction false} WalkLabel(nodes: Nodes, paths: seq<BitSeq>, path: BitSeq)
    requires Labelled(nodes, paths) && Walk(nodes, path) >= 0
    ensures Walk(nodes, path) < |paths| && paths[Walk(nodes, path)] == path
    decreases |path|
  {
    if path != [] {
      var parent := path[..|path| - 1];
      WalkLabel(nodes, paths, parent);
      assert path == parent + [path[|path| - 1]];
    }
  }

  /** The first k symbols have been inserted, and nothing else. */
  ghost predicate Inserted(nodes: Nodes, paths: seq<BitSeq>, lengths: Lengths, k: nat) {
    && k <= |lengths| && Linked(nodes) && Labelled(nodes, paths)
    && (forall s :: 0 <= s < k && Coded(lengths, s) ==>
                      LeadsTo(nodes, CodeBits(lengths, s), s))
    && SymbolsLabelled(nodes, paths, lengths, k)
  }

  ghost predicate SymbolsLabelled(nodes: Nodes, paths: seq<BitSeq>, lengths: Lengths, k: nat)
    requires k <= |lengths| && |paths| <= |nodes|
  {
    forall n :: 0 <= n < |paths| && nodes[n].sym >= 0 ==>
                  nodes[n].sym < k && Coded(lengths, nodes[n].sym) && paths[n] == CodeBits(lengths, nodes[n].sym)
  }

  /** Every node but the root lies on the way to one of the first k symbols. */
  ghost predicate OnTheWay(paths: seq<BitSeq>, lengths: Lengths, k: nat)
    requires k <= |lengths|
  {
    forall n :: 0 < n < |paths| ==> PathToSymbol(paths[n], lengths, k)
  }

  ghost predicate PathToSymbol(path: BitSeq, lengths: Lengths, k: nat)
    requires k <= |lengths|
  {
    exists s :: 0 <= s < k && Coded(lengths, s) && path <= CodeBits(lengths, s)
  }

  lemma InsertedIsTrie(nodes: Nodes, paths: seq<BitSeq>, lengths: Lengths)
    requires Inserted(nodes, paths, lengths, |lengths|) && OnTheWay(paths, lengths, |lengths|)
    requires exists s :: Coded(lengths, s)
    ensures IsTrie(nodes, lengths)
  {
    forall p | HasSymbol(nodes, p)
      ensures var s := nodes[Walk(nodes, p)].sym; Coded(lengths, s) && CodeBits(lengths, s) == p
    {
      WalkLabel(nodes, paths, p);
    }
    forall p | Reaches(nodes, p)
      ensures exists s :: Coded(lengths, s) && p <= CodeBits(lengths, s)
    {
      WalkLabel(nodes, paths, p);
      if Walk(nodes, p) == 0 {
        var s :| Coded(lengths, s);
        assert p <= CodeBits(lengths, s);
      } else {
        assert PathToSymbol(paths[Walk(nodes, p)], lengths, |lengths|);
      }
    }
  }

  /** Hanging a fresh node below an existing one keeps the labelling and every walk. */
  lemma AddChild(nodes: Nodes, paths: seq<BitSeq>, node: nat, bit: bool, new_: Nodes)
    requires Labelled(nodes, paths) && node < |paths| < |nodes|
    requires nodes[node].Child(bit) < 0
    requires new_ == nodes[node := nodes[node].WithChild(bit, |paths|)]
    ensures Labelled(new_, paths + [paths[node] + [bit]]) && Extends(nodes, new_)
  {
    var labels := paths + [paths[node] + [bit]];
    forall n, b | 0 <= n < |labels| && new_[n].Child(b) >= 0
      ensures 0 < new_[n].Child(b) < |labels| && labels[new_[n].Child(b)] == labels[n] + [b]
    {
      if n < |paths| && (n != node || b != bit) {
        assert new_[n].Child(b) == nodes[n].Child(b);
      }
    }
  }

  lemma WalkSnoc(nodes: Nodes, path: BitSeq, bit: bool)
    requires Linked(nodes) && Walk(nodes, path) >= 0
    ensures Walk(nodes, path + [bit]) == nodes[Walk(nodes, path)].Child(bit)
  {
    var longer := path + [bit];
    assert longer[..|longer| - 1] == path;
  }

  // ---------------------------------------------------------------- the builder

  method ReverseBits(v: nat, nbits: nat) returns (r: nat)
    requires v < Pow2(nbits) && nbits <= 16
    ensures r < Pow2(nbits) && LsbBits(r, nbits) == MsbBits(v, nbits)
  {
    hide MsbBits, LsbBits, Pow2;
    r := 0;
    var w: nat := v;
    var i := 0;
    NoBitsReversed(w, r);
    while i < nbits
      invariant 0 <= i <= nbits
      invariant w < Pow2(nbits - i) && r < Pow2(i)
      invariant MsbBits(v, nbits) == MsbBits(w, nbits - i) + LsbBits(r, i)
    {
      ReverseStep(w, nbits - i, r, i);
      r := (2 * r + w % 2) % 65536;
      w := w / 2;
      i := i + 1;
    }
    NoBitsReversed(w, r);
  }

  lemma NoBitsReversed(w: nat, r: nat)
    ensures MsbBits(w, 0) == [] && LsbBits(r, 0) == [] && Pow2(0) == 1
  {}

  /** Moving the lowest bit of w to the bottom of r; 16 bits are enough. */
  lemma ReverseStep(w: nat, m: nat, r: nat, i: nat)
    requires m > 0 && m + i <= 16 && w < Pow2(m) && r < Pow2(i)
    ensures 2 * r + w % 2 < 65536 && 2 * r + w % 2 < Pow2(i + 1) && w / 2 < Pow2(m - 1)
    ensures MsbBits(w, m) + LsbBits(r, i) == MsbBits(w / 2, m - 1) + LsbBits(2 * r + w % 2, i + 1)
  {
    Pow2Monotone(i + 1, 16);
    Pow2Of16();
    var s := 2 * r + w % 2;
    assert s / 2 == r && s % 2 == w % 2;
    assert LsbBits(s, i + 1) == [w % 2 == 1] + LsbBits(r, i);
  }

  lemma Pow2Of16()
    ensures Pow2(15) == 32768 && Pow2(16) == 65536
  {
    assert Pow2(4) == 16;
    assert Pow2(8) == 256;
    assert Pow2(12) == 4096;
  }

  method HuffReset(nodes: array<HuffNode>)
    modifies nodes
    ensures forall n :: 0 <= n < nodes.Length ==> nodes[n] == EMPTY_NODE
  {
    for i := 0 to nodes.Length
      invariant forall n :: 0 <= n < i ==> nodes[n] == EMPTY_NODE
    {
      nodes[i] := EMPTY_NODE;
    }
  }

  /** new_ arises from nodes by creating nodes on the way to code. */
  ghost predicate Grown(nodes: Nodes, paths: seq<BitSeq>, new_: Nodes, newPaths: seq<BitSeq>, code: BitSeq) {
    && Extends(nodes, new_) && paths <= newPaths
    && (forall n :: |paths| <= n < |newPaths| ==> newPaths[n] <= code)
    && (forall n :: 0 <= n < |nodes| ==> new_[n].sym == nodes[n].sym)
  }

  lemma GrownReflexive(nodes: Nodes, paths: seq<BitSeq>, code: BitSeq)
    requires Labelled(nodes, paths)
    ensures Grown(nodes, paths, nodes, paths, code) && Walk(nodes, []) == 0
  {}

  lemma GrownTransitive(a: Nodes, pa: seq<BitSeq>, b: Nodes, pb: seq<BitSeq>, c: Nodes, pc: seq<BitSeq>, code: BitSeq)
    requires Grown(a, pa, b, pb, code) && Grown(b, pb, c, pc, code)
    ensures Grown(a, pa, c, pc, code)
  {}

  /** The child of a node along the next bit of a code, created if it is missing. */
  method ChildOrNew(nodes: array<HuffNode>, nodeCount: nat, node: nat, bit: bool,
                    ghost paths: seq<BitSeq>, ghost code: BitSeq, ghost depth: nat)
    returns (child: int, newCount: nat, ghost newPaths: seq<BitSeq>)
    requires Labelled(nodes[..], paths) && |paths| == nodeCount
    requires depth < |code| && code[depth] == bit && Walk(nodes[..], code[..depth]) == node
    modifies nodes
    ensures nodeCount < nodes.Length ==> child >= 0
    ensures child >= 0 ==>
              && Linked(nodes[..]) && Labelled(nodes[..], newPaths) && |newPaths| == newCount <= nodeCount + 1
              && Walk(nodes[..], code[..depth + 1]) == child
              && Grown(old(nodes[..]), paths, nodes[..], newPaths, code)
  {
    hide Walk;
    newCount, newPaths := nodeCount, paths;
    ghost var prefix := code[..depth];
    assert code[..depth + 1] == prefix + [bit];
    WalkLabel(nodes[..], paths, prefix);
    if nodes[node].Child(bit) < 0 {
      if nodeCount >= nodes.Length {
        child := -1;
        return;
      }
      ghost var before := nodes[..];
      nodes[node] := nodes[node].WithChild(bit, nodeCount);
      AddChild(before, paths, node, bit, nodes[..]);
      WalkExtends(before, nodes[..], prefix);
      newPaths := paths + [prefix + [bit]];
      newCount := nodeCount + 1;
    }
    WalkSnoc(nodes[..], prefix, bit);
    child := nodes[node].Child(bit);
  }

  /** Follow a code from the root, creating the missing nodes; rev holds the code with its first
      bit least significant. The result is the node at the end of the code. */
  method InsertPath(nodes: array<HuffNode>, nodeCount: nat, rev: nat, len: nat,
                    ghost paths: seq<BitSeq>, ghost code: BitSeq)
    returns (ok: bool, newCount: nat, node: int, ghost newPaths: seq<BitSeq>)
    requires Linked(nodes[..]) && Labelled(nodes[..], paths) && |paths| == nodeCount
    requires code == LsbBits(rev, len)
    modifies nodes
    ensures nodeCount + len <= nodes.Length ==> ok
    ensures ok ==> Linked(nodes[..]) && Labelled(nodes[..], newPaths) && |newPaths| == newCount <= nodeCount + len
    ensures ok ==> Grown(old(nodes[..]), paths, nodes[..], newPaths, code) && Walk(nodes[..], code) == node >= 0
  {
    hide Labelled, Grown, Walk, LsbBits, BitAt;
    node, newCount, newPaths, ok := 0, nodeCount, paths, true;
    var depth := 0;
    assert code[..len] == code && code[..0] == [];
    GrownReflexive(nodes[..], paths, code);
    while depth < len
      invariant Linked(nodes[..]) && Labelled(nodes[..], newPaths)
      invariant 0 <= depth <= len && |newPaths| == newCount <= nodeCount + depth
      invariant Walk(nodes[..], code[..depth]) == node >= 0
      invariant Grown(old(nodes[..]), paths, nodes[..], newPaths, code)
    {
      var bit := BitAt(rev, depth);
      LsbBitsAt(rev, len, depth);
      ghost var before, labels := nodes[..], newPaths;
      node, newCount, newPaths := ChildOrNew(nodes, newCount, node, bit, newPaths, code, depth);
      if node < 0 {
        ok := false;
        return;
      }
      GrownTransitive(old(nodes[..]), paths, before, labels, nodes[..], newPaths, code);
      depth := depth + 1;
    }
  }

  /** The node at the end of the next code is free: no other code ends there. */
  lemma LeafIsFree(nodes: Nodes, paths: seq<BitSeq>, mid: Nodes, newPaths: seq<BitSeq>, lengths: Lengths, k: nat)
    requires Describes(lengths) && Inserted(nodes, paths, lengths, k) && Coded(lengths, k)
    requires Labelled(mid, newPaths) && Grown(nodes, paths, mid, newPaths, CodeBits(lengths, k))
    requires Walk(mid, CodeBits(lengths, k)) >= 0
    ensures SymbolsLabelled(mid, newPaths, lengths, k)
    ensures mid[Walk(mid, CodeBits(lengths, k))].sym < 0
  {
    var node := Walk(mid, CodeBits(lengths, k));
    WalkLabel(mid, newPaths, CodeBits(lengths, k));
    if mid[node].sym >= 0 {
      PrefixFree(lengths, mid[node].sym, k);
    }
  }

  /** Setting the symbol of the free leaf completes the insertion of symbol k. */
  lemma InsertedStep(nodes: Nodes, paths: seq<BitSeq>, mid: Nodes, newPaths: seq<BitSeq>, lengths: Lengths, k: nat,
                     new_: Nodes)
    requires Describes(lengths) && Inserted(nodes, paths, lengths, k) && Coded(lengths, k)
    requires Labelled(mid, newPaths) && Grown(nodes, paths, mid, newPaths, CodeBits(lengths, k))
    requires Walk(mid, CodeBits(lengths, k)) >= 0
    requires var node := Walk(mid, CodeBits(lengths, k)); new_ == mid[node := mid[node].(sym := k)]
    ensures Inserted(new_, newPaths, lengths, k + 1)
  {
    hide CodeBits, Describes, Walk, Labelled, SymbolsLabelled;
    var code := CodeBits(lengths, k);
    LeafIsFree(nodes, paths, mid, newPaths, lengths, k);
    SetSymbol(mid, newPaths, lengths, k, code, new_);
    forall s | 0 <= s < k && Coded(lengths, s)
      ensures LeadsTo(new_, CodeBits(lengths, s), s)
    {
      StillLeadsTo(nodes, paths, mid, newPaths, new_, code, CodeBits(lengths, s), k, s);
    }
  }

  lemma SetSymbol(mid: Nodes, paths: seq<BitSeq>, lengths: Lengths, k: nat, code: BitSeq, new_: Nodes)
    requires Labelled(mid, paths) && Coded(lengths, k) && code == CodeBits(lengths, k)
    requires SymbolsLabelled(mid, paths, lengths, k) && Walk(mid, code) >= 0
    requires new_ == mid[Walk(mid, code) := mid[Walk(mid, code)].(sym := k)]
    ensures Linked(new_) && Labelled(new_, paths) && SymbolsLabelled(new_, paths, lengths, k + 1)
    ensures LeadsTo(new_, code, k)
  {
    hide CodeBits, Walk;
    WalkLabel(mid, paths, code);
    WalkExtends(mid, new_, code);
  }

  lemma StillLeadsTo(nodes: Nodes, paths: seq<BitSeq>, mid: Nodes, newPaths: seq<BitSeq>, new_: Nodes,
                     code: BitSeq, path: BitSeq, k: nat, s: nat)
    requires Linked(nodes) && LeadsTo(nodes, path, s) && s != k
    requires Grown(nodes, paths, mid, newPaths, code) && Walk(mid, code) >= 0 && mid[Walk(mid, code)].sym < 0
    requires new_ == mid[Walk(mid, code) := mid[Walk(mid, code)].(sym := k)]
    ensures Linked(new_) && LeadsTo(new_, path, s)
  {
    WalkExtends(nodes, mid, path);
    WalkExtends(mid, new_, path);
  }

  lemma NothingInserted(nodes: Nodes, paths: seq<BitSeq>, lengths: Lengths)
    requires |nodes| > 0 && paths == [[]] && forall n :: 0 <= n < |nodes| ==> nodes[n] == EMPTY_NODE
    ensures Inserted(nodes, paths, lengths, 0) && OnTheWay(paths, lengths, 0)
  {}

  lemma OnTheWayStep(paths: seq<BitSeq>, newPaths: seq<BitSeq>, lengths: Lengths, k: nat)
    requires k < |lengths| && OnTheWay(paths, lengths, k) && paths <= newPaths
    requires newPaths == paths || Coded(lengths, k)
    requires forall n :: |paths| <= n < |newPaths| ==> newPaths[n] <= CodeBits(lengths, k)
    ensures OnTheWay(newPaths, lengths, k + 1)
  {
    forall n | 0 < n < |newPaths|
      ensures PathToSymbol(newPaths[n], lengths, k + 1)
    {
      if n < |paths| {
        assert PathToSymbol(paths[n], lengths, k);
      }
    }
  }

  /** How many codes there are of each length, or an error for a length over 15. */
  method CountLengths(lengths: Lengths) returns (ok: bool, blCount: array<nat>, numCodes: nat)
    ensures fresh(blCount) && blCount.Length == MAX_BITS + 1
    ensures ok <==> forall s :: 0 <= s < |lengths| ==> lengths[s] <= MAX_BITS
    ensures ok ==> forall len :: 0 <= len <= MAX_BITS ==> blCount[len] == Count(lengths, len)
    ensures ok ==> (numCodes == 0 <==> !exists s :: Coded(lengths, s))
  {
    blCount, numCodes := new nat[MAX_BITS + 1](_ => 0), 0;
    for sym := 0 to |lengths|
      invariant forall s :: 0 <= s < sym ==> lengths[s] <= MAX_BITS
      invariant forall len :: 0 <= len <= MAX_BITS ==> blCount[len] == CountUpTo(lengths, sym, len)
      invariant numCodes == 0 <==> !exists s :: s < sym && Coded(lengths, s)
    {
      var len := lengths[sym];
      if len > MAX_BITS {
        ok := false;
        return;
      }
      if len != 0 {
        blCount[len] := blCount[len] + 1;
        numCodes := numCodes + 1;
        assert Coded(lengths, sym);
      }
    }
    ok := true;
  }

  /** The over-subscription test: subtract the codes of each length from those available. */
  method Oversubscribed(lengths: Lengths, blCount: array<nat>) returns (over: bool)
    requires blCount.Length == MAX_BITS + 1
    requires forall len :: 0 <= len <= MAX_BITS ==> blCount[len] == Count(lengths, len)
    ensures over <==> Kraft(lengths, MAX_BITS) > Pow2(MAX_BITS)
  {
    var left: int := 1;
    var bits := 1;
    CountZero(lengths, |lengths|);
    UnusedIsKraftSlack(lengths, MAX_BITS);
    while bits <= MAX_BITS
      invariant 1 <= bits <= MAX_BITS + 1
      invariant left == Unused(lengths, bits - 1) >= 0
    {
      left := 2 * left - blCount[bits];
      UnusedStep(lengths, bits);
      if left < 0 {
        UnusedStaysNegative(lengths, bits, MAX_BITS);
        over := true;
        return;
      }
      bits := bits + 1;
    }
    over := false;
  }

  /** The first code of each length, in 16-bit arithmetic. */
  method FirstCodes(lengths: Lengths, blCount: array<nat>) returns (nextCode: array<nat>)
    requires blCount.Length == MAX_BITS + 1
    requires forall len :: 0 <= len <= MAX_BITS ==> blCount[len] == Count(lengths, len)
    requires Kraft(lengths, MAX_BITS) <= Pow2(MAX_BITS)
    ensures fresh(nextCode) && nextCode.Length == MAX_BITS + 1
    ensures forall len :: 0 <= len <= MAX_BITS ==> nextCode[len] == FirstCode(lengths, len)
  {
    hide CountUpTo, KraftUpTo, Kraft, Pow2;
    nextCode := new nat[MAX_BITS + 1](_ => 0);
    var code: nat := 0;
    var bits := 1;
    while bits <= MAX_BITS
      invariant 1 <= bits <= MAX_BITS + 1
      invariant code == FirstCode(lengths, bits - 1)
      invariant forall len :: 0 <= len < bits ==> nextCode[len] == FirstCode(lengths, len)
    {
      FirstCodeFits(lengths, bits);
      code := (2 * (code + blCount[bits - 1])) % 65536;
      nextCode[bits] := code;
      bits := bits + 1;
    }
  }

  lemma FirstCodeFits(lengths: Lengths, len: nat)
    requires Kraft(lengths, MAX_BITS) <= Pow2(MAX_BITS) && len <= MAX_BITS
    ensures FirstCode(lengths, len) + Count(lengths, len) < 65536
  {
    UnusedFits(lengths, len);
    Pow2Monotone(len, 15);
    Pow2Of16();
  }

  /** Inserts one symbol under its code, unless the array is full or the leaf is already taken. */
  method InsertSymbol(nodes: array<HuffNode>, nodeCount: nat, sym: nat, code: nat, lengths: Lengths,
                      ghost paths: seq<BitSeq>)
    returns (ok: bool, newCount: nat, ghost newPaths: seq<BitSeq>)
    requires Describes(lengths) && Coded(lengths, sym) && code == Code(lengths, sym)
    requires Inserted(nodes[..], paths, lengths, sym) && OnTheWay(paths, lengths, sym) && |paths| == nodeCount
    modifies nodes
    ensures nodeCount + MAX_BITS <= nodes.Length ==> ok
    ensures ok ==> |newPaths| == newCount <= nodeCount + MAX_BITS
    ensures ok ==> Inserted(nodes[..], newPaths, lengths, sym + 1) && OnTheWay(newPaths, lengths, sym + 1)
  {
    hide OnTheWay, Labelled, IsTrie, Walk, Pow2, KraftUpTo, FirstCode, MsbBits, SymbolsLabelled, CountUpTo;
    var len := lengths[sym];
    CodeInRange(lengths, sym);
    var rev := ReverseBits(code, len);
    ghost var before := nodes[..];
    var node: int;
    ok, newCount, node, newPaths := InsertPath(nodes, nodeCount, rev, len, paths, CodeBits(lengths, sym));
    if ok {
      ghost var mid := nodes[..];
      LeafIsFree(before, paths, mid, newPaths, lengths, sym);
      if nodes[node].sym >= 0 {
        ok := false;
        return;
      }
      nodes[node] := nodes[node].(sym := sym);
      InsertedStep(before, paths, mid, newPaths, lengths, sym, nodes[..]);
      OnTheWayStep(paths, newPaths, lengths, sym);
    }
  }

  /** Builds the trie of the canonical code. It succeeds exactly on code lengths that describe a
      prefix code, provided the array has room for every code. */
  method HuffBuild(nodes: array<HuffNode>, lengths: Lengths) returns (ok: bool)
    requires 0 < nodes.Length
    modifies nodes
    ensures ok ==> Describes(lengths) && IsTrie(nodes[..], lengths)
    ensures 1 + MAX_BITS * |lengths| <= nodes.Length ==> (ok <==> Describes(lengths))
  {
    hide OnTheWay, Inserted, IsTrie, Pow2, KraftUpTo, FirstCode;
    HuffReset(nodes);
    var lengthsOk, blCount, numCodes := CountLengths(lengths);
    if !lengthsOk || numCodes == 0 {
      return false;
    }
    var over := Oversubscribed(lengths, blCount);
    if over {
      return false;
    }
    var nextCode := FirstCodes(lengths, blCount);
    var nodeCount := 1;
    ghost var paths: seq<BitSeq> := [[]];
    NothingInserted(nodes[..], paths, lengths);
    for sym := 0 to |lengths|
      invariant nextCode.Length == MAX_BITS + 1
      invariant forall len :: 0 < len <= MAX_BITS ==>
          nextCode[len] == FirstCode(lengths, len) + CountUpTo(lengths, sym, len)
      invariant Inserted(nodes[..], paths, lengths, sym) && OnTheWay(paths, lengths, sym)
      invariant |paths| == nodeCount <= 1 + MAX_BITS * sym
    {
      ghost var labels := paths;
      if lengths[sym] == 0 {
        SkipSymbol(nodes[..], paths, lengths, sym);
        continue;
      }
      var len := lengths[sym];
      var code := nextCode[len];
      CodeInRange(lengths, sym);
      FirstCodeFits(lengths, len);
      nextCode[len] := (code + 1) % 65536;
      ok, nodeCount, paths := InsertSymbol(nodes, nodeCount, sym, code, lengths, paths);
      if !ok {
        return;
      }
    }
    InsertedIsTrie(nodes[..], paths, lengths);
    ok := true;
  }

  lemma SkipSymbol(nodes: Nodes, paths: seq<BitSeq>, lengths: Lengths, k: nat)
    requires k < |lengths| && lengths[k] == 0
    requires Inserted(nodes, paths, lengths, k) && OnTheWay(paths, lengths, k)
    ensures Inserted(nodes, paths, lengths, k + 1) && OnTheWay(paths, lengths, k + 1)
  {
    OnTheWayStep(paths, paths, lengths, k);
  }
}
