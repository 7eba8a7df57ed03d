/** What goes over the wire in one direction, seen as a whole: under each set of keys one unbroken keystream over all
    packets, joined, with a MAC after each of them. */
module SshTraffic {
  import opened Numbers
  import opened ByteNumbers
  import opened SshPacket

  /** The packet of a payload before encryption. */
  function PacketFor(block: nat, item: Item): Bytes
    requires item.Say? && (block == 8 || block == 16)
  {
    PacketOf(item.payload, Padding(Seed(item.seed), PaddingLen(|item.payload|, block)))
  }

  /** Section 6 of RFC 4253: the length of the rest in four bytes, most significant first; the length of the padding;
      the payload; and at least four and fewer than four and a block bytes of padding that make whole blocks. */
  lemma PacketLayout(block: nat, item: Item)
    requires item.Say? && FitsPacket(item.payload) && (block == 8 || block == 16)
    ensures var p := PacketFor(block, item);
            && |p| >= 5 + |item.payload|
            && NumOf(p[0]) * 0x100_0000 + NumOf(p[1]) * 0x1_0000 + NumOf(p[2]) * 0x100 + NumOf(p[3]) == |p| - 4
            && 4 <= NumOf(p[4]) == |p| - 5 - |item.payload| < 4 + block
            && p[5..5 + |item.payload|] == item.payload
            && if block == 8 then |p| % 8 == 0 else |p| % 16 == 0
  {
    hide Padding, Be32, NumOf;
    var padding := Padding(Seed(item.seed), PaddingLen(|item.payload|, block));
    PacketReadsBack(item.payload, padding, |item.payload|);
    var p := PacketOf(item.payload, padding);
    ByteRoundTrip(|padding|);
    assert p[4] == ByteOf(|padding|) && p[5..5 + |item.payload|] == item.payload;
  }

  predicate AllSay(items: seq<Item>) {
    forall i :: 0 <= i < |items| ==> items[i].Say?
  }

  function Packets(block: nat, says: seq<Item>): seq<Bytes>
    requires AllSay(says) && (block == 8 || block == 16)
  {
    seq(|says|, i requires 0 <= i < |says| => PacketFor(block, says[i]))
  }

  function Joined(packets: seq<Bytes>): Bytes {
    if packets == [] then [] else packets[0] + Joined(packets[1..])
  }

  /** Bytes cut into pieces as long as the packets, with a MAC after each. */
  function Woven(bytes: Bytes, packets: seq<Bytes>, macs: seq<Bytes>): Bytes
    requires |bytes| == |Joined(packets)| && |macs| == |packets|
    decreases |packets|
  {
    if packets == [] then []
    else bytes[..|packets[0]|] + macs[0] + Woven(bytes[|packets[0]|..], packets[1..], macs[1..])
  }

  /** Byte j of all packets joined is encrypted with byte pos + j of the keystream. */
  function Keyed(bytes: Bytes, stream: nat -> bv8, pos: nat): (r: Bytes)
    ensures |r| == |bytes|
  {
    seq(|bytes|, j requires 0 <= j < |bytes| => bytes[j] ^ stream(pos + j))
  }

  /** The i-th packet is authenticated under number n + i, counted in 32 bits. */
  function Macs(mac: (nat, Bytes) -> Bytes, n: nat, packets: seq<Bytes>): (r: seq<Bytes>)
    ensures |r| == |packets|
  {
    seq(|packets|, i requires 0 <= i < |packets| => mac((n + i) % TWO_TO_32, packets[i]))
  }

  /** What is sent under one set of keys, as packets n, n + 1, and so on. */
  function Under(c: Cipher, n: nat, pos: nat, says: seq<Item>): Bytes
    requires AllSay(says)
  {
    match c
    case Plain => Joined(Packets(8, says))
    case Ctr(stream, mac) =>
      var packets := Packets(16, says);
      Woven(Keyed(Joined(packets), stream, pos), packets, Macs(mac, n, packets))
  }

  /** How many items there are before the next keys. */
  function Span(items: seq<Item>): (k: nat)
    ensures k <= |items| && AllSay(items[..k])
    ensures k < |items| ==> items[k].Rekey?
  {
    if items == [] || items[0].Rekey? then 0
    else
      var k := Span(items[1..]);
      assert items[..k + 1] == [items[0]] + items[1..][..k];
      k + 1
  }

  /** The whole traffic: new keys start a new keystream at its beginning, and packets go on being counted. */
  function Traffic(c: Cipher, n: nat, pos: nat, items: seq<Item>): Bytes
    decreases |items|
  {
    var k := Span(items);
    Under(c, n, pos, items[..k])
    + if k == |items| then [] else Traffic(items[k].keys.Cipher(), n + k, 0, items[k + 1..])
  }

  // ---------------------------------------------------------------- the packets sent one by one are that traffic

  lemma PacketsFirst(block: nat, says: seq<Item>)
    requires says != [] && AllSay(says) && (block == 8 || block == 16)
    ensures Packets(block, says) == [PacketFor(block, says[0])] + Packets(block, says[1..])
  {
    hide PacketOf, Padding, PaddingLen;
  }

  lemma KeyedSplit(a: Bytes, b: Bytes, stream: nat -> bv8, pos: nat)
    ensures Keyed(a + b, stream, pos) == Keyed(a, stream, pos) + Keyed(b, stream, pos + |a|)
    ensures Keyed(a, stream, pos) == Crypt(a, stream, pos)
  {}

  lemma NextNumber(n: nat)
    ensures (n % TWO_TO_32 + 1) % TWO_TO_32 == (n + 1) % TWO_TO_32
  {}

  lemma MacsFirst(mac: (nat, Bytes) -> Bytes, n: nat, p: Bytes, packets: seq<Bytes>)
    ensures Macs(mac, n, [p] + packets) == [mac(n % TWO_TO_32, p)] + Macs(mac, n + 1, packets)
  {
    var all := Macs(mac, n, [p] + packets);
    var parts := [mac(n % TWO_TO_32, p)] + Macs(mac, n + 1, packets);
    forall i | 0 <= i <= |packets| ensures all[i] == parts[i] {
      if i > 0 {
        assert n + i == (n + 1) + (i - 1);
      }
    }
  }

  /** One more packet at the front. */
  lemma UnderFirst(c: Cipher, n: nat, pos: nat, says: seq<Item>)
    requires says != [] && AllSay(says)
    ensures var p := PacketFor(BlockSize(c), says[0]);
            Under(c, n, pos, says) ==
              if c.Plain? then p + Under(c, n + 1, pos, says[1..])
              else Crypt(p, c.stream, pos) + c.mac(n % TWO_TO_32, p) + Under(c, n + 1, pos + |p|, says[1..])
  {
    hide PacketFor, Packets, Keyed, Macs, Crypt;
    var p := PacketFor(BlockSize(c), says[0]);
    PacketsFirst(BlockSize(c), says);
    match c
    case Plain =>
    case Ctr(stream, mac) =>
      var others := Packets(16, says[1..]);
      var packets := [p] + others;
      assert packets[1..] == others;
      KeyedSplit(p, Joined(others), stream, pos);
      MacsFirst(mac, n, p, others);
  }

  /** Packets sent under one set of keys, and then the rest. */
  lemma {:induction false} SaysAreUnder(c: Cipher, n: nat, pos: nat, says: seq<Item>, rest: seq<Item>)
    returns (after: nat)
    requires AllSay(says) && forall i :: 0 <= i < |says| ==> Sendable(says[i])
    ensures WireAll(c, Session(n % TWO_TO_32, pos), says + rest)
         == Under(c, n, pos, says) + WireAll(c, Session((n + |says|) % TWO_TO_32, after), rest)
    decreases |says|
  {
    hide PacketFor, Under, Crypt, WireAll, TotalLen, Sendable;
    if says == [] {
      assert says + rest == rest;
      NothingUnder(c, n, pos);
      after := pos;
      assert [] + WireAll(c, Session(n % TWO_TO_32, pos), rest) == WireAll(c, Session(n % TWO_TO_32, pos), rest);
    } else {
      SayFirst(c, n, pos, says[0], says[1..] + rest);
      assert says + rest == [says[0]] + (says[1..] + rest);
      UnderFirst(c, n, pos, says);
      var p := PacketFor(BlockSize(c), says[0]);
      var next := if c.Plain? then pos else pos + |p|;
      after := SaysAreUnder(c, n + 1, next, says[1..], rest);
      assert n + 1 + |says[1..]| == n + |says|;
      var first := if c.Plain? then p else Crypt(p, c.stream, pos) + c.mac(n % TWO_TO_32, p);
      JoinThree(first, Under(c, n + 1, next, says[1..]), WireAll(c, Session((n + |says|) % TWO_TO_32, after), rest));
    }
  }

  lemma JoinThree(a: Bytes, b: Bytes, c: Bytes)
    ensures a + (b + c) == a + b + c
  {}

  lemma NothingUnder(c: Cipher, n: nat, pos: nat)
    ensures Under(c, n, pos, []) == []
  {}

  /** One packet sent, and then the rest. */
  lemma SayFirst(c: Cipher, n: nat, pos: nat, say: Item, rest: seq<Item>)
    requires say.Say? && Sendable(say)
    ensures var p := PacketFor(BlockSize(c), say);
            WireAll(c, Session(n % TWO_TO_32, pos), [say] + rest) ==
              if c.Plain? then p + WireAll(c, Session((n + 1) % TWO_TO_32, pos), rest)
              else Crypt(p, c.stream, pos) + c.mac(n % TWO_TO_32, p)
                   + WireAll(c, Session((n + 1) % TWO_TO_32, pos + |p|), rest)
  {
    hide Crypt, PacketOf, Padding, PaddingLen, Wire, TotalLen;
    NextNumber(n);
    WireUnfold(c, Session(n % TWO_TO_32, pos), say.payload, say.seed);
    assert ([say] + rest)[0] == say && ([say] + rest)[1..] == rest;
  }

  /** Everything that is sent, item by item, is the traffic seen as a whole. */
  lemma {:induction false} WireIsTraffic(c: Cipher, n: nat, pos: nat, items: seq<Item>)
    requires forall i :: 0 <= i < |items| ==> Sendable(items[i])
    ensures WireAll(c, Session(n % TWO_TO_32, pos), items) == Traffic(c, n, pos, items)
    decreases |items|
  {
    hide Under, WireAll, Crypt, Sendable, Span;
    var k := Span(items);
    var after := SaysAreUnder(c, n, pos, items[..k], items[k..]);
    assert items[..k] + items[k..] == items;
    if k < |items| {
      WireIsTraffic(items[k].keys.Cipher(), n + k, 0, items[k + 1..]);
      KeysFirst(c, Session((n + k) % TWO_TO_32, after), items, k);
    } else {
      NothingSent(c, Session((n + k) % TWO_TO_32, after));
    }
  }

  lemma KeysFirst(c: Cipher, st: Session, items: seq<Item>, k: nat)
    requires k < |items| && items[k].Rekey? && Sendable(items[k])
    ensures WireAll(c, st, items[k..]) == WireAll(items[k].keys.Cipher(), Rekeyed(st), items[k + 1..])
  {
    assert items[k..][0] == items[k] && items[k..][1..] == items[k + 1..];
  }

  lemma NothingSent(c: Cipher, st: Session)
    ensures WireAll(c, st, []) == []
  {}

  // ---------------------------------------------------------------- what is accepted

  /** A decrypted packet of total bytes that carries a payload. */
  predicate Carries(plain: Bytes, total: nat, payload: Bytes, cap: nat) {
    && 6 <= |plain| == total <= 4096 && 0 < |payload| <= cap && 5 + |payload| <= total
    && NumOf(plain[0]) * 0x100_0000 + NumOf(plain[1]) * 0x1_0000 + NumOf(plain[2]) * 0x100 + NumOf(plain[3]) ==
        total - 4
    && NumOf(plain[4]) == total - 5 - |payload| && plain[5..5 + |payload|] == payload
  }

  /** The padding length leaves the payload. */
  predicate Leaves(plain: Bytes, payload: Bytes, cap: nat) {
    && 5 <= |plain| && 0 < |payload| <= cap && 5 + |payload| <= |plain|
    && NumOf(plain[4]) == |plain| - 5 - |payload| && plain[5..5 + |payload|] == payload
  }

  lemma UnpackExactly(packet: Bytes, cap: nat, consumed: nat, payload: Bytes, c: nat, total: nat)
    requires |packet| >= 5
    ensures Unpack(packet, cap, consumed) == Packet(payload, c, total) <==>
      c == consumed && total == |packet| && Leaves(packet, payload, cap)
  {}

  lemma CarriesIs(plain: Bytes, total: nat, payload: Bytes, cap: nat)
    ensures Carries(plain, total, payload, cap) <==>
      6 <= |plain| == total <= 4096 && ReadBe32(plain) == total - 4 && Leaves(plain, payload, cap)
  {}

  /** Without keys a packet is taken exactly if the front of the stream is one. */
  lemma PlainExactly(st: Session, input: Bytes, cap: nat, payload: Bytes, consumed: nat, total: nat)
    ensures Next(Plain, st, input, cap) == Packet(payload, consumed, total) <==>
      consumed == total <= |input| && Carries(input[..total], total, payload, cap)
  {
    hide Unpack, ReadBe32, Carries, Leaves;
    if |input| >= 5 {
      var n := 4 + ReadBe32(input);
      if n <= |input| {
        SamePrefix(input, n);
        if n >= 5 {
          UnpackExactly(input[..n], cap, n, payload, consumed, total);
        }
      }
      if total <= |input| {
        SamePrefix(input, total);
        CarriesIs(input[..total], total, payload, cap);
      }
    } else if total <= |input| {
      CarriesIs(input[..total], total, payload, cap);
    }
  }

  lemma SamePrefix(input: Bytes, n: nat)
    requires 4 <= |input| && n <= |input|
    ensures n >= 4 ==> ReadBe32(input[..n]) == ReadBe32(input)
  {
    if n >= 4 {
      assert forall i :: 0 <= i < 4 ==> input[..n][i] == input[i];
    }
  }

  /** With keys it is taken exactly if the front of the stream, decrypted, is one in whole blocks and its MAC under the
      next number follows: nothing that is not authentic is delivered. */
  lemma AuthenticExactly(stream: nat -> bv8, mac: (nat, Bytes) -> Bytes, st: Session, input: Bytes, cap: nat,
                         payload: Bytes, consumed: nat, total: nat)
    ensures Next(Ctr(stream, mac), st, input, cap) == Packet(payload, consumed, total) <==>
      && consumed == total + 32 <= |input| && total % 16 == 0
      && var plain := Keyed(input[..total], stream, st.pos);
         Carries(plain, total, payload, cap) && input[total..total + 32] == mac(st.seqNo, plain)
  {
    hide Unpack, ReadBe32, Carries, Leaves, Keyed, Crypt;
    if total + 32 <= |input| {
      KeyedSplit(input[..total], [], stream, st.pos);
      CarriesIs(Keyed(input[..total], stream, st.pos), total, payload, cap);
      if total % 16 == 0 && total > 0 {
        LengthInFront(input, stream, st.pos, total);
      }
    }
    if |input| >= 16 {
      var n := 4 + ReadBe32(Crypt(input[..16], stream, st.pos));
      if 16 <= n && n + 32 <= |input| {
        UnpackExactly(Crypt(input[..n], stream, st.pos), cap, n + 32, payload, consumed, total);
        LengthInFront(input, stream, st.pos, n);
      }
    }
  }

  /** The length is in the first block. */
  lemma LengthInFront(input: Bytes, stream: nat -> bv8, pos: nat, total: nat)
    requires 16 <= total <= |input|
    ensures ReadBe32(Crypt(input[..total], stream, pos)) == ReadBe32(Crypt(input[..16], stream, pos))
  {
    hide ReadBe32;
    CryptSplit(input[..total], stream, pos, 16);
    assert input[..total][..16] == input[..16];
    HeaderOnly(Crypt(input[..16], stream, pos), Crypt(input[..total], stream, pos));
  }
}
