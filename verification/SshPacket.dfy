/** The binary packet protocol of section 6 of RFC 4253, as the client frames it: what one packet
    looks like on the wire and how the front of a byte stream is read back. */
module SshPacket {
  import opened Numbers
  import opened ByteNumbers

  const MAX_PACKET: nat := 4096
  const STREAM_BUF: nat := 8192
  const AES_BLOCK: nat := 16
  const MAC_LEN: nat := 32

  /** A transport direction. With keys, the packet is encrypted by a counter-mode keystream,
      indexed from the first byte under these keys, and followed by a MAC over the packet sequence
      number and the unencrypted packet. */
  datatype Cipher = Plain | Ctr(stream: nat -> bv8, mac: (nat, Bytes) -> Bytes)

  ghost predicate ValidCipher(c: Cipher) {
    c.Ctr? ==> forall n: nat, p: Bytes :: |c.mac(n, p)| == MAC_LEN
  }

  /** Where a direction stands: the next sequence number and the keystream position. */
  datatype Session = Session(seqNo: nat, pos: nat)

  /** The state after a packet of total bytes. */
  function After(c: Cipher, st: Session, total: nat): Session {
    Session((st.seqNo + 1) % TWO_TO_32, if c.Ctr? then st.pos + total else st.pos)
  }

  /** A 32-bit number, most significant byte first. */
  function Be32(v: nat): (r: Bytes)
    ensures |r| == 4
  {
    [ByteOf(v / 0x100_0000 % 256), ByteOf(v / 0x1_0000 % 256), ByteOf(v / 0x100 % 256), ByteOf(v % 256)]
  }

  function ReadBe32(b: Bytes): nat
    requires |b| >= 4
  {
    NumOf(b[0]) * 0x100_0000 + NumOf(b[1]) * 0x1_0000 + NumOf(b[2]) * 0x100 + NumOf(b[3])
  }

  lemma Be32RoundTrip(v: nat)
    requires v < TWO_TO_32
    ensures ReadBe32(Be32(v)) == v
  {
    hide ByteOf, NumOf;
    ByteRoundTrip(v / 0x100_0000 % 256);
    ByteRoundTrip(v / 0x1_0000 % 256);
    ByteRoundTrip(v / 0x100 % 256);
    ByteRoundTrip(v % 256);
    Digits(v);
  }

  lemma Digits(v: nat)
    requires v < TWO_TO_32
    ensures v == v / 0x100_0000 % 256 * 0x100_0000 + v / 0x1_0000 % 256 * 0x1_0000 + v / 0x100 % 256 * 0x100 + v % 256
  {
    assert v == v / 0x100 * 0x100 + v % 0x100;
    assert v / 0x100 == v / 0x1_0000 * 0x100 + v / 0x100 % 0x100;
    assert v / 0x1_0000 == v / 0x100_0000 * 0x100 + v / 0x1_0000 % 0x100;
  }

  /** Counter mode: encryption and decryption are the same operation. */
  function Crypt(data: Bytes, stream: nat -> bv8, pos: nat): (r: Bytes)
    ensures |r| == |data|
  {
    seq(|data|, i requires 0 <= i < |data| => data[i] ^ stream(pos + i))
  }

  lemma XorTwice(x: bv8, y: bv8)
    ensures (x ^ y) ^ y == x
  {}

  lemma CryptTwice(data: Bytes, stream: nat -> bv8, pos: nat)
    ensures Crypt(Crypt(data, stream, pos), stream, pos) == data
  {
    forall i | 0 <= i < |data|
      ensures Crypt(Crypt(data, stream, pos), stream, pos)[i] == data[i]
    {
      XorTwice(data[i], stream(pos + i));
    }
  }

  lemma CryptSplit(data: Bytes, stream: nat -> bv8, pos: nat, k: nat)
    requires k <= |data|
    ensures Crypt(data, stream, pos) == Crypt(data[..k], stream, pos) + Crypt(data[k..], stream, pos + k)
    ensures Crypt(data, stream, pos)[..k] == Crypt(data[..k], stream, pos)
  {}

  // ---------------------------------------------------------------- sending

  function BlockSize(c: Cipher): (r: nat)
    ensures r == 8 || r == 16
  {
    if c.Ctr? then AES_BLOCK else 8
  }

  /** The least padding of at least four bytes that fills the last block. */
  function PaddingLen(payloadLen: nat, block: nat): (r: nat)
    requires block == 8 || block == 16
    ensures 4 <= r < 4 + block
    ensures if block == 8 then (5 + payloadLen + r) % 8 == 0 else (5 + payloadLen + r) % 16 == 0
  {
    if block == 8 then FillEight(payloadLen) else FillSixteen(payloadLen)
  }

  function FillEight(n: nat): (r: nat)
    ensures 4 <= r < 12 && (5 + n + r) % 8 == 0
  {
    Multiple(n / 8 + 2, 8);
    11 - n % 8
  }

  function FillSixteen(n: nat): (r: nat)
    ensures 4 <= r < 20 && (5 + n + r) % 16 == 0
  {
    Multiple((n + 8) / 16 + 1, 16);
    19 - (n + 8) % 16
  }

  lemma Multiple(q: nat, d: nat)
    requires d > 0
    ensures q * d % d == 0
  {
    DivModUnique(q * d, d, q, 0);
  }

  /** The generator that fills the padding. */
  function NextRandom(x: bv32): bv32 {
    var a := x ^ (x << 13);
    var b := a ^ (a >> 17);
    b ^ (b << 5)
  }

  function LowByte(x: bv32): bv8 {
    (x & 0xFF) as bv8
  }

  function Padding(x: bv32, n: nat): (r: Bytes)
    ensures |r| == n
    decreases n
  {
    if n == 0 then [] else [LowByte(NextRandom(x))] + Padding(NextRandom(x), n - 1)
  }

  function Seed(seed: bv32): bv32 {
    if seed != 0 then seed else 0x4E594E31
  }

  /** The unencrypted packet: length, padding length, payload, padding. */
  function PacketOf(payload: Bytes, padding: Bytes): Bytes
    requires |padding| < 256
  {
    Be32(1 + |payload| + |padding|) + [ByteOf(|padding|)] + payload + padding
  }

  /** Length of the packet, without the MAC. */
  function TotalLen(c: Cipher, payload: Bytes): nat {
    5 + |payload| + PaddingLen(|payload|, BlockSize(c))
  }

  /** What is written for one payload. */
  function Wire(c: Cipher, st: Session, payload: Bytes, seed: bv32): Bytes {
    var packet := PacketOf(payload, Padding(Seed(seed), PaddingLen(|payload|, BlockSize(c))));
    match c
    case Plain => packet
    case Ctr(stream, mac) => Crypt(packet, stream, st.pos) + mac(st.seqNo, packet)
  }

  // ---------------------------------------------------------------- receiving

  /** What the front of a byte stream holds: too little to tell, something that is refused, or a
      packet of the given payload that takes consumed bytes, total of them encrypted. */
  datatype Front = Need | Bad | Packet(payload: Bytes, consumed: nat, total: nat)

  /** The payload of a decrypted packet, if the padding leaves one that fits the caller's buffer. */
  function Unpack(packet: Bytes, cap: nat, consumed: nat): Front
    requires |packet| >= 5
  {
    var payloadLen := |packet| - 4 - 1 - NumOf(packet[4]);
    if payloadLen <= 0 || payloadLen > cap then Bad
    else Packet(packet[5..5 + payloadLen], consumed, |packet|)
  }

  function LengthOk(packetLen: nat): bool {
    2 <= packetLen <= MAX_PACKET - 4
  }

  function Next(c: Cipher, st: Session, input: Bytes, cap: nat): Front {
    match c
    case Plain =>
      if |input| < 5 then Need
      else
        var packetLen := ReadBe32(input);
        if !LengthOk(packetLen) then Bad
        else if |input| < 4 + packetLen then Need
        else Unpack(input[..4 + packetLen], cap, 4 + packetLen)
    case Ctr(stream, mac) =>
      if |input| < AES_BLOCK then Need
      else
        var packetLen := ReadBe32(Crypt(input[..AES_BLOCK], stream, st.pos));
        var total := 4 + packetLen;
        if !LengthOk(packetLen) || total < AES_BLOCK || total % AES_BLOCK != 0 then Bad
        else if |input| < total + MAC_LEN then Need
        else
          var packet := Crypt(input[..total], stream, st.pos);
          if mac(st.seqNo, packet) != input[total..total + MAC_LEN] then Bad
          else Unpack(packet, cap, total + MAC_LEN)
  }

  /** Once decided, more input does not change the decision. */
  lemma NextIsStable(c: Cipher, st: Session, input: Bytes, more: Bytes, cap: nat)
    requires Next(c, st, input, cap) != Need
    ensures Next(c, st, input + more, cap) == Next(c, st, input, cap)
  {
    hide Crypt, ReadBe32, Unpack;
    match c
    case Plain =>
      HeaderOnly(input, input + more);
      var packetLen := ReadBe32(input);
      if LengthOk(packetLen) {
        assert (input + more)[..4 + packetLen] == input[..4 + packetLen];
      }
    case Ctr(stream, mac) =>
      assert (input + more)[..AES_BLOCK] == input[..AES_BLOCK];
      var total := 4 + ReadBe32(Crypt(input[..AES_BLOCK], stream, st.pos));
      if total + MAC_LEN <= |input| {
        assert (input + more)[..total] == input[..total];
        assert (input + more)[total..total + MAC_LEN] == input[total..total + MAC_LEN];
      }
  }

  /** A full buffer always holds a decidable packet. */
  lemma FullBufferDecides(c: Cipher, st: Session, input: Bytes, cap: nat)
    requires |input| >= STREAM_BUF
    ensures Next(c, st, input, cap) != Need
  {}

  /** A sent packet is read back, whatever follows it. */
  lemma WireRoundTrip(c: Cipher, st: Session, payload: Bytes, seed: bv32, rest: Bytes, cap: nat)
    requires ValidCipher(c) && 0 < |payload| <= MAX_PACKET - 32 && |payload| <= cap
    ensures var w := Wire(c, st, payload, seed);
            && Next(c, st, w + rest, cap) == Packet(payload, |w|, TotalLen(c, payload))
            && (w + rest)[|w|..] == rest
  {
    hide Padding, NextRandom, Next, Wire, Crypt, ReadBe32, Be32, PacketOf, PaddingLen, Unpack;
    var padding := Padding(Seed(seed), PaddingLen(|payload|, BlockSize(c)));
    var packet := PacketOf(payload, padding);
    PacketReadsBack(payload, padding, cap);
    WireUnfold(c, st, payload, seed);
    match c
    case Plain => PlainRoundTrip(st, packet, payload, rest, cap);
    case Ctr(stream, mac) => CtrRoundTrip(stream, mac, st, packet, payload, rest, cap);
  }

  lemma WireUnfold(c: Cipher, st: Session, payload: Bytes, seed: bv32)
    ensures var packet := PacketOf(payload, Padding(Seed(seed), PaddingLen(|payload|, BlockSize(c))));
            && |packet| == TotalLen(c, payload)
            && (c.Ctr? ==> |packet| % AES_BLOCK == 0)
            && Wire(c, st, payload, seed) ==
               match c
               case Plain => packet
               case Ctr(stream, mac) => Crypt(packet, stream, st.pos) + mac(st.seqNo, packet)
  {
    hide Padding, NextRandom, Crypt;
  }

  lemma PlainRoundTrip(st: Session, packet: Bytes, payload: Bytes, rest: Bytes, cap: nat)
    requires 6 <= |packet| <= MAX_PACKET && ReadBe32(packet) == |packet| - 4
    requires Unpack(packet, cap, |packet|) == Packet(payload, |packet|, |packet|)
    ensures Next(Plain, st, packet + rest, cap) == Packet(payload, |packet|, |packet|)
    ensures (packet + rest)[|packet|..] == rest
  {
    hide ReadBe32, Unpack;
    assert (packet + rest)[..|packet|] == packet;
    HeaderOnly(packet, packet + rest);
  }

  lemma CtrRoundTrip(stream: nat -> bv8, mac: (nat, Bytes) -> Bytes, st: Session, packet: Bytes, payload: Bytes,
                     rest: Bytes, cap: nat)
    requires AES_BLOCK <= |packet| <= MAX_PACKET && ReadBe32(packet) == |packet| - 4 && |packet| % AES_BLOCK == 0
    requires |mac(st.seqNo, packet)| == MAC_LEN
    requires Unpack(packet, cap, |packet| + MAC_LEN) == Packet(payload, |packet| + MAC_LEN, |packet|)
    ensures var w := Crypt(packet, stream, st.pos) + mac(st.seqNo, packet);
            && Next(Ctr(stream, mac), st, w + rest, cap) == Packet(payload, |w|, |packet|)
            && (w + rest)[|w|..] == rest
  {
    hide Crypt, ReadBe32, Unpack;
    var total := |packet|;
    var input := Crypt(packet, stream, st.pos) + mac(st.seqNo, packet) + rest;
    assert input[..total] == Crypt(packet, stream, st.pos);
    CryptTwice(packet, stream, st.pos);
    CryptSplit(Crypt(packet, stream, st.pos), stream, st.pos, AES_BLOCK);
    assert input[..AES_BLOCK] == input[..total][..AES_BLOCK];
    HeaderOnly(packet, packet[..AES_BLOCK]);
    assert input[total..total + MAC_LEN] == mac(st.seqNo, packet);
  }

  lemma HeaderOnly(packet: Bytes, other: Bytes)
    requires |packet| >= 4 && |other| >= 4 && packet[..4] == other[..4]
    ensures ReadBe32(other) == ReadBe32(packet)
  {
    assert forall i :: 0 <= i < 4 ==> packet[i] == packet[..4][i] && other[i] == other[..4][i];
  }

  lemma PacketReadsBack(payload: Bytes, padding: Bytes, cap: nat)
    requires 0 < |payload| <= MAX_PACKET && |payload| <= cap && |padding| < 256
    ensures var packet := PacketOf(payload, padding);
            && |packet| == 5 + |payload| + |padding|
            && ReadBe32(packet) == |packet| - 4
            && forall consumed :: Unpack(packet, cap, consumed) == Packet(payload, consumed, |packet|)
  {
    hide Be32, ReadBe32;
    var packet := PacketOf(payload, padding);
    var len := 1 + |payload| + |padding|;
    Be32RoundTrip(len);
    assert packet[..4] == Be32(len);
    HeaderOnly(Be32(len), packet);
    ByteRoundTrip(|padding|);
    assert packet[5..5 + |payload|] == payload;
  }

  // ---------------------------------------------------------------- whole conversations

  /** The negotiated MAC of a direction, and how long its initial vector, cipher key and MAC key are. */
  datatype KeyMaterial = KeyMaterial(macName: string, iv: nat, key: nat, macKey: nat)

  predicate Usable(k: KeyMaterial) {
    k.macName == "hmac-sha2-256" && k.iv >= AES_BLOCK && (k.key == 16 || k.key == 32) && k.macKey >= MAC_LEN
  }

  /** New keys for one direction of the traffic, with the material of both. */
  datatype Keys = Keys(stream: nat -> bv8, mac: (nat, Bytes) -> Bytes, own: KeyMaterial, peer: KeyMaterial) {
    predicate Installable() {
      Usable(own) && Usable(peer)
    }

    function Cipher(): Cipher {
      Ctr(stream, mac)
    }
  }

  /** What the sending side does: a payload, padded from a random seed, or new keys. */
  datatype Item = Say(payload: Bytes, seed: bv32) | Rekey(keys: Keys)

  /** What the receiving side does about it. */
  datatype Turn = Await | Install(keys: Keys)

  predicate FitsPacket(payload: Bytes) {
    0 < |payload| <= MAX_PACKET - 32
  }

  predicate Sendable(item: Item) {
    if item.Say? then FitsPacket(item.payload) else item.keys.Installable()
  }

  /** MACs have the length the packets leave for them. */
  ghost predicate ValidItem(item: Item) {
    item.Rekey? ==> ValidCipher(item.keys.Cipher())
  }

  function TurnOf(item: Item): Turn {
    if item.Say? then Await else Install(item.keys)
  }

  function Turns(items: seq<Item>): (r: seq<Turn>)
    ensures |r| == |items|
  {
    seq(|items|, i requires 0 <= i < |items| => TurnOf(items[i]))
  }

  function Payloads(items: seq<Item>): seq<Bytes> {
    if items == [] then [] else (if items[0].Say? then [items[0].payload] else []) + Payloads(items[1..])
  }

  /** A session under new keys: the keystream restarts, the packet count does not (section 6.4 of RFC 4253). */
  function Rekeyed(st: Session): Session {
    Session(st.seqNo, 0)
  }

  /** The bytes sent for an item, and the direction after it. */
  function ItemWire(c: Cipher, st: Session, item: Item): Bytes {
    if item.Say? then Wire(c, st, item.payload, item.seed) else []
  }

  function ItemCipher(c: Cipher, item: Item): Cipher {
    if item.Say? then c else item.keys.Cipher()
  }

  function ItemSession(c: Cipher, st: Session, item: Item): Session {
    if item.Say? then After(c, st, TotalLen(c, item.payload)) else Rekeyed(st)
  }

  /** All bytes that are sent, up to the first item that is refused. */
  function WireAll(c: Cipher, st: Session, items: seq<Item>): Bytes
    decreases |items|
  {
    if items == [] || !Sendable(items[0]) then []
    else ItemWire(c, st, items[0]) + WireAll(ItemCipher(c, items[0]), ItemSession(c, st, items[0]), items[1..])
  }

  /** The payloads at the front of a stream, up to one that is incomplete or refused. */
  function ReceiveAll(c: Cipher, st: Session, input: Bytes, turns: seq<Turn>, cap: nat): seq<Bytes>
    decreases |turns|
  {
    if turns == [] then []
    else
      match turns[0]
      case Install(keys) =>
        if keys.Installable() then ReceiveAll(keys.Cipher(), Rekeyed(st), input, turns[1..], cap) else []
      case Await =>
        match Next(c, st, input, cap)
        case Packet(payload, consumed, total) =>
          if consumed > |input| then []
          else [payload] + ReceiveAll(c, After(c, st, total), input[consumed..], turns[1..], cap)
        case _ => []
  }

  lemma ReceiveFirst(c: Cipher, st: Session, w: Bytes, rest: Bytes, turns: seq<Turn>, cap: nat, payload: Bytes,
                     total: nat)
    requires Next(c, st, w + rest, cap) == Packet(payload, |w|, total) && turns != [] && turns[0].Await?
    ensures ReceiveAll(c, st, w + rest, turns, cap)
         == [payload] + ReceiveAll(c, After(c, st, total), rest, turns[1..], cap)
  {
    hide Next, After;
    assert (w + rest)[|w|..] == rest;
  }

  /** Both ends keep in step, also when keys change: all payloads are recovered, in order. */
  lemma {:induction false} ConversationRoundTrip(c: Cipher, st: Session, items: seq<Item>, rest: Bytes, cap: nat)
    requires ValidCipher(c)
    requires forall i :: i in items ==> ValidItem(i) && Sendable(i) && (i.Say? ==> |i.payload| <= cap)
    ensures ReceiveAll(c, st, WireAll(c, st, items) + rest, Turns(items), cap) == Payloads(items)
    decreases |items|
  {
    hide Next, Wire, ValidCipher, TotalLen, After, BlockSize;
    if items != [] {
      var others := items[1..];
      assert items[0] in items && forall i :: i in others ==> i in items;
      assert Turns(items)[0] == TurnOf(items[0]) && Turns(items)[1..] == Turns(others);
      match items[0]
      case Rekey(keys) =>
        assert WireAll(c, st, items) == WireAll(keys.Cipher(), Rekeyed(st), others);
        ConversationRoundTrip(keys.Cipher(), Rekeyed(st), others, rest, cap);
      case Say(first, seed) =>
        var w := Wire(c, st, first, seed);
        var next := After(c, st, TotalLen(c, first));
        var tail := WireAll(c, next, others) + rest;
        WireRoundTrip(c, st, first, seed, tail, cap);
        ReceiveFirst(c, st, w, tail, Turns(items), cap, first, TotalLen(c, first));
        assert WireAll(c, st, items) + rest == w + tail;
        ConversationRoundTrip(c, next, others, rest, cap);
    }
  }

  /** A stream cut off anywhere gives the first of the payloads. */
  lemma {:induction false} CutOffReceives(c: Cipher, st: Session, input: Bytes, more: Bytes, turns: seq<Turn>,
                                          cap: nat)
    ensures ReceiveAll(c, st, input, turns, cap) <= ReceiveAll(c, st, input + more, turns, cap)
    decreases |turns|
  {
    hide Next, After;
    if turns != [] {
      match turns[0]
      case Install(keys) => CutOffReceives(keys.Cipher(), Rekeyed(st), input, more, turns[1..], cap);
      case Await =>
        if Next(c, st, input, cap).Packet? {
          NextIsStable(c, st, input, more, cap);
          var front := Next(c, st, input, cap);
          if front.consumed <= |input| {
            var rest := input[front.consumed..];
            assert (input + more)[front.consumed..] == rest + more;
            CutOffReceives(c, After(c, st, front.total), rest, more, turns[1..], cap);
          }
        }
    }
  }
}
