/** Both ends of the packet transport: the sender, and the blocking and the polling receiver over
    one stream buffer. */
module SshTransport {
  import opened Numbers
  import opened ByteNumbers
  import opened SshPacket

  class Sender {
    var cipher: Cipher
    var st: Session
    // Everything handed to the socket so far, and how many packets that is.
    var sent: Bytes
    ghost var packets: nat

    ghost predicate Valid()
      reads this
    {
      st.seqNo == packets % TWO_TO_32
    }

    constructor ()
      ensures Valid() && cipher == Plain && st == Session(0, 0) && sent == [] && packets == 0
    {
      cipher, st, sent, packets := Plain, Session(0, 0), [], 0;
    }

    /** New keys restart the keystream but not the packet count (section 6.4 of RFC 4253). Keys of the wrong
        length and other algorithms, for either direction, are refused. */
    method InstallKeys(keys: Keys) returns (ok: bool)
      requires Valid()
      modifies this
      ensures Valid() && sent == old(sent) && packets == old(packets)
      ensures ok == keys.Installable()
      ensures if ok then cipher == keys.Cipher() && st == Rekeyed(old(st)) else cipher == old(cipher) && st == old(st)
    {
      ok := keys.Installable();
      if ok {
        cipher, st := keys.Cipher(), Session(st.seqNo, 0);
      }
    }

    /** Writes some bytes to a socket that takes so many more before it fails. */
    method SendBytes(data: Bytes, accepts: nat) returns (ok: bool, left: nat)
      modifies this`sent
      ensures ok <==> |data| <= accepts
      ensures sent == old(sent) + data[..Upto(0, |data|, accepts)] && left == accepts - Upto(0, |data|, accepts)
    {
      var n := if |data| <= accepts then |data| else accepts;
      sent := sent + data[..n];
      return n == |data|, accepts - n;
    }

    /** Frames a payload and writes it; sizes outside 1..4064 are refused. When the socket fails, the packet is cut
        off and not counted. */
    method SendPacket(payload: Bytes, seed: bv32, accepts: nat) returns (ok: bool)
      requires Valid() && ValidCipher(cipher)
      modifies this
      ensures Valid() && cipher == old(cipher)
      ensures ok <==> FitsPacket(payload) && |Wire(cipher, old(st), payload, seed)| <= accepts
      ensures ok ==>
                && sent == old(sent) + Wire(cipher, old(st), payload, seed)
                && st == After(cipher, old(st), TotalLen(cipher, payload)) && packets == old(packets) + 1
      ensures !ok ==> packets == old(packets) && st.seqNo == old(st.seqNo)
      ensures !ok && !FitsPacket(payload) ==> sent == old(sent) && st == old(st)
      ensures !ok && FitsPacket(payload) ==>
        sent == old(sent) + Wire(cipher, old(st), payload, seed)[..accepts]
    {
      hide NextRandom, Crypt, Be32, Wire, PacketOf, Padding, PaddingLen;
      if |payload| == 0 || |payload| > MAX_PACKET - 32 {
        return false;
      }
      var block := BlockSize(cipher);
      var paddingLen := ChoosePadding(|payload|, block);
      var totalLen := 5 + |payload| + paddingLen;
      if totalLen > MAX_PACKET || totalLen < block {
        return false;
      }
      var padding := FillPadding(Seed(seed), paddingLen);
      var packet := PacketOf(payload, padding);
      WireUnfold(cipher, st, payload, seed);
      ghost var before := sent;
      match cipher {
        case Plain =>
          var left;
          ok, left := SendBytes(packet, accepts);
        case Ctr(stream, mac) =>
          ok := SendSealed(Crypt(packet, stream, st.pos), mac(st.seqNo, packet), accepts);
          if !ok {
            st := st.(pos := st.pos + totalLen);
          }
      }
      if ok {
        st := After(cipher, st, totalLen);
        packets := packets + 1;
      }
    }

    /** Writes an encrypted packet and its MAC. */
    method SendSealed(encrypted: Bytes, mac: Bytes, accepts: nat) returns (ok: bool)
      modifies this`sent
      ensures ok <==> |encrypted + mac| <= accepts
      ensures sent == old(sent) + (encrypted + mac)[..Upto(0, |encrypted + mac|, accepts)]
    {
      ghost var before := sent;
      var left;
      ok, left := SendBytes(encrypted, accepts);
      if ok {
        ok, left := SendBytes(mac, left);
        assert before + encrypted + mac[..Upto(0, |mac|, accepts - |encrypted|)]
          == before + (encrypted + mac)[..Upto(0, |encrypted + mac|, accepts)];
      }
    }
  }

  method ChoosePadding(payloadLen: nat, block: nat) returns (paddingLen: nat)
    requires block == 8 || block == 16
    ensures paddingLen == PaddingLen(payloadLen, block)
  {
    paddingLen := 4;
    while (if block == 8 then (1 + payloadLen + paddingLen + 4) % 8 else (1 + payloadLen + paddingLen + 4) % 16) != 0
      invariant 4 <= paddingLen <= PaddingLen(payloadLen, block)
      decreases PaddingLen(payloadLen, block) - paddingLen
    {
      paddingLen := paddingLen + 1;
    }
    PaddingIsLeast(payloadLen, block, paddingLen);
  }

  /** There is one multiple of the block size in reach of the least padding. */
  lemma PaddingIsLeast(payloadLen: nat, block: nat, n: nat)
    requires block == 8 || block == 16
    requires 4 <= n <= PaddingLen(payloadLen, block)
    requires if block == 8 then (5 + payloadLen + n) % 8 == 0 else (5 + payloadLen + n) % 16 == 0
    ensures n == PaddingLen(payloadLen, block)
  {
    var d := PaddingLen(payloadLen, block) - n;
    if block == 8 {
      assert d % 8 == 0 && d < 8;
    } else {
      assert d % 16 == 0 && d < 16;
    }
  }

  lemma PaddingUnfold(x: bv32, n: nat)
    ensures n == 0 ==> Padding(x, n) == []
    ensures n > 0 ==> Padding(x, n) == [LowByte(NextRandom(x))] + Padding(NextRandom(x), n - 1)
  {
    hide NextRandom, LowByte;
  }

  method FillPadding(seed: bv32, n: nat) returns (padding: Bytes)
    ensures padding == Padding(seed, n)
  {
    hide NextRandom, Padding, LowByte;
    var x := seed;
    padding := [];
    assert padding + Padding(x, n) == Padding(seed, n);
    for i := 0 to n
      invariant padding + Padding(x, n - i) == Padding(seed, n)
    {
      PaddingUnfold(x, n - i);
      ghost var done := padding;
      x := NextRandom(x);
      var b := LowByte(x);
      padding := padding + [b];
      assert padding + Padding(x, n - i - 1) == done + ([b] + Padding(x, n - i - 1));
    }
    PaddingUnfold(x, 0);
  }

  /** How many empty reads the blocking receiver waits for. */
  const ATTEMPTS: nat := 800

  /** How much a read delivers of the bytes in flight into the room there is. */
  function Delivered(deliveries: seq<nat>, inFlight: nat, room: nat): nat {
    var most := if inFlight < room then inFlight else room;
    if deliveries != [] && deliveries[0] < most then deliveries[0] else most
  }

  /** How often the network delivers nothing. */
  function Stalls(deliveries: seq<nat>): nat {
    if deliveries == [] then 0 else (if deliveries[0] == 0 then 1 else 0) + Stalls(deliveries[1..])
  }

  lemma StallsFirst(deliveries: seq<nat>)
    ensures deliveries == [] ==> Stalls(deliveries) == 0
    ensures deliveries != [] ==> Stalls(deliveries) == (if deliveries[0] == 0 then 1 else 0) + Stalls(deliveries[1..])
  {}

  datatype Outcome = Received(payload: Bytes) | NothingYet | Refused | TimedOut

  class Receiver {
    var cipher: Cipher
    var st: Session
    const buf: array<bv8>
    var off: nat
    var len: nat
    // What the peer has sent and the socket has not delivered, and how much each coming read delivers; once
    // that list is used up, as much as fits.
    var net: Bytes
    var deliveries: seq<nat>
    ghost var packets: nat

    ghost predicate Valid()
      reads this
    {
      && buf.Length == STREAM_BUF && off <= len <= STREAM_BUF
      && st.seqNo == packets % TWO_TO_32
    }

    /** The part of the stream that has arrived, and the whole of it. */
    ghost function Arrived(): Bytes
      requires Valid()
      reads this, buf
    {
      buf[off..len]
    }

    ghost function Stream(): Bytes
      requires Valid()
      reads this, buf
    {
      Arrived() + net
    }

    constructor (net: Bytes, deliveries: seq<nat>)
      ensures Valid() && cipher == Plain && st == Session(0, 0) && Stream() == net && packets == 0 && fresh(buf)
      ensures this.deliveries == deliveries
    {
      cipher, st, off, len, packets := Plain, Session(0, 0), 0, 0, 0;
      this.net, this.deliveries := net, deliveries;
      buf := new bv8[STREAM_BUF];
    }

    method InstallKeys(keys: Keys) returns (ok: bool)
      requires Valid()
      modifies this`cipher, this`st
      ensures Valid() && Stream() == old(Stream()) && ok == keys.Installable()
      ensures if ok then cipher == keys.Cipher() && st == Rekeyed(old(st)) else cipher == old(cipher) && st == old(st)
    {
      ok := keys.Installable();
      if ok {
        cipher, st := keys.Cipher(), Session(st.seqNo, 0);
      }
    }

    /** The socket: the next delivery of the bytes in flight, possibly none, into the buffer from len on. */
    method NetRecv() returns (n: nat)
      requires Valid()
      modifies this`net, this`len, this`deliveries, buf
      ensures Valid() && len == old(len) + n && Stream() == old(Stream()) && old(Arrived()) <= Arrived()
      ensures deliveries == if old(deliveries) == [] then [] else old(deliveries)[1..]
      ensures n == Delivered(old(deliveries), |old(net)|, STREAM_BUF - old(len)) && net == old(net)[n..]
    {
      n := if |net| < STREAM_BUF - len then |net| else STREAM_BUF - len;
      if deliveries != [] {
        n := if deliveries[0] < n then deliveries[0] else n;
        deliveries := deliveries[1..];
      }
      ghost var before := buf[..len];
      CopyIn(n);
      Delivers(before, off, buf[..len + n], net, n);
      assert before[off..] == old(Arrived()) && buf[off..len + n] == buf[..len + n][off..];
      net := net[n..];
      len := len + n;
    }

    method CopyIn(n: nat)
      requires Valid() && n <= |net| && len + n <= STREAM_BUF
      modifies buf
      ensures buf[..len + n] == old(buf[..len]) + net[..n]
    {
      for i := 0 to n
        modifies buf
        invariant buf[..len + i] == old(buf[..len]) + net[..i]
      {
        buf[len + i] := net[i];
        assert net[..i + 1] == net[..i] + [net[i]];
      }
    }

    /** Moves the unread part of the buffer to its front. */
    method Compact()
      requires Valid()
      modifies this`off, this`len, buf
      ensures Valid() && off == 0 && Arrived() == old(Arrived())
    {
      if off == 0 {
        return;
      }
      if off >= len {
        off, len := 0, 0;
        return;
      }
      ghost var unread := buf[off..len];
      var remain := len - off;
      for i := 0 to remain
        modifies buf
        invariant buf[..i] == unread[..i]
        invariant buf[off + i..len] == unread[i..]
      {
        assert buf[off + i] == unread[i] by {
          assert buf[off + i..len][0] == unread[i..][0];
        }
        assert buf[off + i + 1..len] == unread[i + 1..] by {
          assert buf[off + i..len][1..] == unread[i..][1..];
        }
        buf[i] := buf[off + i];
        assert unread[..i + 1] == unread[..i] + [unread[i]];
      }
      off, len := 0, remain;
    }

    method FillOnce()
      requires Valid()
      modifies this`off, this`len, this`net, this`deliveries, buf
      ensures Valid() && off == 0 && Stream() == old(Stream())
      ensures |deliveries| <= |old(deliveries)|
      ensures |deliveries| == |old(deliveries)| ==> net == [] || len == STREAM_BUF
    {
      Compact();
      if len >= STREAM_BUF {
        return;
      }
      var n := NetRecv();
    }

    /** Reads exactly need bytes, waiting for at most the given number of empty reads. It succeeds if the stream has
        the bytes and the network stalls less often. */
    method TcpRecvExact(need: nat, attemptsMax: nat) returns (ok: bool, out: Bytes)
      requires Valid()
      modifies this`off, this`len, this`net, this`deliveries, buf
      ensures Valid() && Stalls(deliveries) <= Stalls(old(deliveries))
      ensures ok ==> need <= |old(Stream())| && out == old(Stream())[..need] && Stream() == old(Stream())[need..]
      ensures !ok ==> need > |old(Stream())| || Stalls(old(deliveries)) >= attemptsMax
    {
      hide Stalls;
      out := [];
      var attempts := 0;
      ghost var stream := Stream();
      assert stream[..0] == [] && stream[0..] == stream;
      while |out| < need && attempts < attemptsMax
        invariant Valid() && |out| <= need && |out| <= |stream|
        invariant out == stream[..|out|] && Stream() == stream[|out|..]
        invariant need <= |stream| ==> attempts + Stalls(deliveries) <= Stalls(old(deliveries))
        invariant Stalls(deliveries) <= Stalls(old(deliveries))
        decreases need - |out|, attemptsMax - attempts
      {
        if off >= len {
          off, len := 0, 0;
          StallsFirst(deliveries);
          var n := NetRecv();
          if n == 0 {
            attempts := attempts + 1;
            continue;
          }
        }
        var take := if need - |out| < len - off then need - |out| else len - off;
        var chunk := TakeFromBuffer(take);
        TakeMore(stream, out, chunk, Stream());
        out := out + chunk;
      }
      ok := |out| == need;
    }

    method TakeFromBuffer(n: nat) returns (chunk: Bytes)
      requires Valid() && off + n <= len
      modifies this`off
      ensures Valid() && |chunk| == n && old(Stream()) == chunk + Stream()
    {
      chunk := buf[off..off + n];
      assert buf[off..len] == buf[off..off + n] + buf[off + n..len];
      off := off + n;
    }

    ghost predicate Took(before: Bytes, stBefore: Session, packetsBefore: nat, cap: nat, r: Outcome)
      requires Valid() && r.Received?
      reads this, buf
    {
      match Next(cipher, stBefore, before, cap)
      case Packet(payload, consumed, total) =>
        && consumed <= |before| && payload == r.payload
        && Stream() == before[consumed..] && st == After(cipher, stBefore, total) && packets == packetsBefore + 1
      case _ => false
    }

    lemma TookPacket(before: Bytes, stBefore: Session, packetsBefore: nat, cap: nat, payload: Bytes, consumed: nat,
                     total: nat)
      requires Valid() && Next(cipher, stBefore, before, cap) == Packet(payload, consumed, total)
      requires consumed <= |before| && Stream() == before[consumed..]
      requires st == After(cipher, stBefore, total) && packets == packetsBefore + 1
      ensures Took(before, stBefore, packetsBefore, cap, Received(payload))
    {
      hide Next, After;
    }

    /** The blocking receiver: waits for the whole packet. */
    method RecvPacket(cap: nat) returns (r: Outcome)
      requires Valid() && cap > 0
      modifies this, buf
      ensures Valid() && cipher == old(cipher) && !r.NothingYet?
      ensures r.Received? ==> Took(old(Stream()), old(st), old(packets), cap, r)
      ensures r.Refused? ==> Next(cipher, old(st), old(Stream()), cap) == Bad
      ensures !r.Received? ==> packets == old(packets) && st.seqNo == old(st.seqNo)
      ensures Stalls(deliveries) <= Stalls(old(deliveries))
      ensures r.TimedOut? ==>
        Next(cipher, old(st), old(Stream()), cap) == Need || Stalls(old(deliveries)) >= ATTEMPTS
    {
      hide Stalls;
      match cipher {
        case Plain => r := RecvPlain(cap);
        case Ctr(stream, mac) => r := RecvEncrypted(cap, stream, mac);
      }
    }

    method RecvPlain(cap: nat) returns (r: Outcome)
      requires Valid() && cap > 0 && cipher.Plain?
      modifies this, buf
      ensures Valid() && cipher == old(cipher) && !r.NothingYet?
      ensures r.Received? ==> Took(old(Stream()), old(st), old(packets), cap, r)
      ensures r.Refused? ==> Next(cipher, old(st), old(Stream()), cap) == Bad
      ensures !r.Received? ==> packets == old(packets) && st == old(st)
      ensures Stalls(deliveries) <= Stalls(old(deliveries))
      ensures r.TimedOut? ==>
        Next(cipher, old(st), old(Stream()), cap) == Need || Stalls(old(deliveries)) >= ATTEMPTS
    {
      hide ReadBe32, Next, Unpack, After, Took, Stalls;
      ghost var input := Stream();
      var ok, hdr := TcpRecvExact(5, ATTEMPTS);
      if !ok {
        TooShort5(st, input, cap);
        return TimedOut;
      }
      HeaderOnly(hdr, input);
      var packetLen := ReadBe32(hdr);
      PlainByHeader(st, input, cap, packetLen);
      if packetLen < 2 || packetLen > MAX_PACKET - 4 {
        return Refused;
      }
      r := RecvPlainBody(cap, hdr, packetLen, input);
      if r.Received? {
        var total := 4 + packetLen;
        CountAdvances(cipher, old(st), total);
        TookPacket(input, old(st), old(packets), cap, r.payload, total, total);
      }
    }

    /** What follows the first five bytes of an unencrypted packet. */
    method RecvPlainBody(cap: nat, hdr: Bytes, packetLen: nat, ghost input: Bytes) returns (r: Outcome)
      requires Valid() && packetLen > 0 && |input| >= 5 && hdr == input[..5] && Stream() == input[5..]
      modifies this, buf
      ensures Valid() && cipher == old(cipher) && !r.NothingYet?
      ensures !r.Received? ==> packets == old(packets) && st == old(st)
      ensures !r.TimedOut? ==> 4 + packetLen <= |input|
      ensures Stalls(deliveries) <= Stalls(old(deliveries))
      ensures r.TimedOut? ==> |input| < 4 + packetLen || Stalls(old(deliveries)) >= ATTEMPTS
      ensures r.Refused? ==> Unpack(input[..4 + packetLen], cap, 4 + packetLen) == Bad
      ensures r.Received? ==>
                && Unpack(input[..4 + packetLen], cap, 4 + packetLen) == Packet(r.payload, 4 + packetLen, 4 + packetLen)
                && Stream() == input[4 + packetLen..] && st == After(cipher, old(st), 4 + packetLen)
                && packets == old(packets) + 1
    {
      hide ReadBe32, Next, Unpack, After, Stalls;
      var ok, body := TcpRecvExact(packetLen - 1, ATTEMPTS);
      if !ok {
        return TimedOut;
      }
      var total := 4 + packetLen;
      HeaderAndBody(input, hdr, body);
      UnpackUnfold(hdr + body, cap, total);
      var payloadLen := packetLen - 1 - NumOf(hdr[4]);
      if payloadLen <= 0 || payloadLen > cap {
        return Refused;
      }
      st := After(cipher, st, total);
      packets := packets + 1;
      r := Received(body[..payloadLen]);
      CountAdvances(cipher, old(st), total);
    }

    lemma CountAdvances(c: Cipher, before: Session, total: nat)
      ensures After(c, before, total).seqNo == (before.seqNo + 1) % TWO_TO_32
    {}

    method RecvEncrypted(cap: nat, stream: nat -> bv8, mac: (nat, Bytes) -> Bytes) returns (r: Outcome)
      requires Valid() && cap > 0 && cipher == Ctr(stream, mac)
      modifies this, buf
      ensures Valid() && cipher == old(cipher) && !r.NothingYet?
      ensures r.Received? ==> Took(old(Stream()), old(st), old(packets), cap, r)
      ensures r.Refused? ==> Next(cipher, old(st), old(Stream()), cap) == Bad
      ensures !r.Received? ==> packets == old(packets) && st.seqNo == old(st.seqNo)
      ensures Stalls(deliveries) <= Stalls(old(deliveries))
      ensures r.TimedOut? ==>
        Next(cipher, old(st), old(Stream()), cap) == Need || Stalls(old(deliveries)) >= ATTEMPTS
    {
      hide ReadBe32, Crypt, Next, Unpack, Stalls;
      ghost var input := Stream();
      TooShort(stream, mac, st, input, cap);
      var ok, first := TcpRecvExact(AES_BLOCK, ATTEMPTS);
      if !ok {
        return TimedOut;
      }
      var packet := Crypt(first, stream, st.pos);
      var packetLen := ReadBe32(packet);
      BadHeader(stream, mac, st, input, cap, packetLen);
      st := st.(pos := st.pos + AES_BLOCK);
      if packetLen < 2 || packetLen > MAX_PACKET - 4 {
        return Refused;
      }
      var total := 4 + packetLen;
      if total < AES_BLOCK || total % AES_BLOCK != 0 {
        return Refused;
      }
      ok, packet := RecvRest(first, packet, total, stream, input);
      if !ok {
        return TimedOut;
      }
      WholePacket(stream, mac, old(st), input, cap, total);
      ghost var rest := input[total..];
      r := FinishPacket(cap, mac, packet, rest);
      if MAC_LEN <= |rest| {
        assert rest[..MAC_LEN] == input[total..total + MAC_LEN] && rest[MAC_LEN..] == input[total + MAC_LEN..];
      }
    }

    /** Checks the MAC that follows a decrypted packet and takes the payload out. */
    method FinishPacket(cap: nat, mac: (nat, Bytes) -> Bytes, packet: Bytes, ghost rest: Bytes) returns (r: Outcome)
      requires Valid() && |packet| >= 5 && Stream() == rest
      modifies this`off, this`len, this`net, this`deliveries, this`st, this`packets, buf
      ensures Valid() && !r.NothingYet? && Stalls(deliveries) <= Stalls(old(deliveries))
      ensures r.TimedOut? ==> |rest| < MAC_LEN || Stalls(old(deliveries)) >= ATTEMPTS
      ensures !r.Received? ==> packets == old(packets) && st == old(st)
      ensures r.Refused? ==>
                MAC_LEN <= |rest| &&
                (mac(old(st.seqNo), packet) != rest[..MAC_LEN] || Unpack(packet, cap, |packet| + MAC_LEN) == Bad)
      ensures r.Received? ==>
                && MAC_LEN <= |rest| && mac(old(st.seqNo), packet) == rest[..MAC_LEN]
                && Unpack(packet, cap, |packet| + MAC_LEN) == Packet(r.payload, |packet| + MAC_LEN, |packet|)
                && Stream() == rest[MAC_LEN..] && packets == old(packets) + 1
                && st == old(st).(seqNo := (old(st.seqNo) + 1) % TWO_TO_32)
    {
      hide Unpack, Stalls;
      var ok, macWire := TcpRecvExact(MAC_LEN, ATTEMPTS);
      if !ok {
        return TimedOut;
      }
      if mac(st.seqNo, packet) != macWire {
        return Refused;
      }
      var payloadLen := |packet| - 5 - NumOf(packet[4]);
      UnpackUnfold(packet, cap, |packet| + MAC_LEN);
      if payloadLen <= 0 || payloadLen > cap {
        return Refused;
      }
      st := st.(seqNo := (st.seqNo + 1) % TWO_TO_32);
      packets := packets + 1;
      r := Received(packet[5..5 + payloadLen]);
    }

    /** Receives and decrypts what follows the first block of a packet. */
    method RecvRest(first: Bytes, head: Bytes, total: nat, stream: nat -> bv8, ghost input: Bytes)
      returns (ok: bool, packet: Bytes)
      requires Valid() && AES_BLOCK <= total && st.pos >= AES_BLOCK && |input| >= AES_BLOCK
      requires first == input[..AES_BLOCK] && Stream() == input[AES_BLOCK..]
      requires head == Crypt(first, stream, st.pos - AES_BLOCK)
      modifies this`off, this`len, this`net, this`deliveries, this`st, buf
      ensures Valid() && packets == old(packets) && st.seqNo == old(st.seqNo)
      ensures Stalls(deliveries) <= Stalls(old(deliveries))
      ensures !ok ==> |input| < total || Stalls(old(deliveries)) >= ATTEMPTS
      ensures ok ==>
                && total <= |input| && packet == Crypt(input[..total], stream, old(st.pos) - AES_BLOCK)
                && Stream() == input[total..] && st.pos == old(st.pos) + total - AES_BLOCK
    {
      hide Crypt, Stalls;
      packet := head;
      var remain := total - AES_BLOCK;
      if remain > 0 {
        var more;
        ok, more := TcpRecvExact(remain, ATTEMPTS);
        if !ok {
          return;
        }
        packet := packet + Crypt(more, stream, st.pos);
        st := st.(pos := st.pos + remain);
        assert more == input[AES_BLOCK..total] && Stream() == input[total..];
      }
      JoinBlocks(input, first, total, stream, old(st.pos) - AES_BLOCK, packet);
      ok := true;
    }

    /** The polling receiver: takes a packet only if all of it has arrived. Nothing but the
        buffer's layout changes unless a packet is taken. */
    method TryRecvPacket(cap: nat) returns (r: Outcome)
      requires Valid() && cap > 0
      modifies this, buf
      ensures Valid() && cipher == old(cipher) && !r.TimedOut?
      ensures r.Received? ==> Took(old(Stream()), old(st), old(packets), cap, r)
      ensures r.Refused? ==> Next(cipher, st, Stream(), cap) == Bad
      ensures !r.Received? ==> Stream() == old(Stream()) && st == old(st) && packets == old(packets)
      ensures r.NothingYet? ==> Next(cipher, st, Arrived(), cap) == Need && |Arrived()| < STREAM_BUF
      ensures |deliveries| <= |old(deliveries)|
      ensures r.NothingYet? && |deliveries| == |old(deliveries)| ==> Next(cipher, st, Stream(), cap) == Need
    {
      hide Next, After, Decided, Took;
      FillOnce();
      ghost var arrived := Arrived();
      r := PollBuffer(cap);
      DecidedOnStream(arrived, old(st), old(packets), cap, r);
      if r.NothingYet? && |deliveries| == |old(deliveries)| {
        assert |Stream()| == |arrived + net|;
        assert Stream() == Arrived();
      }
    }

    /** An outcome by what has arrived holds for the whole stream. */
    lemma DecidedOnStream(arrived: Bytes, stBefore: Session, packetsBefore: nat, cap: nat, r: Outcome)
      requires Valid() && Decided(arrived, stBefore, packetsBefore, cap, r)
      ensures !r.TimedOut?
      ensures r.Received? ==> Took(arrived + net, stBefore, packetsBefore, cap, r)
      ensures r.Refused? ==> Next(cipher, st, Stream(), cap) == Bad
      ensures !r.Received? ==> Stream() == arrived + net && st == stBefore && packets == packetsBefore
      ensures r.NothingYet? ==> Next(cipher, st, Arrived(), cap) == Need && |Arrived()| < STREAM_BUF
    {
      hide Next, After;
      FillDecides(arrived, cap, stBefore);
      if !r.NothingYet? {
        NextIsStable(cipher, stBefore, arrived, net, cap);
        if r.Received? {
          var consumed := Next(cipher, stBefore, arrived, cap).consumed;
          assert (arrived + net)[consumed..] == arrived[consumed..] + net;
        }
      }
    }

    method PollBuffer(cap: nat) returns (r: Outcome)
      requires Valid() && cap > 0 && off == 0
      modifies this`off, this`len, this`st, this`packets, buf
      ensures Valid() && off == 0
      ensures Decided(old(Arrived()), old(st), old(packets), cap, r)
    {
      hide Next, After, Decided;
      match cipher {
        case Plain => r := TryPlain(cap);
        case Ctr(stream, mac) => r := TryEncrypted(cap, stream, mac);
      }
    }

    lemma FillDecides(arrived: Bytes, cap: nat, before: Session)
      ensures Next(cipher, before, arrived, cap) == Need ==> |arrived| < STREAM_BUF
    {
      if |arrived| >= STREAM_BUF {
        FullBufferDecides(cipher, before, arrived, cap);
      }
    }

    method TryPlain(cap: nat) returns (r: Outcome)
      requires Valid() && cap > 0 && off == 0 && cipher.Plain?
      modifies this`off, this`len, this`st, this`packets, buf
      ensures Valid() && off == 0
      ensures Decided(old(Arrived()), old(st), old(packets), cap, r)
    {
      hide ReadBe32, Unpack;
      var input := buf[off..len];
      if |input| < 5 {
        return NothingYet;
      }
      var packetLen := ReadBe32(input);
      if packetLen < 2 || packetLen > MAX_PACKET - 4 {
        return Refused;
      }
      var total := 4 + packetLen;
      if |input| < total {
        return NothingYet;
      }
      var packet := input[..total];
      var payloadLen := packetLen - 1 - NumOf(packet[4]);
      UnpackUnfold(packet, cap, total);
      if payloadLen <= 0 || payloadLen > cap {
        return Refused;
      }
      r := Received(packet[5..5 + payloadLen]);
      Consume(total, total);
    }

    /** Takes a packet out of the buffer. */
    method Consume(consumed: nat, total: nat)
      requires Valid() && off == 0 && consumed <= len
      modifies this`off, this`len, this`st, this`packets, buf
      ensures Valid() && off == 0 && Arrived() == old(Arrived())[consumed..]
      ensures st == After(cipher, old(st), total) && packets == old(packets) + 1
    {
      st := After(cipher, st, total);
      packets := packets + 1;
      ghost var input := buf[0..len];
      off := consumed;
      assert buf[off..len] == input[consumed..];
      Compact();
    }

    /** The outcome of a poll, by what has arrived. */
    ghost predicate Decided(input: Bytes, stBefore: Session, packetsBefore: nat, cap: nat, r: Outcome)
      requires Valid()
      reads this, buf
    {
      match Next(cipher, stBefore, input, cap)
      case Need => r.NothingYet? && Arrived() == input && st == stBefore && packets == packetsBefore
      case Bad => r.Refused? && Arrived() == input && st == stBefore && packets == packetsBefore
      case Packet(payload, consumed, total) =>
        && consumed <= |input| && r == Received(payload) && Arrived() == input[consumed..]
        && st == After(cipher, stBefore, total) && packets == packetsBefore + 1
    }

    method TryEncrypted(cap: nat, stream: nat -> bv8, mac: (nat, Bytes) -> Bytes) returns (r: Outcome)
      requires Valid() && cap > 0 && off == 0 && cipher == Ctr(stream, mac)
      modifies this`off, this`len, this`st, this`packets, buf
      ensures Valid() && off == 0
      ensures Decided(old(Arrived()), old(st), old(packets), cap, r)
    {
      hide ReadBe32, Crypt, Next, Unpack, After;
      var input := buf[off..len];
      TooShort(stream, mac, st, input, cap);
      if |input| < AES_BLOCK {
        return NothingYet;
      }
      // The header is decrypted on a copy of the cipher state.
      var first := Crypt(input[..AES_BLOCK], stream, st.pos);
      var packetLen := ReadBe32(first);
      BadHeader(stream, mac, st, input, cap, packetLen);
      if packetLen < 2 || packetLen > MAX_PACKET - 4 {
        return Refused;
      }
      var total := 4 + packetLen;
      if total < AES_BLOCK || total % AES_BLOCK != 0 {
        return Refused;
      }
      var totalWithMac := total + MAC_LEN;
      if |input| < totalWithMac {
        return NothingYet;
      }
      WholePacket(stream, mac, st, input, cap, total);
      var packet := Crypt(input[..total], stream, st.pos);
      if mac(st.seqNo, packet) != input[total..totalWithMac] {
        return Refused;
      }
      var payloadLen := packetLen - 1 - NumOf(packet[4]);
      UnpackUnfold(packet, cap, totalWithMac);
      if payloadLen <= 0 || payloadLen > cap {
        return Refused;
      }
      r := Received(packet[5..5 + payloadLen]);
      Consume(totalWithMac, total);
    }
  }

  lemma Delivers(had: Bytes, off: nat, has: Bytes, net: Bytes, n: nat)
    requires off <= |had| && n <= |net| && has == had + net[..n]
    ensures has[off..] == had[off..] + net[..n] && has[off..] + net[n..] == had[off..] + net
  {}

  lemma HeaderAndBody(input: Bytes, hdr: Bytes, body: Bytes)
    requires |hdr| == 5 && 5 + |body| <= |input| && hdr == input[..5] && body == input[5..][..|body|]
    ensures input[..5 + |body|] == hdr + body && input[5..][|body|..] == input[5 + |body|..]
    ensures (hdr + body)[4] == hdr[4]
    ensures forall n :: 0 <= n <= |body| ==> (hdr + body)[5..5 + n] == body[..n]
  {}

  lemma PlainByHeader(st: Session, input: Bytes, cap: nat, packetLen: nat)
    requires |input| >= 5 && packetLen == ReadBe32(input)
    ensures Next(Plain, st, input, cap) ==
            if packetLen < 2 || packetLen > MAX_PACKET - 4 then Bad
            else if |input| < 4 + packetLen then Need
            else Unpack(input[..4 + packetLen], cap, 4 + packetLen)
  {
    hide ReadBe32, Unpack;
  }

  lemma TooShort5(st: Session, input: Bytes, cap: nat)
    ensures |input| < 5 ==> Next(Plain, st, input, cap) == Need
  {}

  lemma TooShort(stream: nat -> bv8, mac: (nat, Bytes) -> Bytes, st: Session, input: Bytes, cap: nat)
    ensures |input| < AES_BLOCK ==> Next(Ctr(stream, mac), st, input, cap) == Need
    ensures |input| >= AES_BLOCK ==>
              var total := 4 + ReadBe32(Crypt(input[..AES_BLOCK], stream, st.pos));
              AES_BLOCK <= total <= MAX_PACKET && total % AES_BLOCK == 0 && |input| < total + MAC_LEN ==>
                Next(Ctr(stream, mac), st, input, cap) == Need
  {
    hide ReadBe32, Crypt;
  }

  lemma TakeMore(stream: Bytes, out: Bytes, chunk: Bytes, rest: Bytes)
    requires |out| <= |stream| && out == stream[..|out|] && stream[|out|..] == chunk + rest
    ensures out + chunk == stream[..|out + chunk|] && rest == stream[|out + chunk|..]
  {
    assert stream == out + (chunk + rest);
  }

  lemma BadHeader(stream: nat -> bv8, mac: (nat, Bytes) -> Bytes, st: Session, input: Bytes, cap: nat, packetLen: nat)
    requires |input| >= AES_BLOCK && packetLen == ReadBe32(Crypt(input[..AES_BLOCK], stream, st.pos))
    ensures || packetLen < 2 || packetLen > MAX_PACKET - 4
            || 4 + packetLen < AES_BLOCK || (4 + packetLen) % AES_BLOCK != 0 ==>
              Next(Ctr(stream, mac), st, input, cap) == Bad
  {
    hide ReadBe32, Crypt;
  }

  lemma WholePacket(stream: nat -> bv8, mac: (nat, Bytes) -> Bytes, st: Session, input: Bytes, cap: nat, total: nat)
    requires AES_BLOCK <= total <= MAX_PACKET && total % AES_BLOCK == 0 && total <= |input|
    requires total - 4 == ReadBe32(Crypt(input[..AES_BLOCK], stream, st.pos))
    ensures total + MAC_LEN <= |input| ==>
            var packet := Crypt(input[..total], stream, st.pos);
            Next(Ctr(stream, mac), st, input, cap)
            == if mac(st.seqNo, packet) != input[total..total + MAC_LEN] then Bad
               else Unpack(packet, cap, total + MAC_LEN)
  {
    hide ReadBe32, Crypt, Unpack;
  }

  lemma UnpackUnfold(packet: Bytes, cap: nat, consumed: nat)
    requires |packet| >= 5
    ensures var n := |packet| - 5 - NumOf(packet[4]);
            Unpack(packet, cap, consumed) ==
            if n <= 0 || n > cap then Bad else Packet(packet[5..5 + n], consumed, |packet|)
  {}

  /** Decrypting the first block and the rest separately decrypts the packet. */
  lemma JoinBlocks(input: Bytes, first: Bytes, total: nat, stream: nat -> bv8, pos: nat, packet: Bytes)
    requires AES_BLOCK <= total <= |input| && first == input[..AES_BLOCK]
    requires packet == if total == AES_BLOCK then Crypt(first, stream, pos)
                       else Crypt(first, stream, pos) + Crypt(input[AES_BLOCK..total], stream, pos + AES_BLOCK)
    ensures packet == Crypt(input[..total], stream, pos)
  {
    CryptSplit(input[..total], stream, pos, AES_BLOCK);
    assert input[..total][..AES_BLOCK] == first && input[..total][AES_BLOCK..] == input[AES_BLOCK..total];
    if total == AES_BLOCK {
      assert input[..total] == first;
    }
  }
}
