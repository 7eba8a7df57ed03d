/** Both ends together: what is sent item by item is received packet by packet, however the network splits it. */
module SshConversation {
  import opened Numbers
  import opened ByteNumbers
  import opened SshPacket
  import opened SshTransport
  import opened SshTraffic

  /** Sends a payload or installs keys; the socket takes so many more bytes before it fails. */
  method SendItem(s: Sender, item: Item, room: nat) returns (ok: bool)
    requires s.Valid() && ValidCipher(s.cipher) && ValidItem(item)
    modifies s
    ensures s.Valid() && ValidCipher(s.cipher)
    ensures ok <==> Sendable(item) && |ItemWire(old(s.cipher), old(s.st), item)| <= room
    ensures ok ==>
              && s.sent == old(s.sent) + ItemWire(old(s.cipher), old(s.st), item)
              && s.cipher == ItemCipher(old(s.cipher), item)
              && s.st == ItemSession(old(s.cipher), old(s.st), item)
    ensures !ok && !Sendable(item) ==> s.sent == old(s.sent)
    ensures !ok && Sendable(item) ==> s.sent == old(s.sent) + ItemWire(old(s.cipher), old(s.st), item)[..room]
  {
    hide Wire, After, TotalLen, Usable, ValidCipher;
    match item
    case Say(payload, seed) => ok := s.SendPacket(payload, seed, room);
    case Rekey(keys) => ok := s.InstallKeys(keys);
  }

  /** Sends items until one is refused or the socket fails. Unless one is refused, all that is sent is the traffic seen
      as a whole, cut where the socket fails. */
  method SendAll(s: Sender, items: seq<Item>, room: nat) returns (ok: bool)
    requires s.Valid() && ValidCipher(s.cipher) && forall i :: i in items ==> ValidItem(i)
    modifies s
    ensures s.Valid()
    ensures var w := WireAll(old(s.cipher), old(s.st), items);
            && s.sent == old(s.sent) + w[..Upto(0, |w|, room)]
            && (ok <==> |w| <= room && forall i :: i in items ==> Sendable(i))
    ensures (forall i :: i in items ==> Sendable(i)) ==>
              var t := Traffic(old(s.cipher), old(s.packets), old(s.st.pos), items);
              s.sent == old(s.sent) + t[..Upto(0, |t|, room)]
  {
    hide ItemWire, ItemCipher, ItemSession, ValidCipher, WireAll, ValidItem, Sendable, Traffic;
    ghost var w := WireAll(s.cipher, s.st, items);
    ghost var start := s.sent;
    if forall i :: i in items ==> Sendable(i) {
      WireIsTraffic(s.cipher, s.packets, s.st.pos, items);
    }
    var left: nat := room;
    for i := 0 to |items|
      invariant s.Valid() && ValidCipher(s.cipher)
      invariant left <= room && |s.sent| == |start| + room - left
      invariant s.sent + WireAll(s.cipher, s.st, items[i..]) == start + w
      invariant forall j :: 0 <= j < i ==> Sendable(items[j])
    {
      assert items[i..][0] == items[i] && items[i..][1..] == items[i + 1..] && items[i] in items;
      WireAllFirst(s.cipher, s.st, items[i..]);
      ghost var before, first, rest := s.sent, ItemWire(s.cipher, s.st, items[i]), WireAll(s.cipher, s.st, items[i..]);
      var had := |s.sent|;
      ok := SendItem(s, items[i], left);
      if !ok {
        CutWhere(start, w, before, first, rest, room, left, Sendable(items[i]));
        return;
      }
      left := left - (|s.sent| - had);
    }
    assert items[|items|..] == [];
    WireAllFirst(s.cipher, s.st, []);
    assert s.sent == start + w;
    ok := true;
  }

  lemma WireAllFirst(c: Cipher, st: Session, items: seq<Item>)
    ensures WireAll(c, st, items) == if items == [] || !Sendable(items[0]) then []
              else
                ItemWire(c, st, items[0])
                + WireAll(ItemCipher(c, items[0]), ItemSession(c, st, items[0]), items[1..])
  {
    hide ItemWire, ItemCipher, ItemSession, Sendable;
  }

  /** Where a failing item leaves what was sent. */
  lemma CutWhere(start: Bytes, w: Bytes, before: Bytes, first: Bytes, rest: Bytes, room: nat, left: nat, fine: bool)
    requires before + rest == start + w && |before| == |start| + room - left && left <= room
    requires if fine then first <= rest && left < |first| else rest == []
    ensures var n := Upto(0, |w|, room);
            start + w[..n] == if fine then before + first[..left] else before
    ensures fine ==> |w| > room
  {
    var n := Upto(0, |w|, room);
    assert start <= before by {
      assert (before + rest)[..|start|] == start;
    }
    if fine {
      assert |w| == |before| + |rest| - |start|;
      assert (start + w)[..|start| + room] == (before + rest)[..|before| + left];
      assert (before + rest)[..|before| + left] == before + rest[..left];
      assert rest[..left] == first[..left];
      assert (start + w)[..|start| + room] == start + w[..room];
    }
  }

  /** The polling receiver: at most so many polls for what the turns ask. */
  method PollAll(r: Receiver, turns: seq<Turn>, cap: nat, polls: nat) returns (got: seq<Bytes>)
    requires r.Valid() && cap > 0
    modifies r, r.buf
    ensures r.Valid()
    ensures var all := ReceiveAll(old(r.cipher), old(r.st), old(r.Stream()), turns, cap);
            && got <= all
            && (polls >= |old(r.deliveries)| + |turns| ==> got == all)
  {
    hide ReceiveAll, Next, After;
    ghost var all := ReceiveAll(r.cipher, r.st, r.Stream(), turns, cap);
    got := [];
    var i, polled := 0, 0;
    ghost var deliveries := |r.deliveries|;
    assert turns[0..] == turns;
    while i < |turns| && polled < polls
      invariant r.Valid() && 0 <= i <= |turns| && |r.deliveries| <= deliveries
      invariant all == got + ReceiveAll(r.cipher, r.st, r.Stream(), turns[i..], cap)
      invariant
        || polled <= deliveries - |r.deliveries| + i
        || ReceiveAll(r.cipher, r.st, r.Stream(), turns[i..], cap) == []
      decreases polls - polled, |turns| - i
    {
      ReceiveTurn(r.cipher, r.st, r.Stream(), turns[i..], cap);
      assert turns[i..][0] == turns[i] && turns[i..][1..] == turns[i + 1..];
      match turns[i]
      case Install(keys) =>
        var ok := r.InstallKeys(keys);
        if !ok {
          return;
        }
        i := i + 1;
      case Await =>
        var outcome := r.TryRecvPacket(cap);
        polled := polled + 1;
        if outcome.Received? {
          got, i := got + [outcome.payload], i + 1;
        } else if outcome.Refused? {
          return;
        }
    }
    ReceiveTurn(r.cipher, r.st, r.Stream(), turns[i..], cap);
  }

  lemma ReceiveTurn(c: Cipher, st: Session, input: Bytes, turns: seq<Turn>, cap: nat)
    ensures ReceiveAll(c, st, input, turns, cap) ==
            if turns == [] then []
            else
              match turns[0]
              case Install(keys) =>
                if keys.Installable() then ReceiveAll(keys.Cipher(), Rekeyed(st), input, turns[1..], cap) else []
              case Await =>
                match Next(c, st, input, cap)
                case Packet(payload, consumed, total) =>
                  if consumed > |input| then []
                  else [payload] + ReceiveAll(c, After(c, st, total), input[consumed..], turns[1..], cap)
                case _ => []
  {
    hide Next, After, Usable;
  }

  /** The blocking receiver. */
  method WaitForAll(r: Receiver, turns: seq<Turn>, cap: nat) returns (got: seq<Bytes>)
    requires r.Valid() && cap > 0
    modifies r, r.buf
    ensures r.Valid()
    ensures var all := ReceiveAll(old(r.cipher), old(r.st), old(r.Stream()), turns, cap);
            && got <= all
            && (Stalls(old(r.deliveries)) < ATTEMPTS ==> got == all)
  {
    hide ReceiveAll, Next, After, Stalls;
    ghost var all := ReceiveAll(r.cipher, r.st, r.Stream(), turns, cap);
    got := [];
    assert turns[0..] == turns;
    for i := 0 to |turns|
      invariant r.Valid() && Stalls(r.deliveries) <= Stalls(old(r.deliveries))
      invariant all == got + ReceiveAll(r.cipher, r.st, r.Stream(), turns[i..], cap)
    {
      ReceiveTurn(r.cipher, r.st, r.Stream(), turns[i..], cap);
      assert turns[i..][0] == turns[i] && turns[i..][1..] == turns[i + 1..];
      match turns[i]
      case Install(keys) =>
        var ok := r.InstallKeys(keys);
        if !ok {
          return;
        }
      case Await =>
        var outcome := r.RecvPacket(cap);
        if !outcome.Received? {
          return;
        }
        got := got + [outcome.payload];
    }
    ReceiveTurn(r.cipher, r.st, r.Stream(), turns[|turns|..], cap);
  }

  /** A whole direction of traffic, received by polling and by waiting: whatever the socket of the sender takes and
      however the network splits it, both get the first of the payloads, in order; all of them if the socket takes
      everything and the receiver is patient enough. */
  method Converse(items: seq<Item>, cap: nat, room: nat, deliveries: seq<nat>, polls: nat)
    returns (polled: seq<Bytes>, waited: seq<Bytes>)
    requires cap > 0
    requires forall i :: i in items ==> ValidItem(i) && Sendable(i) && (i.Say? ==> |i.payload| <= cap)
    ensures polled <= Payloads(items) && waited <= Payloads(items)
    ensures |WireAll(Plain, Session(0, 0), items)| <= room && polls >= |deliveries| + |items| ==>
              polled == Payloads(items)
    ensures |WireAll(Plain, Session(0, 0), items)| <= room && Stalls(deliveries) < ATTEMPTS ==>
              waited == Payloads(items)
  {
    hide ReceiveAll, WireAll, Payloads, Stalls, ValidItem, Sendable;
    var s := new Sender();
    var ok := SendAll(s, items, room);
    ghost var w := WireAll(Plain, Session(0, 0), items);
    ConversationRoundTrip(Plain, Session(0, 0), items, [], cap);
    assert w + [] == w;
    CutOffReceives(Plain, Session(0, 0), s.sent, w[|s.sent|..], Turns(items), cap);
    assert s.sent + w[|s.sent|..] == w;
    var r := new Receiver(s.sent, deliveries);
    polled := PollAll(r, Turns(items), cap, polls);
    r := new Receiver(s.sent, deliveries);
    waited := WaitForAll(r, Turns(items), cap);
  }
}
