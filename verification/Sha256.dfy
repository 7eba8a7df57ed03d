/** The streaming hash of the checksum tool and of the SSH client. The first counts bytes, the second
    bits, and they add up the message schedule in opposite orders. */
module Sha256 {
  import opened Numbers
  import opened ByteNumbers
  import opened ByteRuns
  import opened Sha256Spec

  /** The running length of a message, in 64 bits. */
  function Counted(inBits: bool, n: nat): nat {
    (if inBits then 8 * n else n) % TWO_TO_64
  }

  class Context {
    const inBits: bool
    var state: State
    var length: nat
    const buffer: array<bv8>
    var bufferLen: nat
    /** Everything hashed so far. */
    ghost var message: Bytes

    ghost predicate Valid()
      reads this, buffer
    {
      && buffer.Length == BLOCK && bufferLen < BLOCK
      && Absorbed(message, state, buffer[..bufferLen])
      && length == Counted(inBits, |message|)
    }

    constructor (inBits: bool)
      ensures Valid() && message == [] && this.inBits == inBits && fresh(buffer)
    {
      this.inBits := inBits;
      state := INITIAL;
      length := 0;
      buffer := new bv8[BLOCK];
      bufferLen := 0;
      message := [];
      AbsorbedStart();
      new;
      assert buffer[..0] == [];
    }

    method Transform()
      requires buffer.Length == BLOCK
      modifies this`state
      ensures state == Compress(old(state), buffer[..])
    {
      hide Rounds, Schedule, Round, AddStates;
      var block := buffer[..];
      var w := ExpandWords(block, inBits);
      var s := state;
      RoundsNone(s, block);
      for i := 0 to 64
        modifies {}
        invariant s == Rounds(state, block, i)
      {
        RoundsNext(state, block, i);
        s := OneRound(s, K[i], w[i]);
      }
      state := AddStates(state, s);
    }

    /** Bytes that fit go to the buffer. */
    method Append(chunk: Bytes)
      requires buffer.Length == BLOCK && bufferLen + |chunk| <= BLOCK && Absorbed(message, state, buffer[..bufferLen])
      modifies this`bufferLen, this`message, buffer
      ensures bufferLen == old(bufferLen) + |chunk| && Absorbed(message, state, buffer[..bufferLen])
      ensures message == old(message) + chunk
    {
      hide Absorbed;
      ghost var partial := buffer[..bufferLen];
      CopyInto(chunk, buffer, bufferLen);
      bufferLen := bufferLen + |chunk|;
      assert buffer[..bufferLen] == partial + chunk;
      AbsorbMore(message, state, partial, chunk);
      message := message + chunk;
    }

    /** A full buffer is compressed. */
    method Flush()
      requires buffer.Length == BLOCK && bufferLen == BLOCK && Absorbed(message, state, buffer[..bufferLen])
      modifies this`state, this`bufferLen
      ensures bufferLen == 0 && Absorbed(message, state, buffer[..bufferLen])
    {
      hide Absorbed, Compress;
      assert buffer[..BLOCK] == buffer[..];
      AbsorbBlock(message, state, buffer[..]);
      Transform();
      bufferLen := 0;
      assert buffer[..0] == [];
    }

    method FillZeros(end: nat)
      requires buffer.Length == BLOCK && bufferLen <= end <= BLOCK && Absorbed(message, state, buffer[..bufferLen])
      modifies this`bufferLen, this`message, buffer
      ensures bufferLen == end && Absorbed(message, state, buffer[..bufferLen])
      ensures message == old(message) + Zeros(end - old(bufferLen))
    {
      hide Absorbed;
      while bufferLen < end
        invariant old(bufferLen) <= bufferLen <= end && Absorbed(message, state, buffer[..bufferLen])
        invariant message == old(message) + Zeros(bufferLen - old(bufferLen))
        decreases end - bufferLen
      {
        Append([0]);
      }
    }

    /** Adds bytes to the message, however it is split into calls. */
    method Update(data: Bytes)
      requires Valid()
      modifies this, buffer
      ensures Valid() && message == old(message) + data
    {
      hide Absorbed, Counted;
      if data == [] {
        assert message == message + data;
        return;
      }
      CountMore(inBits, |message|, |data|);
      length := (length + if inBits then 8 * |data| else |data|) % TWO_TO_64;
      var off := 0;
      assert message + data[..0] == message;
      while off < |data|
        modifies this`state, this`bufferLen, this`message, buffer
        invariant 0 <= off <= |data| && bufferLen < BLOCK
        invariant Absorbed(message, state, buffer[..bufferLen]) && message == old(message) + data[..off]
      {
        var space := BLOCK - bufferLen;
        var take := if |data| - off > space then space else |data| - off;
        assert data[..off + take] == data[..off] + data[off..off + take];
        Append(data[off..off + take]);
        off := off + take;
        if bufferLen == BLOCK {
          Flush();
        }
      }
      assert data[..|data|] == data;
    }

    /** The digest of the whole message. */
    method Final() returns (digest: Bytes)
      requires Valid()
      modifies this, buffer
      ensures digest == Digest(old(message))
    {
      hide Absorbed, Digest, Fold, Be64, StateBytes, Zeros, Counted;
      ghost var whole, start, partial := message, state, buffer[..bufferLen];
      CountedBits(inBits, |message|);
      var bits := if inBits then length else length * 8 % TWO_TO_64;
      PartialLength(message, state, partial);
      Append([0x80]);
      ghost var first := 0;
      if bufferLen > 56 {
        first := BLOCK - bufferLen;
        FillZeros(BLOCK);
        Flush();
      } else {
        NoZeros(message);
      }
      ghost var second := 56 - bufferLen;
      FillZeros(56);
      Append(Be64(bits));
      Flush();
      assert buffer[..0] == [];
      PaddingPieces(whole, first, second, Be64(bits));
      AbsorbedAll(whole, start, partial, [0x80] + Zeros(PadZeros(|whole|)) + Be64(bits), state);
      digest := StateBytes(state);
    }
  }

  /** The message schedule in an array. */
  method ExpandWords(block: Bytes, backward: bool) returns (words: seq<bv32>)
    requires |block| == BLOCK
    ensures |words| == 64 && forall t :: 0 <= t < 64 ==> words[t] == Schedule(block, t)
  {
    hide SmallSigma0, SmallSigma1, Word, Sum4;
    var w := new bv32[64];
    for i := 0 to 16
      invariant forall t :: 0 <= t < i ==> w[t] == Schedule(block, t)
    {
      w[i] := Word(block[4 * i..4 * i + 4]);
    }
    for i := 16 to 64
      invariant forall t :: 0 <= t < i ==> w[t] == Schedule(block, t)
    {
      var s0, s1 := SmallSigma0(w[i - 15]), SmallSigma1(w[i - 2]);
      SumInAnyOrder(s1, w[i - 7], s0, w[i - 16]);
      w[i] := if backward then Sum4(w[i - 16], s0, w[i - 7], s1) else Sum4(s1, w[i - 7], s0, w[i - 16]);
    }
    words := w[..];
  }

  method OneRound(s: State, k: bv32, w: bv32) returns (r: State)
    ensures r == Round(s, k, w)
  {
    hide BigSigma0, BigSigma1, Ch, Maj, Add, Sum5;
    var State(a, b, c, d, e, f, g, h) := s;
    var t1 := Sum5(h, BigSigma1(e), Ch(e, f, g), k, w);
    var t2 := Add(BigSigma0(a), Maj(a, b, c));
    h := g;
    g := f;
    f := e;
    e := Add(d, t1);
    d := c;
    c := b;
    b := a;
    a := Add(t1, t2);
    r := State(a, b, c, d, e, f, g, h);
  }

  lemma RoundsNone(s: State, block: Bytes)
    requires |block| == BLOCK
    ensures Rounds(s, block, 0) == s
  {}

  lemma RoundsNext(s: State, block: Bytes, t: nat)
    requires |block| == BLOCK && t < 64
    ensures Rounds(s, block, t + 1) == Round(Rounds(s, block, t), K[t], Schedule(block, t))
  {}

  lemma CountMore(inBits: bool, total: nat, more: nat)
    ensures (Counted(inBits, total) + if inBits then 8 * more else more) % TWO_TO_64 == Counted(inBits, total + more)
  {
    ModAdds(if inBits then 8 * total else total, if inBits then 8 * more else more);
  }

  lemma ModAdds(a: nat, b: nat)
    ensures (a % TWO_TO_64 + b) % TWO_TO_64 == (a + b) % TWO_TO_64
  {}

  lemma CountedBits(inBits: bool, total: nat)
    ensures (if inBits then Counted(inBits, total) else Counted(inBits, total) * 8 % TWO_TO_64) == 8 * total % TWO_TO_64
  {}

  lemma NoZeros(message: Bytes)
    ensures message + Zeros(0) == message
  {}

  lemma PaddingPieces(message: Bytes, first: nat, second: nat, length: Bytes)
    ensures message + [0x80] + Zeros(first) + Zeros(second) + length ==
        message + ([0x80] + Zeros(first + second) + length)
  {}

  function Joined(parts: seq<Bytes>): Bytes {
    if parts == [] then [] else parts[0] + Joined(parts[1..])
  }

  /** The digest of a message that arrives in parts. */
  method Hash(parts: seq<Bytes>, inBits: bool) returns (digest: Bytes)
    ensures digest == Digest(Joined(parts))
  {
    hide Digest;
    var ctx := new Context(inBits);
    assert parts[0..] == parts;
    assert [] + Joined(parts) == Joined(parts);
    for i := 0 to |parts|
      invariant ctx.Valid() && fresh(ctx) && fresh(ctx.buffer)
      invariant ctx.message + Joined(parts[i..]) == Joined(parts)
    {
      assert parts[i..][1..] == parts[i + 1..];
      ghost var before := ctx.message;
      ctx.Update(parts[i]);
      assert before + (parts[i] + Joined(parts[i + 1..])) == before + parts[i] + Joined(parts[i + 1..]);
    }
    assert ctx.message + [] == ctx.message;
    digest := ctx.Final();
  }
}
