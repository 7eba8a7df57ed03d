/** SHA-256 as FIPS 180-4 defines it: padding, and the fold of the compression function over blocks. */
module Sha256Spec {
  import opened Numbers
  import opened ByteNumbers
  import opened ByteRuns

  const BLOCK: nat := 64
  const DIGEST: nat := 32

  const K: seq<bv32> := K0 + K1 + K2 + K3 + K4 + K5 + K6 + K7

  const K0: seq<bv32> :=
    [0x428a2f98, 0x71374491, 0xb5c0fbcf, 0xe9b5dba5, 0x3956c25b, 0x59f111f1, 0x923f82a4, 0xab1c5ed5]
  const K1: seq<bv32> :=
    [0xd807aa98, 0x12835b01, 0x243185be, 0x550c7dc3, 0x72be5d74, 0x80deb1fe, 0x9bdc06a7, 0xc19bf174]
  const K2: seq<bv32> :=
    [0xe49b69c1, 0xefbe4786, 0x0fc19dc6, 0x240ca1cc, 0x2de92c6f, 0x4a7484aa, 0x5cb0a9dc, 0x76f988da]
  const K3: seq<bv32> :=
    [0x983e5152, 0xa831c66d, 0xb00327c8, 0xbf597fc7, 0xc6e00bf3, 0xd5a79147, 0x06ca6351, 0x14292967]
  const K4: seq<bv32> :=
    [0x27b70a85, 0x2e1b2138, 0x4d2c6dfc, 0x53380d13, 0x650a7354, 0x766a0abb, 0x81c2c92e, 0x92722c85]
  const K5: seq<bv32> :=
    [0xa2bfe8a1, 0xa81a664b, 0xc24b8b70, 0xc76c51a3, 0xd192e819, 0xd6990624, 0xf40e3585, 0x106aa070]
  const K6: seq<bv32> :=
    [0x19a4c116, 0x1e376c08, 0x2748774c, 0x34b0bcb5, 0x391c0cb3, 0x4ed8aa4a, 0x5b9cca4f, 0x682e6ff3]
  const K7: seq<bv32> :=
    [0x748f82ee, 0x78a5636f, 0x84c87814, 0x8cc70208, 0x90befffa, 0xa4506ceb, 0xbef9a3f7, 0xc67178f2]

  datatype State = State(a: bv32, b: bv32, c: bv32, d: bv32, e: bv32, f: bv32, g: bv32, h: bv32)

  const INITIAL: State := State(
    0x6a09e667, 0xbb67ae85, 0x3c6ef372, 0xa54ff53a, 0x510e527f, 0x9b05688c, 0x1f83d9ab, 0x5be0cd19)

  function Rotr(x: bv32, n: nat): bv32
    requires 0 < n < 32
  {
    (x >> n) | (x << (32 - n))
  }

  function Ch(x: bv32, y: bv32, z: bv32): bv32 {
    (x & y) ^ (!x & z)
  }

  function Maj(x: bv32, y: bv32, z: bv32): bv32 {
    (x & y) ^ (x & z) ^ (y & z)
  }

  function BigSigma0(x: bv32): bv32 {
    Rotr(x, 2) ^ Rotr(x, 13) ^ Rotr(x, 22)
  }

  function BigSigma1(x: bv32): bv32 {
    Rotr(x, 6) ^ Rotr(x, 11) ^ Rotr(x, 25)
  }

  function SmallSigma0(x: bv32): bv32 {
    Rotr(x, 7) ^ Rotr(x, 18) ^ (x >> 3)
  }

  function SmallSigma1(x: bv32): bv32 {
    Rotr(x, 17) ^ Rotr(x, 19) ^ (x >> 10)
  }

  // Sums of words, modulo 2^32.
  function Add(x: bv32, y: bv32): bv32 {
    x + y
  }

  function Sum4(w: bv32, x: bv32, y: bv32, z: bv32): bv32 {
    w + x + y + z
  }

  function Sum5(v: bv32, w: bv32, x: bv32, y: bv32, z: bv32): bv32 {
    v + w + x + y + z
  }

  /** Four words add up the same in the opposite order. */
  lemma SumInAnyOrder(w: bv32, x: bv32, y: bv32, z: bv32)
    ensures Sum4(w, x, y, z) == Sum4(z, y, x, w)
  {
    AnyOrder(w, x, y, z);
  }

  lemma AnyOrder(w: bv32, x: bv32, y: bv32, z: bv32)
    ensures w + x + y + z == z + y + x + w
  {}

  /** A word, most significant byte first. */
  function Word(b: Bytes): bv32
    requires |b| == 4
  {
    ((b[0] as bv32) << 24) | ((b[1] as bv32) << 16) | ((b[2] as bv32) << 8) | (b[3] as bv32)
  }

  function ByteAt(w: bv32, shift: nat): bv8
    requires shift <= 24
  {
    ((w >> shift) & 0xFF) as bv8
  }

  function WordBytes(w: bv32): (b: Bytes)
    ensures |b| == 4
  {
    [ByteAt(w, 24), ByteAt(w, 16), ByteAt(w, 8), ByteAt(w, 0)]
  }

  /** Word t of the message schedule of a block. */
  function Schedule(block: Bytes, t: nat): bv32
    requires |block| == BLOCK && t < 64
  {
    if t < 16 then Word(block[4 * t..4 * t + 4])
    else
      Sum4(SmallSigma1(Schedule(block, t - 2)), Schedule(block, t - 7),
        SmallSigma0(Schedule(block, t - 15)), Schedule(block, t - 16))
  }

  /** One round with the round's constant and word added up. */
  function Round(s: State, k: bv32, w: bv32): State {
    var t1 := Sum5(s.h, BigSigma1(s.e), Ch(s.e, s.f, s.g), k, w);
    var t2 := Add(BigSigma0(s.a), Maj(s.a, s.b, s.c));
    State(Add(t1, t2), s.a, s.b, s.c, Add(s.d, t1), s.e, s.f, s.g)
  }

  function Rounds(s: State, block: Bytes, t: nat): State
    requires |block| == BLOCK && t <= 64
  {
    if t == 0 then s else Round(Rounds(s, block, t - 1), K[t - 1], Schedule(block, t - 1))
  }

  function Compress(s: State, block: Bytes): State
    requires |block| == BLOCK
  {
    var r := Rounds(s, block, 64);
    AddStates(s, r)
  }

  function AddStates(s: State, r: State): State {
    State(Add(s.a, r.a), Add(s.b, r.b), Add(s.c, r.c), Add(s.d, r.d),
      Add(s.e, r.e), Add(s.f, r.f), Add(s.g, r.g), Add(s.h, r.h))
  }

  /** The hash value after the blocks of a message. */
  function Fold(blocks: Bytes): State
    requires |blocks| % BLOCK == 0
    decreases |blocks|
  {
    if blocks == [] then INITIAL
    else Compress(Fold(blocks[..|blocks| - BLOCK]), blocks[|blocks| - BLOCK..])
  }

  /** A 64-bit number, most significant byte first. */
  function Be64(v: nat): (b: Bytes)
    ensures |b| == 8
  {
    seq(8, i requires 0 <= i < 8 => Be64Byte(v, i))
  }

  function Shifted(v: nat, bytes: nat): nat {
    if bytes == 0 then v else Shifted(v / 256, bytes - 1)
  }

  function Be64Byte(v: nat, i: nat): bv8
    requires i < 8
  {
    ByteOf(Shifted(v, 7 - i) % 256)
  }

  /** Zeros up to 56 bytes into a block. */
  function PadZeros(n: nat): (z: nat)
    ensures (n + 1 + z) % BLOCK == 56 && z < BLOCK
  {
    (119 - n % BLOCK) % BLOCK
  }

  /** Section 5.1.1: a one bit, zeros, and the length in bits, up to a whole block. */
  function Pad(message: Bytes): (p: Bytes)
    ensures |p| % BLOCK == 0
  {
    message + [0x80] + Zeros(PadZeros(|message|)) + Be64(8 * |message| % TWO_TO_64)
  }

  function StateBytes(s: State): (b: Bytes)
    ensures |b| == DIGEST
  {
    WordBytes(s.a) + WordBytes(s.b) + WordBytes(s.c) + WordBytes(s.d)
      + WordBytes(s.e) + WordBytes(s.f) + WordBytes(s.g) + WordBytes(s.h)
  }

  function Digest(message: Bytes): (b: Bytes)
    ensures |b| == DIGEST
  {
    StateBytes(Fold(Pad(message)))
  }

  /** A whole block more folds by one compression. */
  lemma FoldBlock(blocks: Bytes, block: Bytes)
    requires |blocks| % BLOCK == 0 && |block| == BLOCK
    ensures Fold(blocks + block) == Compress(Fold(blocks), block)
  {
    hide Compress;
    assert (blocks + block)[..|blocks|] == blocks && (blocks + block)[|blocks|..] == block;
  }

  /** The padding is the shortest that makes whole blocks. */
  lemma PadIsShortest(message: Bytes)
    ensures |message| + 9 <= |Pad(message)| < |message| + 9 + BLOCK
    ensures message <= Pad(message)
  {}

  // ---------------------------------------------------------------- streaming

  /** A hash value and the start of a block stand for a message so far. */
  ghost predicate Absorbed(message: Bytes, state: State, partial: Bytes) {
    && |partial| <= BLOCK && |partial| <= |message| && (|message| - |partial|) % BLOCK == 0
    && state == Fold(message[..|message| - |partial|])
    && partial == message[|message| - |partial|..]
  }

  lemma AbsorbedStart()
    ensures Absorbed([], INITIAL, [])
  {}

  lemma AbsorbMore(message: Bytes, state: State, partial: Bytes, chunk: Bytes)
    requires Absorbed(message, state, partial) && |partial| + |chunk| <= BLOCK
    ensures Absorbed(message + chunk, state, partial + chunk)
  {
    hide Fold;
    var n := |message| - |partial|;
    assert (message + chunk)[..n] == message[..n] && (message + chunk)[n..] == message[n..] + chunk;
  }

  lemma AbsorbBlock(message: Bytes, state: State, block: Bytes)
    requires Absorbed(message, state, block) && |block| == BLOCK
    ensures Absorbed(message, Compress(state, block), [])
  {
    hide Fold, Compress;
    var n := |message| - BLOCK;
    assert message == message[..n] + block;
    FoldBlock(message[..n], block);
    assert message[..|message|] == message;
  }

  lemma PartialLength(message: Bytes, state: State, partial: Bytes)
    requires Absorbed(message, state, partial) && |partial| < BLOCK
    ensures |partial| == |message| % BLOCK
  {
    hide Fold;
  }

  /** The last block or two give the digest. */
  lemma AbsorbedAll(message: Bytes, state: State, partial: Bytes, tail: Bytes, last: State)
    requires tail == [0x80] + Zeros(PadZeros(|message|)) + Be64(8 * |message| % TWO_TO_64)
    requires Absorbed(message, state, partial) && Absorbed(message + tail, last, [])
    ensures StateBytes(last) == Digest(message)
  {
    hide Fold, StateBytes, Be64, Zeros;
    assert message + tail == Pad(message);
    assert Pad(message)[..|Pad(message)|] == Pad(message);
  }
}
