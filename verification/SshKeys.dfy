/** Key derivation and message authentication of the SSH client (sections 7.2 and 8 of RFC 4253, section
    5 of RFC 4251 and RFC 2104). */
module SshKeys {
  import opened ByteNumbers
  import opened ByteRuns
  import Sha256Spec
  import Sha256
  import SshPacket

  // ---------------------------------------------------------------- multiple-precision integers

  /** A number from its bytes, most significant first. */
  function Value(b: Bytes): nat {
    if b == [] then 0 else 256 * Value(b[..|b| - 1]) + NumOf(b[|b| - 1])
  }

  /** The contents of an mpint for a number that is not negative: nothing for zero, and otherwise the
      fewest bytes whose first bit is clear. */
  ghost predicate IsMpint(b: Bytes, v: nat) {
    Value(b) == v && (b != [] ==> NumOf(b[0]) < 128 && (NumOf(b[0]) == 0 ==> |b| > 1 && NumOf(b[1]) >= 128))
  }

  function LeadingZeros(b: Bytes): (n: nat)
    ensures n <= |b|
    ensures forall i :: 0 <= i < n ==> b[i] == 0
    ensures n < |b| ==> b[n] != 0
  {
    if b == [] || b[0] != 0 then 0 else 1 + LeadingZeros(b[1..])
  }

  function Mpint(octets: Bytes): Bytes {
    var b := octets[LeadingZeros(octets)..];
    if b == [] then [] else if NumOf(b[0]) >= 128 then [0] + b else b
  }

  lemma {:induction false} ValueOfZeroFirst(b: Bytes)
    ensures Value([0] + b) == Value(b)
  {
    ZeroByte(0);
    if b == [] {
      assert ([0] + b)[..0] == [];
    } else {
      ValueOfZeroFirst(b[..|b| - 1]);
      assert ([0] + b)[..|b|] == [0] + b[..|b| - 1];
    }
  }

  lemma {:induction false} ValueOfZeros(b: Bytes, n: nat)
    requires n <= |b| && forall i :: 0 <= i < n ==> b[i] == 0
    ensures Value(b) == Value(b[n..])
    decreases n
  {
    if n == 0 {
      assert b[0..] == b;
    } else {
      ValueOfZeroFirst(b[1..]);
      assert b == [0] + b[1..];
      ValueOfZeros(b[1..], n - 1);
      assert b[1..][n - 1..] == b[n..];
    }
  }

  /** The secret's mpint stands for the secret as a number. */
  lemma MpintIsCanonical(octets: Bytes)
    ensures IsMpint(Mpint(octets), Value(octets))
  {
    hide Value;
    var n := LeadingZeros(octets);
    var b := octets[n..];
    ValueOfZeros(octets, n);
    ValueOfZeroFirst(b);
    ZeroByte(0);
    if b != [] {
      assert b[0] == octets[n];
      ZeroByte(b[0]);
    }
  }

  lemma {:induction false} SameValue(a: Bytes, b: Bytes)
    requires |a| == |b| && Value(a) == Value(b)
    ensures a == b
    decreases |a|
  {
    if a != [] {
      var x, y := a[..|a| - 1], b[..|b| - 1];
      assert Value(x) == Value(y) && NumOf(a[|a| - 1]) == NumOf(b[|b| - 1]);
      SameValue(x, y);
      SameByte(a[|a| - 1], b[|b| - 1]);
      assert a == x + [a[|a| - 1]] && b == y + [b[|b| - 1]];
    }
  }

  lemma SameByte(x: bv8, y: bv8)
    requires NumOf(x) == NumOf(y)
    ensures x == y
  {
    NumRoundTrip(x);
    NumRoundTrip(y);
  }

  /** There is only one mpint for a number. */
  lemma MpintIsUnique(a: Bytes, b: Bytes, v: nat)
    requires IsMpint(a, v) && IsMpint(b, v)
    ensures a == b
  {
    if |a| < |b| {
      NotLonger(a, b, v);
    } else if |b| < |a| {
      NotLonger(b, a, v);
    } else {
      SameValue(a, b);
    }
  }

  lemma LongerHasZeros(a: Bytes, b: Bytes)
    requires |a| <= |b| && Value(a) == Value(b)
    ensures b == Zeros(|b| - |a|) + a
  {
    hide Value;
    var k := |b| - |a|;
    var padded := Zeros(k) + a;
    assert padded[k..] == a;
    ValueOfZeros(padded, k);
    SameValue(padded, b);
  }

  lemma NotLonger(a: Bytes, b: Bytes, v: nat)
    requires IsMpint(a, v) && IsMpint(b, v)
    ensures |a| >= |b|
  {
    hide Value;
    if |a| < |b| {
      LongerHasZeros(a, b);
      ZeroByte(0);
    }
  }

  // ---------------------------------------------------------------- what is hashed

  function StringField(b: Bytes): Bytes {
    SshPacket.Be32(|b|) + b
  }

  function SecretField(octets: Bytes): Bytes {
    if octets == [] then [] else StringField(Mpint(octets))
  }

  lemma Join(a: Bytes, b: Bytes, c: Bytes)
    ensures a + b + c == a + (b + c) && a + [] == a && [] + a == a
  {}

  method HashStringField(h: Sha256.Context, b: Bytes)
    requires h.Valid()
    modifies h, h.buffer
    ensures h.Valid() && h.message == old(h.message) + StringField(b)
  {
    hide Sha256Spec.Absorbed, Sha256.Counted, SshPacket.Be32;
    Join(h.message, SshPacket.Be32(|b|), b);
    h.Update(SshPacket.Be32(|b|));
    if b != [] {
      h.Update(b);
    }
  }

  method HashSharedSecretField(h: Sha256.Context, octets: Bytes)
    requires h.Valid()
    modifies h, h.buffer
    ensures h.Valid() && h.message == old(h.message) + SecretField(octets)
  {
    hide Sha256Spec.Absorbed, Sha256.Counted, SshPacket.Be32, StringField, NumOf;
    Join(h.message, [], []);
    if octets == [] {
      return;
    }
    var off := 0;
    ghost var n := LeadingZeros(octets);
    while off < |octets| && octets[off] == 0
      invariant off <= n
    {
      off := off + 1;
    }
    assert off == n;
    if off >= |octets| {
      HashStringField(h, []);
      return;
    }
    var mpint := octets[off..];
    if NumOf(mpint[0]) >= 128 {
      HashWithZero(h, mpint);
      return;
    }
    HashStringField(h, mpint);
  }

  /** A string field with a zero byte in front. */
  method HashWithZero(h: Sha256.Context, mpint: Bytes)
    requires h.Valid()
    modifies h, h.buffer
    ensures h.Valid() && h.message == old(h.message) + StringField([0] + mpint)
  {
    hide Sha256Spec.Absorbed, Sha256.Counted, SshPacket.Be32;
    ghost var start, len := h.message, SshPacket.Be32(|mpint| + 1);
    Join(start + len, [0], mpint);
    Join(start, len, [0] + mpint);
    h.Update(SshPacket.Be32(|mpint| + 1));
    h.Update([0]);
    h.Update(mpint);
  }

  // ---------------------------------------------------------------- key derivation

  /** What a key is derived from: the shared secret, the exchange hash, the key's letter, and the
      session identifier. */
  datatype Seed = Seed(secret: Bytes, hash: Bytes, letter: bv8, session: Bytes)

  /** K1 and the keys after it, each hashed from all those before. */
  function Key(s: Seed, n: nat): (k: Bytes)
    ensures |k| == Sha256Spec.DIGEST
    decreases n, 1
  {
    Sha256Spec.Digest(SecretField(s.secret) + s.hash + (if n == 0 then [s.letter] + s.session else Keys(s, n)))
  }

  /** The first n keys, joined. */
  function Keys(s: Seed, n: nat): (k: Bytes)
    ensures |k| == n * Sha256Spec.DIGEST
    decreases n, 0
  {
    if n == 0 then [] else Keys(s, n - 1) + Key(s, n - 1)
  }

  lemma {:induction false} KeysExtend(s: Seed, n: nat, m: nat)
    requires n <= m
    ensures Keys(s, n) <= Keys(s, m)
    decreases m
  {
    hide Key;
    if n < m {
      KeysExtend(s, n, m - 1);
    }
  }

  /** A key of any length is the start of the joined keys. */
  method DeriveKey(s: Seed, out: array<bv8>)
    modifies out
    ensures out.Length <= (out.Length + 31) / 32 * Sha256Spec.DIGEST &&
        out[..] == Keys(s, (out.Length + 31) / 32)[..out.Length]
  {
    hide Key, SecretField;
    var written: nat := 0;
    var round: nat := 0;
    while written < out.Length
      invariant written <= out.Length
      invariant written == out.Length || written == 32 * round
      invariant 32 * round < out.Length + 32 && written <= 32 * round
      invariant out[..written] == Keys(s, round)[..written]
      decreases out.Length - written
    {
      var block := DeriveBlock(s, round, out[..written]);
      var take := if out.Length - written > 32 then 32 else out.Length - written;
      ghost var before := out[..written];
      CopyInto(block[..take], out, written);
      assert out[..written + take] == before + block[..take];
      assert Keys(s, round + 1)[..written + take] == Keys(s, round) + block[..take];
      written := written + take;
      round := round + 1;
    }
    assert out[..written] == out[..];
  }

  method DeriveBlock(s: Seed, round: nat, soFar: Bytes) returns (block: Bytes)
    requires soFar == Keys(s, round)
    ensures block == Key(s, round)
  {
    hide Sha256Spec.Digest, SecretField, Keys, Sha256Spec.Absorbed, Sha256.Counted;
    var ctx := new Sha256.Context(true);
    ghost var secret := SecretField(s.secret);
    Join(secret, [], []);
    HashSharedSecretField(ctx, s.secret);
    ctx.Update(s.hash);
    if round == 0 {
      Join(secret + s.hash, [s.letter], s.session);
      ctx.Update([s.letter]);
      ctx.Update(s.session);
    } else {
      ctx.Update(soFar);
    }
    block := ctx.Final();
  }

  // ---------------------------------------------------------------- message authentication

  function XorAll(b: Bytes, x: bv8): Bytes {
    seq(|b|, i requires 0 <= i < |b| => b[i] ^ x)
  }

  /** The key made up to a block: hashed first when it is longer. */
  function BlockKey(key: Bytes): (k: Bytes)
    ensures |k| == 64
  {
    var k := if |key| > 64 then Sha256Spec.Digest(key) else key;
    k + Zeros(64 - |k|)
  }

  function Hmac(key: Bytes, message: Bytes): Bytes {
    Sha256Spec.Digest(XorAll(BlockKey(key), 0x5c) + Sha256Spec.Digest(XorAll(BlockKey(key), 0x36) + message))
  }

  method HmacSha256(key: Bytes, data1: Bytes, data2: Bytes) returns (mac: Bytes)
    ensures mac == Hmac(key, data1 + data2)
  {
    hide Sha256Spec.Digest, XorAll;
    var k0 := key;
    if |key| > 64 {
      var kctx := new Sha256.Context(true);
      kctx.Update(key);
      assert [] + key == key;
      k0 := kctx.Final();
    }
    k0 := k0 + Zeros(64 - |k0|);
    var ipad, opad := XorAll(k0, 0x36), XorAll(k0, 0x5c);
    var inner := HashThree(ipad, data1, data2);
    assert ipad + data1 + data2 == ipad + (data1 + data2);
    mac := HashThree(opad, inner, []);
    assert opad + inner + [] == opad + inner;
  }

  method HashThree(a: Bytes, b: Bytes, c: Bytes) returns (digest: Bytes)
    ensures digest == Sha256Spec.Digest(a + b + c)
  {
    hide Sha256Spec.Digest, Sha256Spec.Absorbed, Sha256.Counted;
    var ctx := new Sha256.Context(true);
    Join(a, [], []);
    ctx.Update(a);
    ctx.Update(b);
    ctx.Update(c);
    digest := ctx.Final();
  }
}
