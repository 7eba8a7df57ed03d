/** Bit strings: the packing orders of DEFLATE (section 3.1.1 of RFC 1951).

    Data elements are packed starting with the least significant bit of each byte; Huffman
    codes are packed starting with their most significant bit. */
module Bits {
  type byte = x: int | 0 <= x < 256
  type BitSeq = seq<bool>

  function Pow2(n: nat): (p: nat)
    ensures p > 0
  {
    if n == 0 then 1 else 2 * Pow2(n - 1)
  }

  lemma {:induction false} Pow2Monotone(m: nat, n: nat)
    requires m <= n
    ensures Pow2(m) <= Pow2(n)
  {
    if m < n {
      Pow2Monotone(m, n - 1);
    }
  }

  function BitOf(b: bool): nat {
    if b then 1 else 0
  }

  /** The n low bits of v, least significant first. */
  function LsbBits(v: nat, n: nat): (r: BitSeq)
    ensures |r| == n
  {
    if n == 0 then [] else [v % 2 == 1] + LsbBits(v / 2, n - 1)
  }

  /** The n low bits of v, most significant first. */
  function MsbBits(v: nat, n: nat): (r: BitSeq)
    ensures |r| == n
  {
    if n == 0 then [] else MsbBits(v / 2, n - 1) + [v % 2 == 1]
  }

  /** The number whose bits, least significant first, are s. */
  function Value(s: BitSeq): nat {
    if s == [] then 0 else BitOf(s[0]) + 2 * Value(s[1..])
  }

  lemma {:induction false} ValueBound(s: BitSeq)
    ensures Value(s) < Pow2(|s|)
  {
    if s != [] {
      ValueBound(s[1..]);
    }
  }

  lemma {:induction false} LsbBitsValue(s: BitSeq)
    ensures LsbBits(Value(s), |s|) == s
  {
    if s != [] {
      LsbBitsValue(s[1..]);
      assert Value(s) / 2 == Value(s[1..]);
      assert Value(s) % 2 == BitOf(s[0]);
    }
  }

  lemma {:induction false} ValueLsbBits(v: nat, n: nat)
    requires v < Pow2(n)
    ensures Value(LsbBits(v, n)) == v
  {
    if n > 0 {
      ValueLsbBits(v / 2, n - 1);
      assert LsbBits(v, n)[1..] == LsbBits(v / 2, n - 1);
    }
  }

  // ---------------------------------------------------------------- C's bit operators on unsigned numbers

  /** v >> n */
  function ShiftRight(v: nat, n: nat): (r: nat)
    decreases n
  {
    if n == 0 then v else ShiftRight(v / 2, n - 1)
  }

  /** v << n */
  function ShiftLeft(v: nat, n: nat): nat
    decreases n
  {
    if n == 0 then v else 2 * ShiftLeft(v, n - 1)
  }

  /** v & ((1 << n) - 1) */
  function Low(v: nat, n: nat): nat
    decreases n
  {
    if n == 0 then 0 else v % 2 + 2 * Low(v / 2, n - 1)
  }

  /** (v >> k) & 1 */
  predicate BitAt(v: nat, k: nat) {
    ShiftRight(v, k) % 2 == 1
  }

  lemma {:induction false} LsbBitsAt(v: nat, n: nat, k: nat)
    requires k < n
    ensures LsbBits(v, n)[k] == BitAt(v, k)
    decreases k
  {
    if k > 0 {
      LsbBitsAt(v / 2, n - 1, k - 1);
    }
  }

  /** Masking takes the low bits and shifting drops them. */
  lemma {:induction false} LsbBitsSplit(v: nat, k: nat, n: nat)
    requires k <= n && v < Pow2(n)
    ensures Low(v, k) < Pow2(k) && ShiftRight(v, k) < Pow2(n - k)
    ensures Value(LsbBits(v, n)[..k]) == Low(v, k)
    ensures LsbBits(v, n)[k..] == LsbBits(ShiftRight(v, k), n - k)
    decreases k
  {
    var all := LsbBits(v, n);
    if k == 0 {
      assert all[..0] == [] && all[0..] == all;
    } else {
      LsbBitsSplit(v / 2, k - 1, n - 1);
      assert all == [v % 2 == 1] + LsbBits(v / 2, n - 1);
      assert all[..k][1..] == LsbBits(v / 2, n - 1)[..k - 1];
      assert all[k..] == LsbBits(v / 2, n - 1)[k - 1..];
    }
  }

  /** Appending m bits above a buffer that fits in k bits adds their shifted value. */
  lemma {:induction false} LsbBitsAppend(v: nat, k: nat, b: nat, m: nat)
    requires v < Pow2(k) && b < Pow2(m)
    ensures v + ShiftLeft(b, k) < Pow2(k + m)
    ensures LsbBits(v + ShiftLeft(b, k), k + m) == LsbBits(v, k) + LsbBits(b, m)
    decreases k
  {
    if k > 0 {
      LsbBitsAppend(v / 2, k - 1, b, m);
      var w := v + ShiftLeft(b, k);
      assert w / 2 == v / 2 + ShiftLeft(b, k - 1) && w % 2 == v % 2;
      assert LsbBits(v, k) + LsbBits(b, m) == [v % 2 == 1] + (LsbBits(v / 2, k - 1) + LsbBits(b, m));
    }
  }

  lemma {:induction false} ShiftRightMonotone(v: nat, w: nat, n: nat)
    requires v <= w
    ensures ShiftRight(v, n) <= ShiftRight(w, n)
    decreases n
  {
    if n > 0 {
      ShiftRightMonotone(v / 2, w / 2, n - 1);
    }
  }

  lemma {:induction false} ShiftRightFits(v: nat, k: nat, n: nat)
    requires k <= n && v < Pow2(n)
    ensures ShiftRight(v, k) < Pow2(n - k)
    decreases k
  {
    if k > 0 {
      ShiftRightFits(v / 2, k - 1, n - 1);
    }
  }

  function Reversed(s: BitSeq): (r: BitSeq)
    ensures |r| == |s|
  {
    if s == [] then [] else Reversed(s[1..]) + [s[0]]
  }

  lemma {:induction false} ReversedLsbIsMsb(v: nat, n: nat)
    ensures Reversed(LsbBits(v, n)) == MsbBits(v, n)
  {
    if n > 0 {
      ReversedLsbIsMsb(v / 2, n - 1);
      assert LsbBits(v, n)[1..] == LsbBits(v / 2, n - 1);
    }
  }

  /** The bits that a byte contributes to the stream, and those of a run of bytes. */
  function ByteBits(b: byte): (r: BitSeq)
    ensures |r| == 8
  {
    LsbBits(b, 8)
  }

  function BytesBits(s: seq<byte>): (r: BitSeq)
    ensures |r| == 8 * |s|
  {
    if s == [] then [] else ByteBits(s[0]) + BytesBits(s[1..])
  }

  lemma {:induction false} MsbBitsInjective(v: nat, w: nat, n: nat)
    requires v < Pow2(n) && w < Pow2(n) && MsbBits(v, n) == MsbBits(w, n)
    ensures v == w
  {
    if n > 0 {
      var a, b := MsbBits(v, n), MsbBits(w, n);
      assert a[..n - 1] == MsbBits(v / 2, n - 1) && b[..n - 1] == MsbBits(w / 2, n - 1);
      assert a[n - 1] == (v % 2 == 1) && b[n - 1] == (w % 2 == 1);
      MsbBitsInjective(v / 2, w / 2, n - 1);
    }
  }

  /** The first m most significant bits are those of the shifted number. */
  lemma {:induction false} MsbBitsPrefix(v: nat, m: nat, n: nat)
    requires m <= n
    ensures MsbBits(v, n)[..m] == MsbBits(ShiftRight(v, n - m), m)
    decreases n
  {
    if m < n {
      MsbBitsPrefix(v / 2, m, n - 1);
      assert MsbBits(v, n)[..m] == MsbBits(v / 2, n - 1)[..m];
    }
  }
}
