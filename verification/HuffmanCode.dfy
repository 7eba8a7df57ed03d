/** The canonical Huffman code of section 3.2.2 of RFC 1951, as a specification. */
module HuffmanCode {
  import opened Options
  import opened Bits

  const MAX_BITS: nat := 15

  type Lengths = seq<nat>

  /** How many of the first k symbols have a code of len bits; a length of 0 means no code. */
  function CountUpTo(lengths: Lengths, k: nat, len: nat): (c: nat)
    requires k <= |lengths|
    ensures c <= k
  {
    if k == 0 then 0
    else CountUpTo(lengths, k - 1, len) + (if len > 0 && lengths[k - 1] == len then 1 else 0)
  }

  function Count(lengths: Lengths, len: nat): nat {
    CountUpTo(lengths, |lengths|, len)
  }

  /** The numerical value of the first code of len bits. */
  function FirstCode(lengths: Lengths, len: nat): nat {
    if len == 0 then 0 else 2 * (FirstCode(lengths, len - 1) + Count(lengths, len - 1))
  }

  function Code(lengths: Lengths, s: nat): nat
    requires s < |lengths|
  {
    FirstCode(lengths, lengths[s]) + CountUpTo(lengths, s, lengths[s])
  }

  /** The code of symbol s as it appears in the stream, most significant bit first. */
  function CodeBits(lengths: Lengths, s: nat): (r: BitSeq)
    requires s < |lengths|
    ensures |r| == lengths[s]
  {
    MsbBits(Code(lengths, s), lengths[s])
  }

  predicate Coded(lengths: Lengths, s: int) {
    0 <= s < |lengths| && lengths[s] > 0
  }

  /** The Kraft sum of the first k symbols, in units of 2^-len. */
  function KraftUpTo(lengths: Lengths, k: nat, len: nat): nat
    requires k <= |lengths|
  {
    if k == 0 then 0
    else KraftUpTo(lengths, k - 1, len)
         + (if 0 < lengths[k - 1] <= len then Pow2(len - lengths[k - 1]) else 0)
  }

  function Kraft(lengths: Lengths, len: nat): nat {
    KraftUpTo(lengths, |lengths|, len)
  }

  /** The code-length arrays that describe a prefix code: some symbol has a code, no code is
      longer than 15 bits, and the Kraft inequality holds. */
  ghost predicate Describes(lengths: Lengths) {
    && (forall s :: 0 <= s < |lengths| ==> lengths[s] <= MAX_BITS)
    && (exists s :: Coded(lengths, s))
    && Kraft(lengths, MAX_BITS) <= Pow2(MAX_BITS)
  }

  /** Codes of len bits left unused after all codes of at most len bits are assigned. */
  function Unused(lengths: Lengths, len: nat): int {
    Pow2(len) - FirstCode(lengths, len) - Count(lengths, len)
  }

  lemma UnusedStep(lengths: Lengths, len: nat)
    requires len > 0
    ensures Unused(lengths, len) == 2 * Unused(lengths, len - 1) - Count(lengths, len)
  {}

  lemma {:induction false} CountZero(lengths: Lengths, k: nat)
    requires k <= |lengths|
    ensures CountUpTo(lengths, k, 0) == 0
  {
    if k > 0 {
      CountZero(lengths, k - 1);
    }
  }

  lemma {:induction false} KraftStep(lengths: Lengths, k: nat, len: nat)
    requires k <= |lengths| && len > 0
    ensures KraftUpTo(lengths, k, len) == 2 * KraftUpTo(lengths, k, len - 1) + CountUpTo(lengths, k, len)
  {
    if k > 0 {
      KraftStep(lengths, k - 1, len);
    }
  }

  lemma {:induction false} KraftZero(lengths: Lengths, k: nat)
    requires k <= |lengths|
    ensures KraftUpTo(lengths, k, 0) == 0
  {
    if k > 0 {
      KraftZero(lengths, k - 1);
    }
  }

  /** The counting recurrence that assigns the codes computes the Kraft sum. */
  lemma {:induction false} UnusedIsKraftSlack(lengths: Lengths, len: nat)
    ensures Unused(lengths, len) == Pow2(len) - Kraft(lengths, len)
  {
    if len == 0 {
      KraftZero(lengths, |lengths|);
      CountZero(lengths, |lengths|);
    } else {
      UnusedIsKraftSlack(lengths, len - 1);
      KraftStep(lengths, |lengths|, len);
    }
  }

  /** Once over-subscribed, always over-subscribed. */
  lemma {:induction false} UnusedStaysNegative(lengths: Lengths, m: nat, n: nat)
    requires m <= n && Unused(lengths, m) < 0
    ensures Unused(lengths, n) < 0
  {
    if m < n {
      UnusedStaysNegative(lengths, m, n - 1);
      UnusedStep(lengths, n);
    }
  }

  lemma {:induction false} CountMonotone(lengths: Lengths, j: nat, k: nat, len: nat)
    requires j <= k <= |lengths|
    ensures CountUpTo(lengths, j, len) <= CountUpTo(lengths, k, len)
  {
    if j < k {
      CountMonotone(lengths, j, k - 1, len);
    }
  }

  lemma CountGrows(lengths: Lengths, s: nat, t: nat)
    requires s < t <= |lengths| && lengths[s] > 0
    ensures CountUpTo(lengths, s, lengths[s]) < CountUpTo(lengths, t, lengths[s])
  {
    CountMonotone(lengths, s + 1, t, lengths[s]);
  }

  /** A code lies below the end of the run of codes of its length, which fits in that many bits. */
  lemma CodeInRange(lengths: Lengths, s: nat)
    requires Describes(lengths) && Coded(lengths, s)
    ensures Code(lengths, s) < FirstCode(lengths, lengths[s]) + Count(lengths, lengths[s]) <= Pow2(lengths[s])
  {
    CountMonotone(lengths, s + 1, |lengths|, lengths[s]);
    UnusedFits(lengths, lengths[s]);
  }

  lemma UnusedFits(lengths: Lengths, len: nat)
    requires Kraft(lengths, MAX_BITS) <= Pow2(MAX_BITS) && len <= MAX_BITS
    ensures Unused(lengths, len) >= 0
  {
    UnusedIsKraftSlack(lengths, MAX_BITS);
    if Unused(lengths, len) < 0 {
      UnusedStaysNegative(lengths, len, MAX_BITS);
    }
  }

  lemma {:induction false} FirstCodeGap(lengths: Lengths, m: nat, n: nat)
    requires m < n
    ensures ShiftRight(FirstCode(lengths, n), n - m) >= FirstCode(lengths, m) + Count(lengths, m)
    decreases n
  {
    var half := FirstCode(lengths, n - 1) + Count(lengths, n - 1);
    assert ShiftRight(FirstCode(lengths, n), n - m) == ShiftRight(half, n - 1 - m);
    if m + 1 < n {
      FirstCodeGap(lengths, m, n - 1);
      ShiftRightMonotone(FirstCode(lengths, n - 1), half, n - 1 - m);
    }
  }

  /** The two rules by which section 3.2.2 of RFC 1951 defines the code: codes of one length are
      consecutive in symbol order, and shorter codes lexicographically precede longer ones. */
  lemma CanonicalOrder(lengths: Lengths, s: nat, t: nat)
    requires Describes(lengths) && Coded(lengths, s) && Coded(lengths, t)
    ensures lengths[s] == lengths[t] && s < t ==>
              Code(lengths, t) - Code(lengths, s)
                == CountUpTo(lengths, t, lengths[t]) - CountUpTo(lengths, s, lengths[t]) > 0
    ensures lengths[s] < lengths[t] ==>
              ShiftRight(Code(lengths, t), lengths[t] - lengths[s]) > Code(lengths, s)
  {
    hide FirstCode, CountUpTo, Pow2, KraftUpTo, ShiftRight;
    if lengths[s] == lengths[t] && s < t {
      CountGrows(lengths, s, t);
    } else if lengths[s] < lengths[t] {
      CodeInRange(lengths, s);
      FirstCodeGap(lengths, lengths[s], lengths[t]);
      ShiftRightMonotone(FirstCode(lengths, lengths[t]), Code(lengths, t), lengths[t] - lengths[s]);
    }
  }

  /** No code is a prefix of another symbol's code; in particular codes are distinct. */
  lemma PrefixFree(lengths: Lengths, s: nat, t: nat)
    requires Describes(lengths) && Coded(lengths, s) && Coded(lengths, t)
    requires CodeBits(lengths, s) <= CodeBits(lengths, t)
    ensures s == t
  {
    hide FirstCode, CountUpTo, Pow2, KraftUpTo, MsbBits, ShiftRight;
    var m, n := lengths[s], lengths[t];
    CodeInRange(lengths, s);
    CodeInRange(lengths, t);
    CanonicalOrder(lengths, s, t);
    CanonicalOrder(lengths, t, s);
    MsbBitsPrefix(Code(lengths, t), m, n);
    ShiftRightFits(Code(lengths, t), n - m, n);
    assert CodeBits(lengths, t)[..m] == CodeBits(lengths, s);
    MsbBitsInjective(Code(lengths, s), ShiftRight(Code(lengths, t), n - m), m);
    if m == n {
      assert ShiftRight(Code(lengths, t), 0) == Code(lengths, t) by {
        ShiftRightByNone(Code(lengths, t));
      }
    }
  }

  lemma ShiftRightByNone(v: nat)
    ensures ShiftRight(v, 0) == v
  {}

  // ---------------------------------------------------------------- decoding

  /** s is a symbol whose code starts the bit string. */
  predicate StartsWithCode(lengths: Lengths, s: nat, bits: BitSeq) {
    Coded(lengths, s) && CodeBits(lengths, s) <= bits
  }

  /** The symbol whose code starts the bit string, if there is one. */
  ghost function DecodeSymbol(lengths: Lengths, bits: BitSeq): (r: Option<nat>)
    ensures r.Some? ==> StartsWithCode(lengths, r.value, bits)
    ensures r.None? ==> forall s: nat :: !StartsWithCode(lengths, s, bits)
  {
    if exists s: nat :: StartsWithCode(lengths, s, bits)
    then var s: nat :| StartsWithCode(lengths, s, bits); Some(s)
    else None
  }

  /** At most one code starts a bit string, so decoding is a function of the bits. */
  lemma DecodeSymbolUnique(lengths: Lengths, s: nat, bits: BitSeq)
    requires Describes(lengths) && StartsWithCode(lengths, s, bits)
    ensures DecodeSymbol(lengths, bits) == Some(s)
  {
    var t := DecodeSymbol(lengths, bits).value;
    assert CodeBits(lengths, s) == bits[..lengths[s]] && CodeBits(lengths, t) == bits[..lengths[t]];
    if lengths[s] <= lengths[t] {
      assert CodeBits(lengths, s) <= CodeBits(lengths, t);
      PrefixFree(lengths, s, t);
    } else {
      assert CodeBits(lengths, t) <= CodeBits(lengths, s);
      PrefixFree(lengths, t, s);
    }
  }
}
