/** The CRC-32 as a remainder: long division of the message by the generator polynomial (section 8.1.1.6.2 of
    ITU-T V.42, to which RFC 1952 refers). A polynomial is the sequence of its coefficients, highest first. */
module CrcDivision {
  import opened Bits
  import opened Crc32

  /** x^32 + x^26 + x^23 + x^22 + x^16 + x^12 + x^11 + x^10 + x^8 + x^7 + x^5 + x^4 + x^2 + x + 1 */
  const GENERATOR: BitSeq := [
    true, false, false, false, false, false, true, false, false, true, true, false, false, false, false, false, true,
    false, false, false, true, true, true, false, true, true, false, true, true, false, true, true, true]

  /** The sum of a polynomial and another that starts at the same power. */
  function AddAtFront(p: BitSeq, q: BitSeq): (r: BitSeq)
    requires |q| <= |p|
    ensures |r| == |p|
  {
    seq(|p|, i requires 0 <= i < |p| => if i < |q| then p[i] != q[i] else p[i])
  }

  /** Long division: what is left below x^32. */
  function Remainder(p: BitSeq): (r: BitSeq)
    requires |p| >= 32
    ensures |r| == 32
    decreases |p|
  {
    if |p| == 32 then p
    else if p[0] then Remainder(AddAtFront(p, GENERATOR)[1..])
    else Remainder(p[1..])
  }

  function Ones(n: nat): (r: BitSeq)
    ensures |r| == n
  {
    seq(n, _ => true)
  }

  function NoOnes(n: nat): (r: BitSeq)
    ensures |r| == n
  {
    seq(n, _ => false)
  }

  /** The bits of a byte as they are sent, least significant first, and those of a message. */
  function Sent(b: bv8): (r: BitSeq)
    ensures |r| == 8
  {
    [b & 1 != 0, b & 2 != 0, b & 4 != 0, b & 8 != 0, b & 0x10 != 0, b & 0x20 != 0, b & 0x40 != 0, b & 0x80 != 0]
  }

  function SentBits(s: seq<byte>): BitSeq {
    if s == [] then [] else SentBits(s[..|s| - 1]) + Sent(s[|s| - 1] as bv8)
  }

  /** The low bits of a word, least significant first. */
  function WordBits(c: bv32, n: nat): (r: BitSeq)
    ensures |r| == n
    decreases n
  {
    if n == 0 then [] else [Odd(c)] + WordBits(Half(c), n - 1)
  }

  // ---------------------------------------------------------------- one bit

  lemma SumOfWords(x: bv32, y: bv32)
    ensures Odd(Xor(x, y)) == (Odd(x) != Odd(y)) && Half(Xor(x, y)) == Xor(Half(x), Half(y))
  {}

  lemma {:induction false} BitsOfSum(x: bv32, y: bv32, n: nat)
    ensures WordBits(Xor(x, y), n) == AddAtFront(WordBits(x, n), WordBits(y, n))
    decreases n
  {
    hide Xor, Odd, Half;
    SumOfWords(x, y);
    if n > 0 {
      BitsOfSum(Half(x), Half(y), n - 1);
    }
  }

  lemma {:induction false} BitsLast(c: bv32, n: nat)
    ensures WordBits(c, n + 1) == WordBits(c, n) + [Odd(Shift(c, n))]
    decreases n
  {
    hide Odd, Half;
    if n > 0 {
      BitsLast(Half(c), n - 1);
    } else {
      assert WordBits(Half(c), 0) == [];
    }
  }

  /** Eight bits, and the rest of the word moved down by a byte. */
  function EightBits(c: bv32): BitSeq {
    Nibble(c) + Nibble(Half4(c))
  }

  function Nibble(c: bv32): BitSeq {
    [Odd(c), Odd(Half(c)), Odd(Half(Half(c))), Odd(Half(Half(Half(c))))]
  }

  function Half4(c: bv32): bv32 {
    Half(Half(Half(Half(c))))
  }

  lemma NextByte(c: bv32, n: nat)
    ensures WordBits(c, n + 8) == EightBits(c) + WordBits(ShiftByte(c), n)
    ensures Shift(c, n + 8) == Shift(ShiftByte(c), n)
  {
    hide Odd, Half, ShiftByte, WordBits, Shift, Nibble;
    HalvesIsShift(c);
    FourBits(c, n + 4);
    FourBits(Half4(c), n);
  }

  lemma FourBits(c: bv32, n: nat)
    ensures WordBits(c, n + 4) == Nibble(c) + WordBits(Half4(c), n)
    ensures Shift(c, n + 4) == Shift(Half4(c), n)
  {
    hide Odd, Half, WordBits, Shift;
    TwoBits(c, n + 2);
    TwoBits(Half(Half(c)), n);
  }

  lemma TwoBits(c: bv32, n: nat)
    ensures WordBits(c, n + 2) == [Odd(c), Odd(Half(c))] + WordBits(Half(Half(c)), n)
    ensures Shift(c, n + 2) == Shift(Half(Half(c)), n)
  {
    hide Odd, Half;
    assert WordBits(c, n + 2) == [Odd(c)] + WordBits(Half(c), n + 1);
    assert Shift(c, n + 2) == Shift(Half(c), n + 1);
  }

  lemma FourBytesGone(c: bv32)
    ensures ShiftByte(ShiftByte(ShiftByte(ShiftByte(c)))) == 0
  {}

  lemma ShiftedOut(c: bv32)
    ensures Shift(c, 32) == 0
  {
    hide ShiftByte, Half;
    FourBytesGone(c);
    NextByte(c, 24);
    NextByte(ShiftByte(c), 16);
    NextByte(ShiftByte(ShiftByte(c)), 8);
    NextByte(ShiftByte(ShiftByte(ShiftByte(c))), 0);
  }

  lemma BitsOfHalf(c: bv32, n: nat)
    requires Shift(c, n) == 0 && n > 0
    ensures WordBits(Half(c), n) == WordBits(c, n)[1..] + [false] && WordBits(c, n)[0] == Odd(c)
  {
    hide Half, Shift;
    BitsLast(c, n);
    assert !Odd(0);
    assert WordBits(c, n + 1) == [Odd(c)] + WordBits(Half(c), n);
    assert WordBits(Half(c), n) == WordBits(c, n + 1)[1..];
  }

  lemma PolynomialBytes()
    ensures EightBits(0xEDB88320) == [false, false, false, false, false, true, false, false]
    ensures EightBits(0xEDB883) == [true, true, false, false, false, false, false, true]
    ensures EightBits(0xEDB8) == [false, false, false, true, true, true, false, true]
    ensures EightBits(0xED) == [true, false, true, true, false, true, true, true]
    ensures ShiftByte(0xEDB88320) == 0xEDB883 && ShiftByte(0xEDB883) == 0xEDB8 && ShiftByte(0xEDB8) == 0xED
  {}

  lemma BitsOfPolynomial()
    ensures WordBits(POLYNOMIAL, 32) == GENERATOR[1..]
  {
    hide EightBits, ShiftByte, WordBits;
    PolynomialBytes();
    NextByte(0xEDB88320, 24);
    NextByte(0xEDB883, 16);
    NextByte(0xEDB8, 8);
    NextByte(0xED, 0);
    GeneratorBytes();
  }

  lemma GeneratorBytes()
    ensures GENERATOR[1..] ==
      [false, false, false, false, false, true, false, false] + ([true, true, false, false, false, false, false, true]
      + ([false, false, false, true, true, true, false, true] + [true, false, true, true, false, true, true, true]))
  {}

  // ---------------------------------------------------------------- the register divides

  function OneIf(b: bool): bv32 {
    if b then 1 else 0
  }

  /** The register after one bit. */
  function BitStep(c: bv32, b: bool): bv32 {
    Step(Xor(c, OneIf(b)))
  }

  function BitSteps(c: bv32, bits: BitSeq): bv32
    decreases |bits|
  {
    if bits == [] then c else BitSteps(BitStep(c, bits[0]), bits[1..])
  }

  /** What is divided when the register holds c and some bits are still to come. */
  function Window(c: bv32, u: BitSeq): (r: BitSeq)
    requires |u| >= 32
    ensures |r| == |u|
  {
    AddAtFront(u, WordBits(c, 32))
  }

  lemma OneIfBits(b: bool)
    ensures Odd(OneIf(b)) == b && Half(OneIf(b)) == 0
  {}

  lemma {:induction false} BitsOfZero(n: nat)
    ensures WordBits(0, n) == NoOnes(n)
  {
    assert !Odd(0) && Half(0) == 0;
    if n > 0 {
      BitsOfZero(n - 1);
    }
  }

  /** Only the lowest bit changes. */
  lemma FlipLow(c: bv32, b: bool)
    ensures var d := Xor(c, OneIf(b));
            WordBits(d, 32)[1..] == WordBits(c, 32)[1..] && Odd(d) == (Odd(c) != b) && WordBits(d, 32)[0] == Odd(d)
  {
    hide Odd, Half, Xor, OneIf, WordBits;
    var o := OneIf(b);
    SumOfWords(c, o);
    OneIfBits(b);
    BitsOfSum(Half(c), 0, 31);
    BitsOfZero(31);
    FirstBit(c);
    FirstBit(Xor(c, o));
  }

  lemma FirstBit(c: bv32)
    ensures WordBits(c, 32) == [Odd(c)] + WordBits(Half(c), 31)
  {
    hide Odd, Half;
  }

  lemma BitsOfStep(c: bv32)
    ensures WordBits(Step(c), 32) ==
      AddAtFront(WordBits(c, 32)[1..] + [false], if Odd(c) then GENERATOR[1..] else NoOnes(32))
  {
    hide Odd, Half, Xor, WordBits, GENERATOR;
    ShiftedOut(c);
    BitsOfHalf(c, 32);
    if Odd(c) {
      BitsOfSum(POLYNOMIAL, Half(c), 32);
      BitsOfPolynomial();
    }
  }

  /** One step of the register is one step of the division. */
  lemma DivisionStep(c: bv32, u: BitSeq)
    requires |u| >= 33
    ensures Remainder(Window(c, u)) == Remainder(Window(BitStep(c, u[0]), u[1..]))
  {
    hide Odd, Half, Xor, WordBits, GENERATOR, OneIf, Step;
    var x, d := Window(c, u), Xor(c, OneIf(u[0]));
    FlipLow(c, u[0]);
    FirstBit(c);
    BitsOfStep(d);
    var bits := WordBits(c, 32);
    assert |GENERATOR| == 33 by {
      GeneratorSize();
    }
    assert x[0] == Odd(d);
    ShiftedDivision(u, bits, WordBits(d, 32), WordBits(Step(d), 32), x[0]);
  }

  /** The same step on the sequences. */
  lemma ShiftedDivision(u: BitSeq, bits: BitSeq, flipped: BitSeq, next: BitSeq, lead: bool)
    requires |u| >= 33 && |bits| == |flipped| == |next| == 32 && |GENERATOR| == 33 && flipped[1..] == bits[1..]
    requires next == AddAtFront(flipped[1..] + [false], if lead then GENERATOR[1..] else NoOnes(32))
    ensures var x := AddAtFront(u, bits);
            AddAtFront(u[1..], next) == if lead then AddAtFront(x, GENERATOR)[1..] else x[1..]
  {
    hide GENERATOR;
    var x := AddAtFront(u, bits);
    var after := if lead then AddAtFront(x, GENERATOR)[1..] else x[1..];
    forall i | 0 <= i < |u| - 1 ensures AddAtFront(u[1..], next)[i] == after[i] {
      if i < 31 {
        assert (flipped[1..] + [false])[i] == bits[1..][i] == bits[i + 1];
      }
    }
  }

  lemma GeneratorSize()
    ensures |GENERATOR| == 33
  {}

  lemma {:induction false} DivisionSteps(c: bv32, bits: BitSeq, rest: BitSeq)
    requires |rest| >= 32
    ensures Remainder(Window(c, bits + rest)) == Remainder(Window(BitSteps(c, bits), rest))
    decreases |bits|
  {
    hide BitStep, Window, Remainder;
    if bits == [] {
      assert bits + rest == rest;
    } else {
      DivisionStep(c, bits + rest);
      assert (bits + rest)[1..] == bits[1..] + rest;
      DivisionSteps(BitStep(c, bits[0]), bits[1..], rest);
    }
  }

  // ---------------------------------------------------------------- bytes and messages

  function Even(x: bv32): bv32 {
    x & 0xFFFF_FFFE
  }

  lemma LowAndEven(x: bv32)
    ensures Xor(OneIf(Odd(x)), Even(x)) == x && !Odd(Even(x)) && Half(Even(x)) == Half(x)
  {}

  lemma XorZero(c: bv32)
    ensures Xor(c, 0) == c
  {}

  /** A word added to the register at once or bit by bit. */
  lemma {:induction false} StepsAreBits(c: bv32, x: bv32, n: nat)
    requires Shift(x, n) == 0
    ensures Steps(Xor(c, x), n) == BitSteps(c, WordBits(x, n))
    decreases n
  {
    hide Xor, Half, Odd, Even, Step, OneIf;
    if n == 0 {
      XorZero(c);
    } else {
      LowAndEven(x);
      XorAssociative(c, OneIf(Odd(x)), Even(x));
      StepOfSum(Xor(c, OneIf(Odd(x))), Even(x));
      StepsAreBits(BitStep(c, Odd(x)), Half(x), n - 1);
      assert WordBits(x, n)[1..] == WordBits(Half(x), n - 1);
    }
  }

  lemma ByteBitsAsWord(b: bv8)
    ensures EightBits(b as bv32) == Sent(b) && ShiftByte(b as bv32) == 0
  {}

  lemma UpdateIsBits(c: bv32, b: bv8)
    ensures Update(c, b) == BitSteps(c, Sent(b))
  {
    hide Xor, Half, Odd, ShiftByte, EightBits, Update, BitSteps, Sent, Steps;
    ByteBitsAsWord(b);
    NextByte(b as bv32, 0);
    assert Shift(0, 0) == 0;
    assert EightBits(b as bv32) + [] == EightBits(b as bv32);
    StepsAreBits(c, b as bv32, 8);
    StepsEightIsUpdate(c, b);
  }

  lemma {:induction false} RegisterDivides(s: seq<byte>, rest: BitSeq)
    requires |rest| >= 32
    ensures Remainder(Window(0xFFFFFFFF, SentBits(s) + rest)) == Remainder(Window(Register(s), rest))
    decreases |s|
  {
    hide Remainder, Window, Update, BitSteps, Sent;
    if s == [] {
      assert SentBits(s) + rest == rest;
    } else {
      var front, b := s[..|s| - 1], s[|s| - 1] as bv8;
      RegisterDivides(front, Sent(b) + rest);
      assert SentBits(s) + rest == SentBits(front) + (Sent(b) + rest);
      DivisionSteps(Register(front), Sent(b), rest);
      UpdateIsBits(Register(front), b);
    }
  }

  lemma BitsOfOnes()
    ensures WordBits(0xFFFFFFFF, 32) == Ones(32)
  {
    hide EightBits, ShiftByte, WordBits;
    OnesBytes();
    NextByte(0xFFFFFFFF, 24);
    NextByte(0xFFFFFF, 16);
    NextByte(0xFFFF, 8);
    NextByte(0xFF, 0);
  }

  lemma FirstWindow(u: BitSeq)
    requires |u| >= 32
    ensures Window(0xFFFFFFFF, u) == AddAtFront(u, Ones(32))
  {
    hide WordBits;
    BitsOfOnes();
  }

  lemma LastWindow(c: bv32)
    ensures Remainder(Window(c, NoOnes(32))) == WordBits(c, 32)
  {
    hide WordBits;
    assert Window(c, NoOnes(32)) == WordBits(c, 32);
  }

  lemma OnesBytes()
    ensures EightBits(0xFFFFFFFF) == EightBits(0xFFFFFF) == EightBits(0xFFFF) == EightBits(0xFF) == Ones(8)
    ensures ShiftByte(0xFFFFFFFF) == 0xFFFFFF && ShiftByte(0xFFFFFF) == 0xFFFF && ShiftByte(0xFFFF) == 0xFF
  {}

  lemma BitsOfNot(c: bv32)
    ensures WordBits(!c, 32) == AddAtFront(WordBits(c, 32), Ones(32))
  {
    hide WordBits;
    assert !c == Xor(c, 0xFFFFFFFF);
    BitsOfSum(c, 0xFFFFFFFF, 32);
    BitsOfOnes();
  }

  /** The CRC-32 is the complement of the remainder of the message, with its first 32 bits complemented and 32 zeros
      after it; both are sent highest power first, which in a word is the least significant bit. */
  lemma CrcIsRemainder(s: seq<byte>)
    ensures WordBits(!Register(s), 32)
         == AddAtFront(Remainder(AddAtFront(SentBits(s) + NoOnes(32), Ones(32))), Ones(32))
  {
    hide WordBits, Remainder, Register, Window, SentBits;
    RegisterDivides(s, NoOnes(32));
    FirstWindow(SentBits(s) + NoOnes(32));
    LastWindow(Register(s));
    BitsOfNot(Register(s));
  }
}
