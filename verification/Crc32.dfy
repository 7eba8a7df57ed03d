/** The CRC-32 of section 8 of RFC 1952. */
module Crc32 {
  import opened Bits

  const POLYNOMIAL: bv32 := 0xEDB88320

  function Xor(x: bv32, y: bv32): bv32 {
    x ^ y
  }

  function Half(c: bv32): bv32 {
    c >> 1
  }

  predicate Odd(c: bv32) {
    c & 1 != 0
  }

  function LowByte(c: bv32): bv32 {
    c & 0xFF
  }

  function HighBytes(c: bv32): bv32 {
    c & 0xFFFFFF00
  }

  function ShiftByte(c: bv32): bv32 {
    c >> 8
  }

  /** One division step on the reflected register. */
  function Step(c: bv32): bv32 {
    if Odd(c) then Xor(POLYNOMIAL, Half(c)) else Half(c)
  }

  function Steps(c: bv32, n: nat): bv32
    decreases n
  {
    if n == 0 then c else Steps(Step(c), n - 1)
  }

  /** The entry for an 8-bit message in the RFC's table. */
  function Table(n: bv32): bv32 {
    Steps(n, 8)
  }

  /** The RFC's table-driven update. */
  function Update(c: bv32, b: bv8): bv32 {
    Xor(Table(LowByte(Xor(c, b as bv32))), ShiftByte(c))
  }

  function Register(s: seq<byte>): bv32 {
    if s == [] then 0xFFFFFFFF else Update(Register(s[..|s| - 1]), s[|s| - 1] as bv8)
  }

  /** The CRC that a register stands for, as a number. */
  function Number(register: bv32): nat {
    (!register) as nat
  }

  function Crc(s: seq<byte>): nat {
    Number(Register(s))
  }

  lemma HalfOfSum(x: bv32, y: bv32)
    requires !Odd(y)
    ensures Half(Xor(x, y)) == Xor(Half(x), Half(y))
    ensures Odd(Xor(x, y)) == Odd(x)
  {}

  lemma XorAssociative(x: bv32, y: bv32, z: bv32)
    ensures Xor(Xor(x, y), z) == Xor(x, Xor(y, z))
  {}

  lemma StepOfSum(low: bv32, high: bv32)
    requires !Odd(high)
    ensures Step(Xor(low, high)) == Xor(Step(low), Half(high))
  {
    hide Xor, Half, Odd;
    HalfOfSum(low, high);
    XorAssociative(POLYNOMIAL, Half(low), Half(high));
  }

  /** Shifting n times, and whether only zero bits are shifted out. */
  function Shift(c: bv32, n: nat): bv32
    decreases n
  {
    if n == 0 then c else Shift(Half(c), n - 1)
  }

  predicate LowZero(c: bv32, n: nat)
    decreases n
  {
    n == 0 || (!Odd(c) && LowZero(Half(c), n - 1))
  }

  /** The register's high bits only move down while a byte is divided out. */
  lemma {:induction false} StepsSplit(low: bv32, high: bv32, n: nat)
    requires LowZero(high, n)
    ensures Steps(Xor(low, high), n) == Xor(Steps(low, n), Shift(high, n))
    decreases n
  {
    hide Xor, Half, Odd, Step;
    if n > 0 {
      StepOfSum(low, high);
      StepsSplit(Step(low), Half(high), n - 1);
    }
  }

  lemma BytesOfWord(x: bv32)
    ensures Xor(LowByte(x), HighBytes(x)) == x
  {}

  function Halves(c: bv32): bv32 {
    Half(Half(Half(Half(Half(Half(Half(Half(c))))))))
  }

  lemma HalvesIsShift(c: bv32)
    ensures Halves(c) == ShiftByte(c)
  {}

  lemma HighBytesShift(x: bv32)
    ensures ShiftByte(HighBytes(x)) == ShiftByte(x)
  {}

  lemma HalfOfHigh(x: bv32)
    ensures !Odd(HighBytes(x)) && !Odd(Half(HighBytes(x))) && !Odd(Half(Half(HighBytes(x))))
    ensures !Odd(Half(Half(Half(HighBytes(x))))) && !Odd(Half(Half(Half(Half(HighBytes(x))))))
    ensures !Odd(Half(Half(Half(Half(Half(HighBytes(x)))))))
    ensures !Odd(Half(Half(Half(Half(Half(Half(HighBytes(x))))))))
    ensures !Odd(Half(Half(Half(Half(Half(Half(Half(HighBytes(x)))))))))
  {}

  lemma HighBytesMoveDown(x: bv32)
    ensures LowZero(HighBytes(x), 8)
    ensures Shift(HighBytes(x), 8) == ShiftByte(x)
  {
    hide Half, Odd, HighBytes, ShiftByte;
    HalfOfHigh(x);
    HalvesIsShift(HighBytes(x));
    HighBytesShift(x);
  }

  lemma HighBytesOfSum(c: bv32, b: bv8)
    ensures ShiftByte(Xor(c, b as bv32)) == ShiftByte(c)
  {}

  /** The branch-free step of the loop: the mask is all ones when the bit shifted out is set. */
  function MaskedStep(c: bv32): (r: bv32)
    ensures r == Step(c)
  {
    var mask: bv32 := 0 - (c & 1);
    (c >> 1) ^ (POLYNOMIAL & mask)
  }

  lemma StepsEightIsUpdate(c: bv32, b: bv8)
    ensures Steps(Xor(c, b as bv32), 8) == Update(c, b)
  {
    hide Steps, Shift, LowZero, Xor, LowByte, HighBytes, ShiftByte;
    var x := Xor(c, b as bv32);
    BytesOfWord(x);
    HighBytesMoveDown(x);
    HighBytesOfSum(c, b);
    StepsSplit(LowByte(x), HighBytes(x), 8);
  }

  /** The bit-at-a-time loop agrees with the table. */
  method Crc32UpdateByte(crc: bv32, b: bv8) returns (r: bv32)
    ensures r == Update(crc, b)
  {
    hide Update, Step, MaskedStep, Xor;
    r := Xor(crc, b as bv32);
    StepsEightIsUpdate(crc, b);
    for i := 0 to 8
      invariant Steps(r, 8 - i) == Update(crc, b)
    {
      r := MaskedStep(r);
    }
  }
}
