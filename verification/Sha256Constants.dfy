/** Where the constants of SHA-256 come from (sections 4.2.2 and 5.3.3 of FIPS 180-4). */
module Sha256Constants {
  import opened Numbers
  import opened Sha256Spec

  /** The first 64 primes. */
  const PRIMES: seq<nat> := P0 + P1 + P2 + P3 + P4 + P5 + P6 + P7

  const P0: seq<nat> := [2, 3, 5, 7, 11, 13, 17, 19]
  const P1: seq<nat> := [23, 29, 31, 37, 41, 43, 47, 53]
  const P2: seq<nat> := [59, 61, 67, 71, 73, 79, 83, 89]
  const P3: seq<nat> := [97, 101, 103, 107, 109, 113, 127, 131]
  const P4: seq<nat> := [137, 139, 149, 151, 157, 163, 167, 173]
  const P5: seq<nat> := [179, 181, 191, 193, 197, 199, 211, 223]
  const P6: seq<nat> := [227, 229, 233, 239, 241, 251, 257, 263]
  const P7: seq<nat> := [269, 271, 277, 281, 283, 293, 307, 311]

  /** The whole part of the cube root, of numbers below 343. */
  function CubeRoot(p: nat): nat {
    if p < 8 then 1 else if p < 27 then 2 else if p < 64 then 3 else if p < 125 then 4 else if p < 216 then 5 else 6
  }

  function SquareRoot(p: nat): nat {
    if p < 4 then 1 else if p < 9 then 2 else if p < 16 then 3 else 4
  }

  /** The first 32 bits of the fractional part of the cube root. */
  predicate IsCubeFraction(p: nat, k: bv32) {
    var x := CubeRoot(p) * TWO_TO_32 + k as nat;
    x * x * x <= p * TWO_TO_32 * TWO_TO_32 * TWO_TO_32 < (x + 1) * (x + 1) * (x + 1)
  }

  predicate IsSquareFraction(p: nat, h: bv32) {
    var x := SquareRoot(p) * TWO_TO_32 + h as nat;
    x * x <= p * TWO_TO_32 * TWO_TO_32 < (x + 1) * (x + 1)
  }

  lemma Initial()
    ensures IsSquareFraction(2, INITIAL.a) && IsSquareFraction(3, INITIAL.b)
    ensures IsSquareFraction(5, INITIAL.c) && IsSquareFraction(7, INITIAL.d)
    ensures IsSquareFraction(11, INITIAL.e) && IsSquareFraction(13, INITIAL.f)
    ensures IsSquareFraction(17, INITIAL.g) && IsSquareFraction(19, INITIAL.h)
  {}

  lemma Row0()
    ensures IsCubeFraction(P0[0], K0[0]) && IsCubeFraction(P0[1], K0[1])
    ensures IsCubeFraction(P0[2], K0[2]) && IsCubeFraction(P0[3], K0[3])
    ensures IsCubeFraction(P0[4], K0[4]) && IsCubeFraction(P0[5], K0[5])
    ensures IsCubeFraction(P0[6], K0[6]) && IsCubeFraction(P0[7], K0[7])
  {}

  lemma Row1()
    ensures IsCubeFraction(P1[0], K1[0]) && IsCubeFraction(P1[1], K1[1])
    ensures IsCubeFraction(P1[2], K1[2]) && IsCubeFraction(P1[3], K1[3])
    ensures IsCubeFraction(P1[4], K1[4]) && IsCubeFraction(P1[5], K1[5])
    ensures IsCubeFraction(P1[6], K1[6]) && IsCubeFraction(P1[7], K1[7])
  {}

  lemma Row2()
    ensures IsCubeFraction(P2[0], K2[0]) && IsCubeFraction(P2[1], K2[1])
    ensures IsCubeFraction(P2[2], K2[2]) && IsCubeFraction(P2[3], K2[3])
    ensures IsCubeFraction(P2[4], K2[4]) && IsCubeFraction(P2[5], K2[5])
    ensures IsCubeFraction(P2[6], K2[6]) && IsCubeFraction(P2[7], K2[7])
  {}

  lemma Row3()
    ensures IsCubeFraction(P3[0], K3[0]) && IsCubeFraction(P3[1], K3[1])
    ensures IsCubeFraction(P3[2], K3[2]) && IsCubeFraction(P3[3], K3[3])
    ensures IsCubeFraction(P3[4], K3[4]) && IsCubeFraction(P3[5], K3[5])
    ensures IsCubeFraction(P3[6], K3[6]) && IsCubeFraction(P3[7], K3[7])
  {}

  lemma Row4()
    ensures IsCubeFraction(P4[0], K4[0]) && IsCubeFraction(P4[1], K4[1])
    ensures IsCubeFraction(P4[2], K4[2]) && IsCubeFraction(P4[3], K4[3])
    ensures IsCubeFraction(P4[4], K4[4]) && IsCubeFraction(P4[5], K4[5])
    ensures IsCubeFraction(P4[6], K4[6]) && IsCubeFraction(P4[7], K4[7])
  {}

  lemma Row5()
    ensures IsCubeFraction(P5[0], K5[0]) && IsCubeFraction(P5[1], K5[1])
    ensures IsCubeFraction(P5[2], K5[2]) && IsCubeFraction(P5[3], K5[3])
    ensures IsCubeFraction(P5[4], K5[4]) && IsCubeFraction(P5[5], K5[5])
    ensures IsCubeFraction(P5[6], K5[6]) && IsCubeFraction(P5[7], K5[7])
  {}

  lemma Row6()
    ensures IsCubeFraction(P6[0], K6[0]) && IsCubeFraction(P6[1], K6[1])
    ensures IsCubeFraction(P6[2], K6[2]) && IsCubeFraction(P6[3], K6[3])
    ensures IsCubeFraction(P6[4], K6[4]) && IsCubeFraction(P6[5], K6[5])
    ensures IsCubeFraction(P6[6], K6[6]) && IsCubeFraction(P6[7], K6[7])
  {}

  lemma Row7()
    ensures IsCubeFraction(P7[0], K7[0]) && IsCubeFraction(P7[1], K7[1])
    ensures IsCubeFraction(P7[2], K7[2]) && IsCubeFraction(P7[3], K7[3])
    ensures IsCubeFraction(P7[4], K7[4]) && IsCubeFraction(P7[5], K7[5])
    ensures IsCubeFraction(P7[6], K7[6]) && IsCubeFraction(P7[7], K7[7])
  {}

  lemma Constants0(t: nat)
    requires 0 <= t < 8
    ensures IsCubeFraction(PRIMES[t], K[t])
  {
    hide IsCubeFraction;
    Row0();
    assert K[t] == K0[t - 0] && PRIMES[t] == P0[t - 0];
  }

  lemma Constants1(t: nat)
    requires 8 <= t < 16
    ensures IsCubeFraction(PRIMES[t], K[t])
  {
    hide IsCubeFraction;
    Row1();
    assert K[t] == K1[t - 8] && PRIMES[t] == P1[t - 8];
  }

  lemma Constants2(t: nat)
    requires 16 <= t < 24
    ensures IsCubeFraction(PRIMES[t], K[t])
  {
    hide IsCubeFraction;
    Row2();
    assert K[t] == K2[t - 16] && PRIMES[t] == P2[t - 16];
  }

  lemma Constants3(t: nat)
    requires 24 <= t < 32
    ensures IsCubeFraction(PRIMES[t], K[t])
  {
    hide IsCubeFraction;
    Row3();
    assert K[t] == K3[t - 24] && PRIMES[t] == P3[t - 24];
  }

  lemma Constants4(t: nat)
    requires 32 <= t < 40
    ensures IsCubeFraction(PRIMES[t], K[t])
  {
    hide IsCubeFraction;
    Row4();
    assert K[t] == K4[t - 32] && PRIMES[t] == P4[t - 32];
  }

  lemma Constants5(t: nat)
    requires 40 <= t < 48
    ensures IsCubeFraction(PRIMES[t], K[t])
  {
    hide IsCubeFraction;
    Row5();
    assert K[t] == K5[t - 40] && PRIMES[t] == P5[t - 40];
  }

  lemma Constants6(t: nat)
    requires 48 <= t < 56
    ensures IsCubeFraction(PRIMES[t], K[t])
  {
    hide IsCubeFraction;
    Row6();
    assert K[t] == K6[t - 48] && PRIMES[t] == P6[t - 48];
  }

  lemma Constants7(t: nat)
    requires 56 <= t < 64
    ensures IsCubeFraction(PRIMES[t], K[t])
  {
    hide IsCubeFraction;
    Row7();
    assert K[t] == K7[t - 56] && PRIMES[t] == P7[t - 56];
  }

  /** Every round constant is the fraction of the cube root of its prime. */
  lemma RoundConstants(t: nat)
    requires t < 64
    ensures IsCubeFraction(PRIMES[t], K[t])
  {
    hide IsCubeFraction, PRIMES, K;
    if t < 8 { Constants0(t); }
    else if t < 16 { Constants1(t); }
    else if t < 24 { Constants2(t); }
    else if t < 32 { Constants3(t); }
    else if t < 40 { Constants4(t); }
    else if t < 48 { Constants5(t); }
    else if t < 56 { Constants6(t); }
    else { Constants7(t); }
  }
}
