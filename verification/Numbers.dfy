/** Word sizes, and products kept apart because the prover is poor at them. */
module Numbers {
  const TWO_TO_32: nat := 0x1_0000_0000
  const TWO_TO_64: nat := 0x1_0000_0000_0000_0000

  function Times(a: nat, m: nat): nat {
    a * m
  }

  lemma TimesZero(a: nat)
    ensures Times(0, a) == Times(a, 0) == 0
  {}

  lemma TimesSwap(a: nat, b: nat)
    ensures Times(a, b) == Times(b, a)
  {}

  lemma TimesNext(a: nat, m: nat)
    ensures Times(a + 1, m) == Times(a, m) + m
  {}

  lemma TimesAdd(a: nat, b: nat, m: nat)
    ensures Times(a + b, m) == Times(a, m) + Times(b, m)
  {}

  lemma TimesAtMost(a: nat, b: nat, m: nat)
    requires a <= b
    ensures Times(a, m) <= Times(b, m)
  {
    TimesAdd(a, b - a, m);
  }

  function Sum(s: seq<nat>): nat {
    if s == [] then 0 else s[0] + Sum(s[1..])
  }

  lemma {:induction false} SumLast(s: seq<nat>, k: nat)
    requires k < |s|
    ensures Sum(s[..k + 1]) == Sum(s[..k]) + s[k]
  {
    if k > 0 {
      SumLast(s[1..], k - 1);
      assert s[..k + 1][1..] == s[1..][..k] && s[..k][1..] == s[1..][..k - 1];
    }
  }

  /** At most so much more, up to a limit. */
  function Upto(from: nat, more: nat, limit: nat): nat {
    if from + more < limit then from + more else limit
  }

  lemma DivModUnique(v: nat, d: nat, q: nat, r: nat)
    requires d > 0 && r < d && v == q * d + r
    ensures v / d == q && v % d == r
  {
    var q' := v / d;
    assert (q - q') * d == v % d - r;
    NonzeroMultiple(q - q', d);
  }

  lemma NonzeroMultiple(k: int, d: int)
    requires d >= 0
    ensures k >= 1 ==> k * d >= d
    ensures k <= -1 ==> k * d <= -d
  {
    if k >= 1 {
      assert (k - 1) * d >= 0;
    } else if k <= -1 {
      assert (-k - 1) * d >= 0;
    }
  }

  lemma NextRemainder(a: nat, m: nat)
    requires m > 0
    ensures (a + 1) % m == if a % m == m - 1 then 0 else a % m + 1
  {
    var q, r := a / m, a % m;
    assert a == q * m + r;
    if r == m - 1 {
      assert (q + 1) * m == q * m + m;
      DivModUnique(a + 1, m, q + 1, 0);
    } else {
      DivModUnique(a + 1, m, q, r + 1);
    }
  }
}
