/** Powers, and the few facts about division and products of integers that the other modules share. */
module Arith {

  function Pow(b: int, e: nat): int {
    if e == 0 then 1 else b * Pow(b, e - 1)
  }

  lemma {:induction false} PowPositive(b: int, e: nat)
    requires 0 < b
    ensures 0 < Pow(b, e)
  {
    if e > 0 {
      PowPositive(b, e - 1);
      MulPositive(b, Pow(b, e - 1));
    }
  }

  lemma {:induction false} PowAdd(b: int, e: nat, f: nat)
    ensures Pow(b, e + f) == Pow(b, e) * Pow(b, f)
  {
    if e > 0 {
      PowAdd(b, e - 1, f);
      MulAssoc(b, Pow(b, e - 1), Pow(b, f));
    }
  }

  lemma {:induction false} PowMul(b: int, e: nat, f: nat)
    ensures Pow(Pow(b, e), f) == Pow(b, e * f)
  {
    if f > 0 {
      PowMul(b, e, f - 1);
      assert e * f == e + e * (f - 1);
      PowAdd(b, e, e * (f - 1));
    } else {
      assert e * f == 0;
    }
  }

  lemma {:induction false} PowBase(a: int, b: int, e: nat)
    ensures Pow(a * b, e) == Pow(a, e) * Pow(b, e)
  {
    if e > 0 {
      PowBase(a, b, e - 1);
      MulShuffle(a, b, Pow(a, e - 1), Pow(b, e - 1));
    }
  }

  lemma {:induction false} PowOne(e: nat)
    ensures Pow(1, e) == 1
  {
    if e > 0 { PowOne(e - 1); }
  }

  lemma {:induction false} PowZero(e: nat)
    requires 0 < e
    ensures Pow(0, e) == 0
  {
  }

  lemma {:induction false} PowStrict(a: int, b: int, e: nat)
    requires 0 <= a < b
    requires 0 < e
    ensures Pow(a, e) < Pow(b, e)
  {
    if e > 1 {
      PowStrict(a, b, e - 1);
      if a > 0 { PowPositive(a, e - 1); } else { PowZero(e - 1); }
      MulMono(a, b, Pow(a, e - 1));
      MulStrict(b, Pow(a, e - 1), Pow(b, e - 1));
    } else {
      assert Pow(a, 1) == a * Pow(a, 0) == a;
      assert Pow(b, 1) == b * Pow(b, 0) == b;
    }
  }

  /** Larger exponents give larger powers. */
  lemma {:induction false} PowGrows(b: int, e: nat, f: nat)
    requires 1 < b
    requires e <= f
    ensures Pow(b, e) <= Pow(b, f)
    ensures e < f ==> Pow(b, e) < Pow(b, f)
    decreases f
  {
    if e < f {
      PowGrows(b, e, f - 1);
      PowPositive(b, f - 1);
      MulStrict2(1, b, Pow(b, f - 1));
    }
  }

  lemma MulAssoc(a: int, b: int, c: int)
    ensures (a * b) * c == a * (b * c)
  {}

  lemma MulShuffle(a: int, b: int, c: int, d: int)
    ensures (a * b) * (c * d) == (a * c) * (b * d)
  {
    MulAssoc(a, b, c * d);
    MulAssoc(b, c, d);
    MulAssoc(c, b, d);
    MulAssoc(a, c, b * d);
  }

  lemma MulPositive(a: int, b: int)
    requires 0 < a && 0 < b
    ensures 0 < a * b
  {}

  lemma MulMono(a: int, b: int, c: int)
    requires a <= b && 0 <= c
    ensures a * c <= b * c && c * a <= c * b
  {}

  lemma MulStrict(c: int, a: int, b: int)
    requires a < b && 0 < c
    ensures c * a < c * b
  {}

  lemma MulStrict2(a: int, b: int, c: int)
    requires a < b && 0 < c
    ensures a * c < b * c
  {}

  lemma DivBelow(x: int, d: int, q: int)
    requires 0 < d && 0 <= x < q * d
    ensures 0 <= x / d < q
  {
    if x / d >= q { MulMono(q, x / d, d); }
  }

  /** Quotient and remainder are the only pair with these two properties. */
  lemma DivModUnique(x: int, d: int, q: int, r: int)
    requires 0 < d
    requires 0 <= r < d
    requires x == q * d + r
    ensures x / d == q && x % d == r
  {
    var q', r' := x / d, x % d;
    assert x == q' * d + r';
    if q' < q {
      assert (q' + 1) * d == q' * d + d;
      MulMono(q' + 1, q, d);
    } else if q < q' {
      assert (q + 1) * d == q * d + d;
      MulMono(q + 1, q', d);
    }
  }
}
