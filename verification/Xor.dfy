/** The exclusive or of numbers, bit by bit. */
module Xor {
  import opened Arith

  /** Exclusive or of the low k bits. */
  function XorBits(a: nat, b: nat, k: nat): nat {
    if k == 0 then 0 else (a + b) % 2 + 2 * XorBits(a / 2, b / 2, k - 1)
  }

  lemma {:induction false} XorBound(a: nat, b: nat, k: nat)
    ensures XorBits(a, b, k) < Pow(2, k)
  {
    if k > 0 { XorBound(a / 2, b / 2, k - 1); }
  }

  /** Nothing changes a number. */
  lemma {:induction false} XorZero(a: nat, k: nat)
    requires a < Pow(2, k)
    ensures XorBits(a, 0, k) == a
  {
    if k > 0 {
      HalvesBelow(a, k);
      XorZero(a / 2, k - 1);
    }
  }

  lemma {:induction false} XorCommutes(a: nat, b: nat, k: nat)
    ensures XorBits(a, b, k) == XorBits(b, a, k)
  {
    if k > 0 { XorCommutes(a / 2, b / 2, k - 1); }
  }

  /** Done twice it is undone, so it can be cancelled. */
  lemma {:induction false} XorBitsCancel(a: nat, b: nat, c: nat, k: nat)
    requires a < Pow(2, k) && b < Pow(2, k) && c < Pow(2, k)
    ensures XorBits(a, c, k) == XorBits(b, c, k) ==> a == b
  {
    hide Pow;
    if k == 0 {
      NoBits(a, b, c);
    } else {
      HalvesBelow(a, k);
      HalvesBelow(b, k);
      HalvesBelow(c, k);
      XorBitsCancel(a / 2, b / 2, c / 2, k - 1);
      HalfCancels(a, b, c, XorBits(a / 2, c / 2, k - 1), XorBits(b / 2, c / 2, k - 1));
    }
  }

  lemma NoBits(a: nat, b: nat, c: nat)
    requires a < Pow(2, 0) && b < Pow(2, 0) && c < Pow(2, 0)
    ensures a == b
  {}

  /** Equal exclusive ors of one bit more come from equal low bits and equal rests. */
  lemma HalfCancels(a: nat, b: nat, c: nat, x: int, y: int)
    requires x == y ==> a / 2 == b / 2
    ensures (a + c) % 2 + 2 * x == (b + c) % 2 + 2 * y ==> a == b
  {}

  lemma HalvesBelow(a: nat, k: nat)
    requires k > 0 && a < Pow(2, k)
    ensures a / 2 < Pow(2, k - 1)
  {}

  // ---- Single bits ----

  /** Bit i of a number. */
  function Bit(n: nat, i: nat): (b: nat)
    ensures b < 2
  {
    if i == 0 then n % 2 else Bit(n / 2, i - 1)
  }

  lemma {:induction false} BitIs(n: nat, i: nat)
    ensures Pow(2, i) > 0 && Bit(n, i) == n / Pow(2, i) % 2
    decreases i
  {
    if i > 0 {
      BitIs(n / 2, i - 1);
      HalfFirst(n, Pow(2, i - 1));
    }
  }

  lemma HalfFirst(n: nat, w: int)
    requires 0 < w
    ensures n / 2 / w == n / (2 * w)
  {
    var q, r := n / 2 / w, n / 2 % w;
    assert n == 2 * (n / 2) + n % 2;
    assert n / 2 == q * w + r;
    DoubledSum(q, w, r);
    DivModUnique(n, 2 * w, q, 2 * r + n % 2);
  }

  lemma DoubledSum(q: int, w: int, r: int)
    ensures 2 * (q * w + r) == q * (2 * w) + 2 * r
  {}

  /** A bit of the exclusive or is set if exactly one of the two bits is. */
  lemma {:induction false} XorBit(a: nat, b: nat, k: nat, i: nat)
    requires i < k
    ensures Bit(XorBits(a, b, k), i) == (Bit(a, i) + Bit(b, i)) % 2
  {
    if i > 0 {
      XorBit(a / 2, b / 2, k - 1, i - 1);
    }
    LowBit(a, b, XorBits(a / 2, b / 2, k - 1));
  }

  lemma LowBit(a: nat, b: nat, x: nat)
    ensures ((a + b) % 2 + 2 * x) / 2 == x && ((a + b) % 2 + 2 * x) % 2 == (a % 2 + b % 2) % 2
  {
  }

  /** Numbers of k bits that agree in every bit are equal. */
  lemma {:induction false} SameBits(a: nat, b: nat, k: nat)
    requires a < Pow(2, k) && b < Pow(2, k)
    requires forall i :: 0 <= i < k ==> Bit(a, i) == Bit(b, i)
    ensures a == b
  {
    if k > 0 {
      HalvesBelow(a, k);
      HalvesBelow(b, k);
      assert Bit(a, 0) == Bit(b, 0);
      forall i | 0 <= i < k - 1 ensures Bit(a / 2, i) == Bit(b / 2, i) {
        assert Bit(a, i + 1) == Bit(b, i + 1);
      }
      SameBits(a / 2, b / 2, k - 1);
    }
  }
}
