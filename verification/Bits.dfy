/** Bit lengths of numbers, and of numbers given by limbs. */
module Bits {
  import opened Arith
  import opened Digits
  import opened Limbs
  import opened FieldPow

  /** The position of the highest set bit, plus one. */
  function BitLen(n: nat): (l: nat)
    ensures l == 0 <==> n == 0
  {
    if n == 0 then 0 else 1 + BitLen(n / 2)
  }

  lemma {:induction false} BitLenBounds(n: nat)
    requires 0 < n
    ensures Pow(2, BitLen(n) - 1) <= n < Pow(2, BitLen(n))
  {
    if n > 1 {
      BitLenBounds(n / 2);
    } else {
      assert Pow(2, 1) == 2 * Pow(2, 0);
      assert BitLen(1) == 1 + BitLen(0);
    }
  }

  lemma BitLenUnique(n: nat, l: nat)
    requires 0 < l
    requires Pow(2, l - 1) <= n < Pow(2, l)
    ensures BitLen(n) == l
  {
    PowPositive(2, l - 1);
    BitLenBounds(n);
    if BitLen(n) < l {
      PowGrows(2, BitLen(n), l - 1);
    } else if l < BitLen(n) {
      PowGrows(2, l, BitLen(n) - 1);
    }
  }

  /** The bit length of a number whose top part is hi and whose lowest w bits are lo. */
  lemma BitLenShift(hi: nat, lo: nat, w: nat)
    requires 0 < hi && lo < Pow(2, w)
    ensures BitLen(Pow(2, w) * hi + lo) == w + BitLen(hi)
  {
    var l, m := BitLen(hi), Pow(2, w);
    BitLenBounds(hi);
    PowPositive(2, w);
    PowAdd(2, w, l - 1);
    PowAdd(2, w, l);
    MulMono(Pow(2, l - 1), hi, m);
    MulMono(hi + 1, Pow(2, l), m);
    assert m * (hi + 1) == m * hi + m;
    BitLenUnique(m * hi + lo, w + l);
  }

  lemma {:induction false} BitLenMonotone(n: nat, k: nat)
    requires n < Pow(2, k)
    ensures BitLen(n) <= k
  {
    if n > 0 && BitLen(n) > k {
      BitLenBounds(n);
      PowGrows(2, k, BitLen(n) - 1);
    }
  }

  /** A number whose limbs above position i are zero, and limb i not, has the bit length 64 i + that of limb i. */
  lemma TopLimb(a: U256, i: nat)
    requires i < 4 && a[i] != 0
    requires forall k :: i < k < 4 ==> a[k] == 0
    ensures Val(a) >= 0 && BitLen(Val(a)) == 64 * i + BitLen(a[i])
  {
    hide Num, Pow, BitLen;
    NumTopZeros(a, i + 1, B);
    NumTake(a, i, B);
    NumBound(a[..i], B);
    LimbWeight(i);
    BitLenShift(a[i], Num(a[..i], B), 64 * i);
  }

  /** UInt256::bit_length; counting leading zeros of a limb is 64 minus its bit length. */
  method BitLength(a: U256) returns (l: nat)
    ensures Val(a) >= 0 && l == BitLen(Val(a)) <= 256
  {
    ValBound(a);
    Pow2Limb();
    BitLenMonotone(Val(a), 256);
    var i := 3;
    while i >= 0
      invariant -1 <= i <= 3
      invariant forall k :: i < k < 4 ==> a[k] == 0
    {
      if a[i] != 0 {
        TopLimb(a, i);
        return 64 * i + BitLen(a[i]);
      }
      i := i - 1;
    }
    NumZeros(a, B);
    return 0;
  }

  /** A single bit, written into limb shift / 64. */
  lemma SingleBit(a: U256, shift: nat)
    requires shift < 256
    requires a[shift / 64] == Pow(2, shift % 64)
    requires forall k :: 0 <= k < 4 && k != shift / 64 ==> a[k] == 0
    ensures Val(a) == Pow(2, shift)
  {
    var w := shift / 64;
    NumTopZeros(a, w + 1, B);
    NumTake(a, w, B);
    NumZeros(a[..w], B);
    LimbWeight(w);
    PowAdd(2, 64 * w, shift % 64);
  }
}
