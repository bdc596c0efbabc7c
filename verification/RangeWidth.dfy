/** The width of a key range, and the ranges of the puzzles. */
module RangeWidth {
  import opened Arith
  import opened Digits
  import opened BigEndian
  import opened Limbs
  import opened FieldPow
  import opened Bits
  import opened ByteCodec

  /** UInt256::operator+=: the sum modulo 2^256. */
  method AddSmall(a: U256, v: U64) returns (r: U256)
    ensures Val(r) == (Val(a) + v) % TWO256
  {
    hide Num, Pow;
    r := a;
    var carry: U64 := v;
    var i := 0;
    PowUpTo(0);
    assert r[..0] == a[..0] == [];
    NumZeros([], B);
    while i < 4 && carry != 0
      invariant 0 <= i <= 4 && r[i..] == a[i..]
      invariant Num(r[..i], B) + Pow(B, i) * carry == Num(a[..i], B) + v
      invariant i > 0 ==> carry <= 1
    {
      assert r[i] == r[i..][0] == a[i..][0] == a[i];
      var sum: U64 := (r[i] + carry) % B;
      ghost var r0, c0 := r, carry;
      carry := if sum < r[i] then 1 else 0;
      assert r0[i] as int + 0 + c0 == B * carry + sum;
      r := r[i := sum];
      assert r[..i] == r0[..i] && r[i + 1..] == a[i + 1..];
      CarryStep(Pow(B, i), a[i], 0, c0, sum, carry);
      NumTake(r, i, B);
      NumTake(a, i, B);
      PowUpTo(i);
      i := i + 1;
    }
    if i < 4 {
      NumSplit(r, i, B);
      NumSplit(a, i, B);
    } else {
      assert r[..4] == r && a[..4] == a;
    }
    PowB();
    ValBound(r);
    ValBound(a);
    WrapOnce(Val(r), Val(a) + v, if i < 4 then 0 else carry);
  }

  lemma PowUpTo(i: nat)
    ensures Pow(B, 0) == 1 && Pow(B, i + 1) == B * Pow(B, i)
  {}

  lemma WrapOnce(r: int, n: int, carry: int)
    requires 0 <= r < TWO256 && r + carry * TWO256 == n
    ensures r == n % TWO256
  {
    DivModUnique(n, TWO256, carry, r);
  }

  /** The number of bits of end - start + 1; 0 unless start < end, and 0 again for the range of all 2^256 keys. */
  function RangeBits(start: int, end: int): nat {
    if end <= start || end - start + 1 >= TWO256 then 0 else BitLen(end - start + 1)
  }

  method Difference(e: U256, s: U256) returns (diff: U256, borrow: U64)
    ensures borrow == if Val(e) < Val(s) then 1 else 0
    ensures Val(diff) == Val(e) - Val(s) + borrow * TWO256
  {
    hide Num, Pow;
    diff := [0, 0, 0, 0];
    borrow := 0;
    PowUpTo(0);
    assert diff[..0] == e[..0] == s[..0] == [];
    NumZeros([], B);
    for i := 0 to 4
      invariant borrow <= 1
      invariant Num(diff[..i], B) - Pow(B, i) * borrow == Num(e[..i], B) - Num(s[..i], B)
    {
      var a, b := e[i], s[i];
      ghost var d0, c0 := diff, borrow;
      diff := diff[i := (a - b - borrow) % B];
      borrow := if borrow == 0 then if a < b then 1 else 0 else if a <= b then 1 else 0;
      DivModUnique(a - b - c0, B, -(borrow as int), a - b - c0 + B * borrow);
      assert diff[..i] == d0[..i];
      NumTake(e, i, B);
      NumTake(s, i, B);
      NumTake(diff, i, B);
      BorrowStep(Pow(B, i), a, b, c0, diff[i], borrow);
      PowUpTo(i);
    }
    assert diff[..4] == diff && e[..4] == e && s[..4] == s;
    PowB();
    ValBound(e);
    ValBound(s);
    ValBound(diff);
  }

  lemma HalfBit(n: nat)
    ensures BitLen(n) == if n == 0 then 0 else 1 + BitLen(n / 2)
  {}

  /** The position of the highest set bit plus one, found by shifting the top nonzero limb right. */
  method ShiftedLength(size: U256) returns (bits: nat)
    ensures Val(size) >= 0 && bits == BitLen(Val(size))
  {
    hide Pow, BitLen;
    ValBound(size);
    var i := 3;
    while i >= 0
      invariant -1 <= i <= 3
      invariant forall k :: i < k < 4 ==> size[k] == 0
    {
      if size[i] != 0 {
        var v: U64 := size[i];
        var msb := 0;
        HalfBit(v);
        v := v / 2;
        while v != 0
          invariant 0 <= msb && msb + 1 + BitLen(v) == BitLen(size[i])
          decreases v
        {
          HalfBit(v);
          msb := msb + 1;
          v := v / 2;
        }
        HalfBit(v);
        TopLimb(size, i);
        return i * 64 + msb + 1;
      }
      i := i - 1;
    }
    NumZeros(size, B);
    HalfBit(0);
    return 0;
  }

  method RangeBitsFromBe(startBe: Bytes32, endBe: Bytes32) returns (bits: nat)
    ensures bits == RangeBits(Big(startBe, 256), Big(endBe, 256))
  {
    hide Big, Pow, Num, BitLen;
    var s := Be32ToLimbsLe(startBe);
    var e := Be32ToLimbsLe(endBe);
    LimbsOfValue(startBe);
    LimbsOfValue(endBe);
    ValBound(s);
    ValBound(e);
    var diff, borrow := Difference(e, s);
    if borrow != 0 {
      return 0;
    }
    ValLimbs(diff);
    if diff[0] == 0 && diff[1] == 0 && diff[2] == 0 && diff[3] == 0 {
      return 0;
    }
    var size := AddSmall(diff, 1);
    ValLimbs(size);
    bits := ShiftedLength(size);
  }

  /** The full range is the one proper range whose width does not come out as its bit length. */
  lemma WidthIsBitLength(start: nat, end: nat)
    requires start < end < TWO256
    ensures RangeBits(start, end) == BitLen(end - start + 1) <==> !(start == 0 && end == TWO256 - 1)
  {}

  // ---- The puzzles ----

  method RangeStart(bits: nat) returns (r: U256)
    requires 1 <= bits
    ensures Val(r) == if bits <= 256 then Pow(2, bits - 1) else 0
  {
    var word := (bits - 1) / 64;
    var bit := (bits - 1) % 64;
    r := [0, 0, 0, 0];
    if word < 4 {
      Pow2Limb();
      PowGrows(2, bit, 64);
      PowPositive(2, bit);
      r := r[word := Pow(2, bit)];
      SingleBit(r, bits - 1);
    } else {
      NumZeros(r, B);
    }
  }

  method RangeEnd(bits: nat) returns (r: U256)
    ensures Val(r) == if bits <= 256 then Pow(2, bits) - 1 else TWO256 - 1
  {
    hide Num, Pow;
    r := [0, 0, 0, 0];
    var fullWords := bits / 64;
    var remaining := bits % 64;
    var i := 0;
    while i < fullWords && i < 4
      invariant 0 <= i <= 4 && i <= fullWords
      invariant forall k :: 0 <= k < 4 ==> r[k] == if k < i then B - 1 else 0
    {
      r := r[i := 0xFFFF_FFFF_FFFF_FFFF];
      i := i + 1;
    }
    AllOnes(r, i);
    Pow2Limb();
    if remaining > 0 && fullWords < 4 {
      ghost var ones := r;
      PowGrows(2, remaining, 64);
      PowPositive(2, remaining);
      r := r[fullWords := Pow(2, remaining) - 1];
      NumUpdate(ones, fullWords, r[fullWords], B);
      LimbWeight(fullWords);
      PowAdd(2, 64 * fullWords, remaining);
      Widen(Pow(B, fullWords), Pow(2, remaining));
    } else {
      LimbWeight(i);
    }
  }

  lemma Widen(w: int, v: int)
    ensures w - 1 + w * (v - 1 - 0) == w * v - 1
  {}

  lemma {:induction false} AllOnes(a: U256, i: nat)
    requires i <= 4
    requires forall k :: 0 <= k < 4 ==> a[k] == if k < i then B - 1 else 0
    ensures Val(a) == Pow(B, i) - 1
    decreases i
  {
    if i == 0 {
      NumZeros(a, B);
    } else {
      var b := a[i - 1 := 0];
      AllOnes(b, i - 1);
      NumUpdate(b, i - 1, B - 1, B);
      assert b[i - 1 := B - 1] == a;
      Widen(Pow(B, i - 1), B);
    }
  }

  /** Puzzle N has width N: its inclusive range [2^(N-1), 2^N - 1] holds 2^(N-1) keys. */
  lemma PuzzleWidth(n: nat)
    requires 1 <= n <= 256
    ensures RangeBits(Pow(2, n - 1), Pow(2, n) - 1) == if n == 1 then 0 else n
  {
    PowPositive(2, n - 1);
    if n > 1 {
      PowGrows(2, 1, n - 1);
      Pow2Limb();
      PowGrows(2, n - 1, 255);
      BitLenUnique(Pow(2, n - 1), n);
      assert Pow(2, 1) == 2;
    }
  }
}
