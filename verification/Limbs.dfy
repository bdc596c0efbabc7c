/** 256-bit integers as four 64-bit limbs, with the explicit carries of src/core/crypto_cpu.hpp. */
module Limbs {
  import opened Arith
  import opened Digits
  import opened NumberTheory

  const B: int := 0x1_0000_0000_0000_0000
  const TWO256: int := 0x1_0000000000000000_0000000000000000_0000000000000000_0000000000000000

  type U64 = x: int | 0 <= x < 0x1_0000_0000_0000_0000
  type U256 = s: seq<U64> | |s| == 4 witness [0, 0, 0, 0]

  /** The field prime 2^256 - 2^32 - 977, and its limbs as the source writes them. */
  const P: int := TWO256 - 0x1_0000_03D1
  const SECP256K1_P: U256 :=
    [0xFFFFFFFEFFFFFC2F, 0xFFFFFFFFFFFFFFFF, 0xFFFFFFFFFFFFFFFF, 0xFFFFFFFFFFFFFFFF]

  // The residue of a modulo P is a % P (ResidueIsMod). It is defined by adding or taking off P round by round, so
  // that a statement about residues shows the solver no remainder by a 256-bit number.

  ghost function Rounds(a: int, n: nat): int {
    if n == 0 then a
    else
      var x := Rounds(a, n - 1);
      if x < 0 then x + P else if x < P then x else x - P
  }

  /** The residue of a, where |a| rounds always suffice; field elements are compared by their residues. */
  ghost function R(a: int): (r: int)
    ensures 0 <= r < P
  {
    RoundsEnd(a, if a < 0 then -a else a);
    Rounds(a, if a < 0 then -a else a)
  }

  /** Each round moves one multiple of P, until the residue is reached. */
  lemma {:induction false} RoundsAre(a: int, n: nat)
    ensures a >= 0 ==> Rounds(a, n) == a - P * (if n < a / P then n else a / P)
    ensures a < 0 ==> Rounds(a, n) == a + P * (if n < -(a / P) then n else -(a / P))
  {
    if n > 0 {
      RoundsAre(a, n - 1);
      OneRound(a, a / P, a % P, n - 1, Rounds(a, n - 1));
    }
  }

  lemma OneRound(a: int, q: int, r: int, n: nat, x: int)
    requires a == q * P + r && 0 <= r < P
    requires a >= 0 ==> x == a - P * (if n < q then n else q)
    requires a < 0 ==> x == a + P * (if n < -q then n else -q)
    ensures var y := if x < 0 then x + P else if x < P then x else x - P;
            && (a >= 0 ==> y == a - P * (if n + 1 < q then n + 1 else q))
            && (a < 0 ==> y == a + P * (if n + 1 < -q then n + 1 else -q))
  {}

  lemma RoundsEnd(a: int, n: nat)
    requires a <= n && -a <= n
    ensures Rounds(a, n) == a % P
  {
    RoundsAre(a, n);
  }

  lemma ResidueIsMod(a: int)
    ensures R(a) == a % P
  {
    RoundsEnd(a, if a < 0 then -a else a);
  }

  lemma Same(a: int, b: int)
    ensures R(a) == R(b) <==> Cong(a, b, P)
  {
    ResidueIsMod(a);
    ResidueIsMod(b);
    CongSameMod(a, b, P);
  }

  /** The residue is the one reduced number that differs by a multiple of P. */
  lemma ResidueIs(a: int, q: int, r: int)
    requires a == q * P + r && 0 <= r < P
    ensures R(a) == r
  {
    ResidueIsMod(a);
    DivModUnique(a, P, q, r);
  }

  // The field operations on residues.

  ghost function FAdd(a: int, b: int): (r: int)
    ensures 0 <= r < P
  {
    R(a + b)
  }

  ghost function FSub(a: int, b: int): (r: int)
    ensures 0 <= r < P
  {
    R(a - b)
  }

  /** The product modulo P, added up from copies of a, for the same reason as R; MulIs says what it is. */
  ghost function FMul(a: int, b: int): (r: int)
    ensures 0 <= r < P
    decreases if b < 0 then -b else b
  {
    if b == 0 then 0 else if b > 0 then R(FMul(a, b - 1) + a) else R(FMul(a, b + 1) - a)
  }

  lemma {:induction false} MulIs(a: int, b: int)
    ensures FMul(a, b) == R(a * b)
    decreases if b < 0 then -b else b
  {
    hide R;
    if b == 0 {
      ResidueIs(0, 0, 0);
    } else {
      var c := if b > 0 then b - 1 else b + 1;
      MulIs(a, c);
      OneMoreCopy(a * c, a);
      assert a * (b - 1) == a * b - a && a * (b + 1) == a * b + a;
    }
  }

  lemma OneMoreCopy(x: int, a: int)
    ensures R(R(x) + a) == R(x + a) && R(R(x) - a) == R(x - a)
  {
    hide R;
    ReducesTo(x);
    CongRefl(a, P);
    CongAdd(R(x), x, a, a, P);
    Same(R(x) + a, x + a);
    Same(R(x) - a, x - a);
  }

  lemma ReducesTo(a: int)
    ensures Cong(R(a), a, P)
  {
    ResidueIsMod(a);
    CongMod(a, P);
  }

  ghost function Val(a: U256): int {
    Num(a, B)
  }

  lemma ValLimbs(a: U256)
    ensures Val(a) == a[0] + B * (a[1] + B * (a[2] + B * a[3]))
  {
    assert a[1..][1..] == a[2..] && a[2..][1..] == a[3..] && a[3..][1..] == [];
    assert Num(a[3..], B) == a[3] + B * Num([], B);
    assert Num(a[2..], B) == a[2] + B * Num(a[3..], B);
    assert Num(a[1..], B) == a[1] + B * Num(a[2..], B);
  }

  lemma ValBound(a: U256)
    ensures 0 <= Val(a) < TWO256
  {
    ValLimbs(a);
  }

  lemma ValP()
    ensures Val(SECP256K1_P) == P
  {
    ValLimbs(SECP256K1_P);
  }

  lemma PowB()
    ensures Pow(B, 0) == 1 && Pow(B, 1) == B && Pow(B, 4) == TWO256 && Pow(B, 8) == TWO256 * TWO256
  {
    assert Pow(B, 1) == B * Pow(B, 0);
    assert Pow(B, 2) == B * Pow(B, 1);
    assert Pow(B, 3) == B * Pow(B, 2);
    assert Pow(B, 4) == B * Pow(B, 3);
    PowAdd(B, 4, 4);
  }

  lemma ValInjective(a: U256, b: U256)
    requires Val(a) == Val(b)
    ensures a == b
  {
    NumInjective(a, b, B);
  }

  /** The limb-wise comparison, from the top limb down, is the comparison of the values. */
  method LessThan(a: U256, b: U256) returns (less: bool)
    ensures less <==> Val(a) < Val(b)
  {
    ValLimbs(a);
    ValLimbs(b);
    var i := 3;
    while i >= 0
      invariant -1 <= i <= 3
      invariant forall k :: i < k < 4 ==> a[k] == b[k]
    {
      if a[i] < b[i] { return true; }
      if a[i] > b[i] { return false; }
      i := i - 1;
    }
    return false;
  }

  /** One limb of an addition, with weight w. */
  lemma CarryStep(w: int, x: int, y: int, c: int, d: int, c': int)
    requires x + y + c == B * c' + d
    ensures w * d + (B * w) * c' == w * x + w * y + w * c
  {
    assert w * (B * c' + d) == w * (B * c') + w * d;
    assert (B * w) * c' == w * (B * c');
    assert w * (x + y + c) == w * x + w * y + w * c;
  }

  /** One limb of a subtraction, with weight w. */
  lemma BorrowStep(w: int, x: int, y: int, c: int, d: int, c': int)
    requires x - y - c == d - B * c'
    ensures w * d - (B * w) * c' == w * x - w * y - w * c
  {
    assert w * (d - B * c') == w * d - w * (B * c');
    assert (B * w) * c' == w * (B * c');
    assert w * (x - y - c) == w * x - w * y - w * c;
  }

  method Add256(a: U256, b: U256) returns (r: U256, carry: int)
    ensures 0 <= carry <= 1
    ensures Val(r) + carry * TWO256 == Val(a) + Val(b)
  {
    r, carry := [0, 0, 0, 0], 0;
    var i := 0;
    while i < 4
      invariant 0 <= i <= 4 && 0 <= carry <= 1
      invariant Num(r[..i], B) + Pow(B, i) * carry == Num(a[..i], B) + Num(b[..i], B)
    {
      var sum := a[i] + b[i] + carry;
      ghost var r0, c0 := r, carry;
      r := r[i := sum % B];
      carry := sum / B;
      NumTake(a, i, B);
      NumTake(b, i, B);
      NumTake(r, i, B);
      assert r[..i] == r0[..i];
      CarryStep(Pow(B, i), a[i], b[i], c0, r[i], carry);
      i := i + 1;
    }
    assert r[..4] == r && a[..4] == a && b[..4] == b;
    PowB();
  }

  method Sub256(a: U256, b: U256) returns (r: U256, borrow: int)
    ensures borrow == if Val(a) < Val(b) then 1 else 0
    ensures Val(r) == Val(a) - Val(b) + borrow * TWO256
  {
    r, borrow := [0, 0, 0, 0], 0;
    var i := 0;
    while i < 4
      invariant 0 <= i <= 4 && 0 <= borrow <= 1
      invariant Num(r[..i], B) - Pow(B, i) * borrow == Num(a[..i], B) - Num(b[..i], B)
    {
      var diff := a[i] - b[i] - borrow;
      ghost var r0, c0 := r, borrow;
      r := r[i := diff % B];
      borrow := if diff < 0 then 1 else 0;
      DivModUnique(diff, B, -borrow, diff + B * borrow);
      assert r[i] == diff + B * borrow;
      NumTake(a, i, B);
      NumTake(b, i, B);
      NumTake(r, i, B);
      assert r[..i] == r0[..i];
      BorrowStep(Pow(B, i), a[i], b[i], c0, r[i], borrow);
      i := i + 1;
    }
    assert r[..4] == r && a[..4] == a && b[..4] == b;
    PowB();
    ValBound(a);
    ValBound(b);
    ValBound(r);
  }

  /** The sum modulo P, for operands whose sum is below 2P (in particular for reduced ones). */
  method ModAdd(a: U256, b: U256) returns (r: U256)
    ensures Val(a) + Val(b) < 2 * P ==> Val(r) == FAdd(Val(a), Val(b))
  {
    var carry;
    r, carry := Add256(a, b);
    ValP();
    ValBound(a);
    ValBound(b);
    ValBound(r);
    var small := LessThan(r, SECP256K1_P);
    if carry != 0 || !small {
      var dropped;
      r, dropped := Sub256(r, SECP256K1_P);
      ValBound(r);
    }
    hide R;
    if Val(a) + Val(b) < 2 * P { ResidueIs(Val(a) + Val(b), if carry != 0 || !small then 1 else 0, Val(r)); }
  }

  /** The difference modulo P, for a reduced and b at most a + P. */
  method ModSub(a: U256, b: U256) returns (r: U256)
    ensures Val(a) < P && Val(b) <= Val(a) + P ==> Val(r) == FSub(Val(a), Val(b))
  {
    var borrow;
    r, borrow := Sub256(a, b);
    ValP();
    ValBound(a);
    ValBound(b);
    ValBound(r);
    if borrow != 0 {
      var dropped;
      r, dropped := Add256(r, SECP256K1_P);
      ValBound(r);
    }
    hide R;
    if Val(a) < P && Val(b) <= Val(a) + P { ResidueIs(Val(a) - Val(b), -borrow, Val(r)); }
  }
}
