/** Multiplication modulo P: schoolbook product, folding by 2^32 + 977, final subtraction; powers and inverses. */
module FieldMul {
  import opened Arith
  import opened Digits
  import opened NumberTheory
  import opened Limbs

  /** 2^256 = C (mod P). */
  const C: int := 0x1000003D1

  lemma ProductBound(a: U64, b: U64)
    ensures 0 <= a * b <= (B - 1) * (B - 1)
    ensures b <= C ==> a * b < C * B
  {
    MulMono(a, B - 1, b);
    MulMono(0, a, b);
  }

  method Mul64To128(a: U64, b: U64) returns (lo: U64, hi: U64)
    ensures hi * B + lo == a * b
    ensures b <= C ==> hi < C
  {
    var prod: int := a * b;
    ProductBound(a, b);
    DivBelow(prod, B, B);
    if b <= C { DivBelow(prod, B, C); }
    lo, hi := prod % B, prod / B;
  }

  /** The carry out of a 64-bit addition, recognised by the wrapped sum being smaller than an operand. */
  method AddWrap(x: U64, y: U64) returns (sum: U64, carry: int)
    ensures 0 <= carry <= 1 && sum + B * carry == x + y
    ensures y == 0 ==> carry == 0
  {
    var s: int := x + y;
    sum := s % B;
    carry := if sum < x then 1 else 0;
  }

  lemma MulSub(w: int, x: int, y: int)
    ensures w * (x - y) == w * x - w * y
  {}

  /** One cell of the schoolbook product: weight w, old digit p, product x*y, carry in c. */
  lemma CellStep(w: int, p: int, x: int, y: int, c: int, d: int, c': int)
    requires p + x * y + c == B * c' + d
    ensures w * d + (B * w) * c' == w * p + x * (w * y) + w * c
  {
    assert w * (B * c' + d) == w * (B * c') + w * d;
    assert (B * w) * c' == w * (B * c');
    assert w * (p + x * y + c) == w * p + w * (x * y) + w * c;
    MulAssoc(w, x, y);
    MulAssoc(x, w, y);
  }

  /** prod += a_i * b * B^i, the inner loop of the schoolbook product; the row's carry is returned. */
  method MulRow(prod: array<U64>, ai: U64, b: U256, i: nat) returns (carry: U64)
    requires prod.Length == 8 && i < 4
    modifies prod
    ensures forall k :: 0 <= k < i || i + 4 <= k < 8 ==> prod[k] == old(prod[k])
    ensures Num(prod[..], B) + Pow(B, i + 4) * carry == old(Num(prod[..], B)) + ai * (Pow(B, i) * Val(b))
  {
    carry := 0;
    NumNothing(b[..0]);
    hide Num, Pow;
    var j := 0;
    while j < 4
      invariant 0 <= j <= 4
      invariant forall k :: 0 <= k < i || i + j <= k < 8 ==> prod[k] == old(prod[k])
      invariant Num(prod[..], B) + Pow(B, i + j) * carry
             == old(Num(prod[..], B)) + ai * (Pow(B, i) * Num(b[..j], B))
    {
      ghost var before, c0 := prod[..], carry;
      var lo, hi := Mul64To128(ai, b[j]);
      var sum, c1 := AddWrap(prod[i + j], lo);
      var c2;
      sum, c2 := AddWrap(carry, sum);
      prod[i + j] := sum;
      MulMono(ai, B - 1, b[j]);
      MulMono(b[j], B - 1, B - 1);
      carry := hi + c1 + c2;

      assert prod[..] == before[i + j := sum];
      NumUpdate(before, i + j, sum, B);
      NumTake(b, j, B);
      RowStep(Pow(B, i), Pow(B, j), before[i + j], ai, b[j], Num(b[..j], B), c0, sum, carry);
      PowAdd(B, i, j);
      j := j + 1;
    }
    assert b[..4] == b;
  }

  /** The arithmetic of one step of MulRow, with the weights u = B^i and v = B^j. */
  lemma RowStep(u: int, v: int, p: int, x: int, y: int, n: int, c: int, d: int, c': int)
    requires p + x * y + c == B * c' + d
    ensures (u * v) * (d - p) + (B * (u * v)) * c' + x * (u * n) == x * (u * (n + v * y)) + (u * v) * c
  {
    var w := u * v;
    CellStep(w, p, x, y, c, d, c');
    assert u * (n + v * y) == u * n + w * y by { MulAssoc(u, v, y); }
    assert x * (u * n + w * y) == x * (u * n) + x * (w * y);
    assert w * (d - p) == w * d - w * p;
  }

  /** Adding the row's last carry; the total is known to fit, so no carry is left at the top. */
  method PropagateCarry(prod: array<U64>, start: nat, carryIn: U64)
    requires prod.Length == 8 && start <= 8
    requires Num(prod[..], B) + Pow(B, start) * carryIn < Pow(B, 8)
    modifies prod
    ensures Num(prod[..], B) == old(Num(prod[..], B)) + Pow(B, start) * carryIn
  {
    var k := start;
    var carry: U64 := carryIn;
    while k < 8 && carry != 0
      invariant start <= k <= 8
      invariant Num(prod[..], B) + Pow(B, k) * carry == old(Num(prod[..], B)) + Pow(B, start) * carryIn
    {
      ghost var before, c0 := prod[..], carry;
      var sum, c := AddWrap(prod[k], carry);
      prod[k] := sum;
      carry := c;
      assert prod[..] == before[k := sum];
      NumUpdate(before, k, sum, B);
      CarryStep(Pow(B, k), before[k], 0, c0, sum, carry);
      MulSub(Pow(B, k), sum, before[k]);
      k := k + 1;
    }
    if carry != 0 {
      NumBound(prod[..], B);
      PowPositive(B, 8);
      MulMono(1, carry, Pow(B, 8));
    }
  }

  lemma NextRow(n: int, w: int, ai: int, v: int)
    ensures (n + w * ai) * v == n * v + ai * (w * v)
  {
    MulAssoc(ai, w, v);
  }

  /** The 512-bit schoolbook product of two 256-bit numbers; no carry is lost. */
  method Schoolbook(a: U256, b: U256) returns (prod: array<U64>)
    ensures fresh(prod) && prod.Length == 8
    ensures Num(prod[..], B) == Val(a) * Val(b)
  {
    prod := new U64[8](_ => 0);
    NumZeros(prod[..], B);
    NumNothing(a[..0]);
    hide Num, Pow, Val;
    var i := 0;
    while i < 4
      invariant 0 <= i <= 4
      invariant Num(prod[..], B) == Num(a[..i], B) * Val(b)
    {
      NumTake(a, i, B);
      NextRow(Num(a[..i], B), Pow(B, i), a[i], Val(b));
      var carry := MulRow(prod, a[i], b, i);
      PartialProductFits(a, b, i + 1);
      PropagateCarry(prod, i + 4, carry);
      i := i + 1;
    }
    assert a[..4] == a;
  }

  lemma PartialProductFits(a: U256, b: U256, i: nat)
    requires i <= 4
    ensures Num(a[..i], B) * Val(b) < Pow(B, 8)
  {
    NumBound(a[..i], B);
    PowGrows(B, i, 4);
    ValBound(b);
    PowB();
    MulMono(Num(a[..i], B), TWO256 - 1, Val(b));
    MulMono(Val(b), TWO256 - 1, TWO256 - 1);
  }

  /** The value after a fold: low half plus C times the high half. */
  ghost function Folded(prod: seq<U64>): int
    requires |prod| == 8
  {
    Num(prod[..4], B) + C * Num(prod[4..], B)
  }

  /** prod := low + C * high, in place; the carry becomes the only nonzero high limb. */
  method Fold(prod: array<U64>)
    requires prod.Length == 8
    modifies prod
    ensures Num(prod[..], B) == old(Folded(prod[..]))
  {
    ghost var low, high := prod[..4], prod[4..];
    assert prod[..][..4] == low && prod[..][4..] == high;
    var carry: U64 := 0;
    var i := 0;
    NumNothing(high[..0]);
    hide Num, Pow;
    while i < 4
      invariant 0 <= i <= 4 && carry <= C
      invariant forall k :: i <= k < 4 ==> prod[k] == low[k] && prod[k + 4] == high[k]
      invariant forall k :: 4 <= k < i + 4 ==> prod[k] == 0
      invariant Num(prod[..4], B) + Pow(B, i) * carry == Num(low, B) + C * Num(high[..i], B)
    {
      ghost var before, c0 := prod[..4], carry;
      var lo, hi := Mul64To128(prod[i + 4], C);
      var s1, c1 := AddWrap(prod[i], lo);
      var s2, c2 := AddWrap(s1, carry);
      prod[i] := s2;
      FoldCarry(low[i], high[i], c0, lo, hi, c1, c2, s2);
      carry := hi + c1 + c2;
      prod[i + 4] := 0;
      assert prod[..4] == before[i := s2];
      NumUpdate(before, i, s2, B);
      NumTake(high, i, B);
      FoldStep(Pow(B, i), low[i], high[i], c0, s2, carry,
               Num(before, B), Num(low, B), Num(high[..i], B));
      PowUp(i);
      i := i + 1;
    }
    prod[4] := carry;
    assert high[..4] == high;
    assert prod[..][..5] == prod[..4] + [carry];
    NumTopZeros(prod[..], 5, B);
    NumSnoc(prod[..4], carry, B);
  }

  lemma NumNothing(s: seq<int>)
    requires s == []
    ensures Num(s, B) == 0 && Pow(B, 0) == 1
  {}

  lemma PowUp(i: nat)
    ensures Pow(B, i + 1) == B * Pow(B, i)
  {}

  /** One limb of the fold, of weight w, in numbers. */
  lemma FoldStep(w: int, p: int, h: int, c: int, s: int, carry: int, before: int, low: int, high: int)
    requires before + w * c == low + C * high
    requires p + C * h + c == B * carry + s
    ensures before + w * (s - p) + (B * w) * carry == low + C * (high + w * h)
  {
    assert w * (p + C * h + c) == w * p + C * (w * h) + w * c;
    assert w * (B * carry + s) == (B * w) * carry + w * s;
    assert w * (s - p) == w * s - w * p;
  }

  lemma FoldCarry(p: U64, h: U64, c: int, lo: U64, hi: U64, c1: int, c2: int, s: U64)
    requires 0 <= c <= C
    requires hi * B + lo == h * C
    requires s + B * (c1 + c2) == p + lo + c
    ensures p + C * h + c == B * (hi + c1 + c2) + s
    ensures hi + c1 + c2 <= C
  {
    MulMono(h, B - 1, C);
  }

  /** Folding keeps the value modulo P. */
  lemma FoldedCong(prod: seq<U64>)
    requires |prod| == 8
    ensures Cong(Folded(prod), Num(prod, B), P)
  {
    NumSplit(prod, 4, B);
    PowB();
    var h := Num(prod[4..], B);
    assert Folded(prod) == Num(prod, B) + (-h) * P;
    CongIntro(Folded(prod), Num(prod, B), P, -h);
  }

  /** How large the value can still be before fold number round. */
  ghost function FoldBound(round: nat): int {
    if round == 0 then TWO256 * TWO256
    else if round == 1 then TWO256 * (1 + C)
    else if round == 2 then TWO256 + C * C
    else TWO256
  }

  /** Each fold brings the value under the next bound: three folds always clear the high half. */
  lemma FoldShrinks(prod: seq<U64>, round: nat)
    requires |prod| == 8 && round < 3
    requires Num(prod, B) < FoldBound(round)
    ensures Folded(prod) < FoldBound(round + 1)
  {
    var low, high := Num(prod[..4], B), Num(prod[4..], B);
    NumSplit(prod, 4, B);
    PowB();
    NumBound(prod[..4], B);
    NumBound(prod[4..], B);
  }

  lemma HighZeroFits(prod: seq<U64>)
    requires |prod| == 8
    requires prod[4] == 0 && prod[5] == 0 && prod[6] == 0 && prod[7] == 0
    ensures Num(prod, B) == Num(prod[..4], B) < TWO256
  {
    NumTopZeros(prod, 4, B);
    NumBound(prod[..4], B);
    PowB();
  }

  /** A 512-bit number below 2^256 has only zero limbs in its high half. */
  lemma FitsHighZero(prod: seq<U64>)
    requires |prod| == 8 && Num(prod, B) < TWO256
    ensures Num(prod[..4], B) == Num(prod, B)
  {
    NumSplit(prod, 4, B);
    PowB();
    NumBound(prod[..4], B);
    NumBound(prod[4..], B);
    var h := Num(prod[4..], B);
    if h > 0 { MulMono(1, h, TWO256); }
  }

  /** The product modulo P, reduced, for any two 256-bit numbers. */
  method ModMul(a: U256, b: U256) returns (r: U256)
    ensures Val(r) == FMul(Val(a), Val(b)) == R(Val(a) * Val(b))
  {
    hide R, FMul;
    MulIs(Val(a), Val(b));
    ghost var product := Val(a) * Val(b);
    var prod := Schoolbook(a, b);
    NumBound(prod[..], B);
    PowB();
    CongRefl(product, P);
    var round := 0;
    while round < 3
      invariant 0 <= round <= 3
      invariant Num(prod[..], B) < FoldBound(round)
      invariant Cong(Num(prod[..], B), product, P)
    {
      if prod[4] == 0 && prod[5] == 0 && prod[6] == 0 && prod[7] == 0 {
        HighZeroFits(prod[..]);
        break;
      }
      FoldedCong(prod[..]);
      CongTrans(Folded(prod[..]), Num(prod[..], B), product, P);
      FoldShrinks(prod[..], round);
      Fold(prod);
      round := round + 1;
    }
    FitsHighZero(prod[..]);
    r := prod[..4];
    assert prod[..][..4] == r;
    r := SubtractWhileLarge(r);
    CongTrans(Val(r), Num(prod[..4], B), product, P);
    Same(Val(r), product);
    ResidueIs(Val(r), 0, Val(r));
  }

  /** The final reduction loop; it subtracts at most once. */
  method SubtractWhileLarge(a: U256) returns (r: U256)
    ensures 0 <= Val(r) < P && Cong(Val(r), Val(a), P)
    ensures Val(r) == if Val(a) < P then Val(a) else Val(a) - P
  {
    r := a;
    ValP();
    ValBound(a);
    var small := LessThan(r, SECP256K1_P);
    while !small
      invariant Val(r) == Val(a) || (Val(a) >= P && Val(r) == Val(a) - P)
      invariant small <==> Val(r) < P
      decreases Val(r)
    {
      var dropped;
      r, dropped := Sub256(r, SECP256K1_P);
      small := LessThan(r, SECP256K1_P);
    }
    ValBound(r);
    CongMod(Val(a), P);
  }
}
