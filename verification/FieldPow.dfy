/** Square-and-multiply over the 256 bits of an exponent, and inversion by Fermat's little theorem. */
module FieldPow {
  import opened Arith
  import opened Digits
  import opened NumberTheory
  import opened Limbs
  import opened FieldMul

  /** Bit i of k, read from its limb as the source reads it. */
  function Bit(k: U256, i: nat): (b: int)
    requires i < 256
    ensures 0 <= b <= 1
  {
    PowPositive(2, i % 64);
    (k[i / 64] / Pow(2, i % 64)) % 2
  }

  /** k without its lowest i bits. */
  ghost function High(k: U256, i: nat): int {
    PowPositive(2, i);
    Val(k) / Pow(2, i)
  }

  /** The lowest i bits of k. */
  ghost function Low(k: U256, i: nat): int {
    PowPositive(2, i);
    Val(k) % Pow(2, i)
  }

  lemma Pow2Limb()
    ensures Pow(2, 64) == B && Pow(2, 256) == TWO256
  {
    assert Pow(2, 8) == 256;
    PowMul(2, 8, 8);
    assert Pow(256, 4) == 256 * Pow(256, 3) == 256 * (256 * Pow(256, 2));
    assert Pow(256, 2) == 256 * Pow(256, 1) == 256 * 256;
    PowAdd(256, 4, 4);
    PowMul(2, 64, 4);
    PowB();
  }

  /** floor(floor(x / a) / b) = floor(x / (a * b)). */
  lemma DivDiv(x: int, a: int, b: int)
    requires 0 < a && 0 < b
    ensures 0 < a * b && x / a / b == x / (a * b)
  {
    MulPositive(a, b);
    var q, r := x / a, x % a;
    var q', r' := q / b, q % b;
    MulAssoc(a, b, q');
    assert a * q == a * (b * q' + r') == a * (b * q') + a * r';
    MulMono(r', b - 1, a);
    assert a * (b - 1) == a * b - a;
    DivModUnique(x, a * b, q', a * r' + r);
  }

  /** Multiples of 2w do not change the parity of the quotient by w. */
  lemma EvenQuotient(x: int, w: int, n: int)
    requires 0 < w
    ensures (x + w * (2 * n)) / w % 2 == x / w % 2
  {
    var q := x / w;
    assert (q + 2 * n) * w == q * w + w * (2 * n);
    DivModUnique(x + w * (2 * n), w, q + 2 * n, x % w);
  }

  lemma BitBelowLimbs(limb: int, above: int, b: nat)
    requires b < 64
    ensures Pow(2, b) > 0 && (limb + B * above) / Pow(2, b) % 2 == limb / Pow(2, b) % 2
  {
    var w, v := Pow(2, b), Pow(2, 63 - b);
    PowPositive(2, b);
    Pow2Limb();
    PowAdd(2, b, 64 - b);
    assert Pow(2, 64 - b) == 2 * v;
    MulAssoc(w, 2 * v, above);
    MulAssoc(2, v, above);
    EvenQuotient(limb, w, v * above);
  }

  /** The number without its lowest l limbs starts with limb l. */
  lemma DropLimbs(k: U256, l: nat)
    requires l < 4
    ensures Pow(2, 64 * l) > 0 && Val(k) / Pow(2, 64 * l) == k[l] + B * Num(k[l + 1..], B)
  {
    var q, r, d := Num(k[l..], B), Num(k[..l], B), Pow(B, l);
    NumSplit(k, l, B);
    NumBound(k[..l], B);
    assert k[l..][1..] == k[l + 1..];
    PowPositive(B, l);
    LimbWeight(l);
    assert d * q == q * d;
    DivModUnique(Val(k), d, q, r);
  }

  lemma LimbWeight(l: nat)
    ensures Pow(2, 64 * l) == Pow(B, l)
  {
    Pow2Limb();
    PowMul(2, 64, l);
  }

  /** The limb bit is the bit of the value. */
  lemma BitOfValue(k: U256, i: nat)
    requires i < 256
    ensures Bit(k, i) == High(k, i) % 2
  {
    var l, b := i / 64, i % 64;
    DropLimbs(k, l);
    BitBelowLimbs(k[l], Num(k[l + 1..], B), b);
    PowAdd(2, 64 * l, b);
    PowPositive(2, 64 * l);
    PowPositive(2, b);
    DivDiv(Val(k), Pow(2, 64 * l), Pow(2, b));
  }

  /** One bit moves from the high part to the low part. */
  lemma BitStep(k: U256, i: nat)
    requires i < 256
    ensures High(k, i) == 2 * High(k, i + 1) + Bit(k, i)
    ensures Low(k, i + 1) == Low(k, i) + Pow(2, i) * Bit(k, i)
  {
    hide Bit, Val;
    BitOfValue(k, i);
    PowPositive(2, i);
    PowPositive(2, i + 1);
    DivDiv(Val(k), Pow(2, i), 2);
    assert Pow(2, i) * 2 == Pow(2, i + 1);
    hide Pow;
    OneBitDown(Pow(2, i), Val(k), Bit(k, i));
  }

  /** Splitting off one more bit of n at weight w. */
  lemma OneBitDown(w: int, n: int, bit: int)
    requires 0 < w && (n / w) % 2 == bit && n / w / 2 == n / (w * 2)
    ensures n / w == 2 * (n / (w * 2)) + bit
    ensures n % (w * 2) == n % w + w * bit
  {
    var h, h' := n / w, n / (w * 2);
    assert w * h == w * (2 * h') + w * bit;
    MulAssoc(w, 2, h');
  }

  lemma BitEnds(k: U256)
    ensures High(k, 0) == Val(k) && High(k, 256) == 0
    ensures Low(k, 0) == 0 && Low(k, 256) == Val(k)
  {
    ValBound(k);
    Pow2Limb();
    DivModUnique(Val(k), TWO256, 0, Val(k));
  }

  /** x is the power e of b, modulo P. */
  ghost predicate IsPower(x: int, b: int, e: nat) {
    Cong(x, Pow(b, e), P)
  }

  /** The product modulo P of two numbers is congruent to the product of what they are congruent to. */
  lemma ProductCong(x: int, y: int, u: int, v: int)
    requires Cong(x, u, P) && Cong(y, v, P)
    ensures Cong(FMul(x, y), u * v, P)
  {
    hide R, FMul;
    MulIs(x, y);
    CongMul(x, u, y, v, P);
    ReducesTo(x * y);
    CongTrans(R(x * y), x * y, u * v, P);
  }

  lemma PowerStart(b: int)
    ensures IsPower(1, b, 0) && IsPower(b, b, 1)
  {
    assert Pow(b, 1) == b * Pow(b, 0);
    CongRefl(b, P);
    CongRefl(1, P);
  }

  method ModPow(baseIn: U256, exp: U256) returns (r: U256)
    ensures Val(exp) >= 0 && Val(r) == R(Pow(Val(baseIn), Val(exp)))
  {
    hide R, FMul;
    ghost var b := Val(baseIn);
    var base := baseIn;
    r := [1, 0, 0, 0];
    ValLimbs(r);
    BitEnds(exp);
    PowerStart(b);
    var i := 0;
    while i < 256
      invariant 0 <= i <= 256 && Pow(2, i) > 0
      invariant IsPower(Val(base), b, Pow(2, i))
      invariant Low(exp, i) >= 0 && IsPower(Val(r), b, Low(exp, i))
      invariant 0 <= Val(r) < P
    {
      BitStep(exp, i);
      PowPositive(2, i + 1);
      var limb, bit := i / 64, i % 64;
      PowPositive(2, bit);
      if (exp[limb] / Pow(2, bit)) % 2 == 1 {
        ProductCong(Val(r), Val(base), Pow(b, Low(exp, i)), Pow(b, Pow(2, i)));
        PowAdd(b, Low(exp, i), Pow(2, i));
        r := ModMul(r, base);
      }
      ProductCong(Val(base), Val(base), Pow(b, Pow(2, i)), Pow(b, Pow(2, i)));
      PowAdd(b, Pow(2, i), Pow(2, i));
      base := ModMul(base, base);
      i := i + 1;
    }
    Same(Val(r), Pow(b, Val(exp)));
    ResidueIs(Val(r), 0, Val(r));
  }

  /** The inverse modulo P that the source computes: the power P-2. It is 0 for 0. */
  ghost function Inv(a: int): (i: int)
    ensures 0 <= i < P
  {
    FPow(a, P - 2)
  }

  /** Powers modulo P. */
  ghost function FPow(a: int, e: nat): (r: int)
    ensures 0 <= r < P
  {
    if e == 0 then 1 else FMul(a, FPow(a, e - 1))
  }

  lemma {:induction false} FPowIs(a: int, e: nat)
    ensures FPow(a, e) == R(Pow(a, e))
  {
    hide R, FMul;
    if e == 0 {
      ResidueIs(1, 0, 1);
    } else {
      FPowIs(a, e - 1);
      MulIs(a, FPow(a, e - 1));
      ReducesTo(Pow(a, e - 1));
      CongRefl(a, P);
      CongMul(a, a, FPow(a, e - 1), Pow(a, e - 1), P);
      Same(a * FPow(a, e - 1), Pow(a, e));
    }
  }

  lemma InvCorrect(a: int)
    requires Prime(P) && !Cong(a, 0, P)
    ensures Cong(a * Inv(a), 1, P) && !Cong(Inv(a), 0, P)
  {
    FPowIs(a, P - 2);
    hide R, Pow, FPow, FMul, Prime;
    var x := Pow(a, P - 2);
    FermatInverse(P, a);
    ReducesTo(x);
    CongRefl(a, P);
    CongMul(a, a, Inv(a), x, P);
    CongTrans(a * Inv(a), a * x, 1, P);
    if Cong(Inv(a), 0, P) {
      CongMul(a, a, Inv(a), 0, P);
      CongSym(a * Inv(a), 1, P);
      CongTrans(1, a * Inv(a), 0, P);
      CongReduced(1, 0, P);
    }
  }

  /** Inversion; the source repeats the loop of mod_pow with the exponent P-2. */
  method ModInv(a: U256) returns (r: U256)
    ensures Val(r) == Inv(Val(a)) == R(Pow(Val(a), P - 2))
    ensures Prime(P) && !Cong(Val(a), 0, P) ==> Cong(Val(a) * Val(r), 1, P)
  {
    ValP();
    ValLimbs([2, 0, 0, 0]);
    FPowIs(Val(a), P - 2);
    hide R, Pow, FPow, FMul, Prime, Cong, Val;
    var exp, borrow := Sub256(SECP256K1_P, [2, 0, 0, 0]);
    r := ModPow(a, exp);
    if Prime(P) && !Cong(Val(a), 0, P) { InvCorrect(Val(a)); }
  }
}
