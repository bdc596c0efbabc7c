/** Multiples of the generator, and double-and-add over the bits of a 256-bit scalar. */
module ScalarMul {
  import opened Arith
  import opened NumberTheory
  import opened Limbs
  import opened FieldPow
  import opened Curve
  import opened Associativity
  import opened Jacobian
  import opened JacobianLaw

  const GX: int := 0x79BE667EF9DCBBAC55A06295CE870B07029BFCDB2DCE28D959F2815B16F81798
  const GY: int := 0x483ADA7726A3C4655DA4FBFC0E1108A8FD17B448A68554199C47D08FFB10D4B8
  const SECP256K1_GX: U256 :=
    [0x59F2815B16F81798, 0x029BFCDB2DCE28D9, 0x55A06295CE870B07, 0x79BE667EF9DCBBAC]
  const SECP256K1_GY: U256 :=
    [0x9C47D08FFB10D4B8, 0xFD17B448A6855419, 0x5DA4FBFC0E1108A8, 0x483ADA7726A3C465]
  /** The order of the generator. */
  const N: int := 0xFFFFFFFFFFFFFFFFFFFFFFFFFFFFFFFEBAAEDCE6AF48A03BBFD25E8CD0364141

  const G: Point := Affine(GX, GY)

  lemma ValG()
    ensures Val(SECP256K1_GX) == GX && Val(SECP256K1_GY) == GY
  {
    ValLimbs(SECP256K1_GX);
    ValLimbs(SECP256K1_GY);
  }

  lemma GOnCurve()
    ensures OnCurve(G)
  {
    hide R;
    var x2 := 0x8550E7D238FCF3086BA9ADCF0FB52A9DE3652194D06CB5BB38D50229B854FC49;
    var y2 := 0x4866D6A5AB41AB2C6BCC57CCD3735DA5F16F80A548E5E20A44E4E9B8118C26F2;
    ResidueIs(GX * GX, 0x39E58A8055B6FB264B75EC8C646509784204AC15A8C24E05BABC9729E58090B9, x2);
    ResidueIs(GY * GY, 0x1461286ABE28C5F1DF2D7D4BCA391B5070F6EC678FE75B56871BF154987E3E12, y2);
    ResidueIs(x2 * GX + 7, 0x3F6664FEC7445B86BAD8C9A43EFFC5DC7384557BB62EADD8E2177AE0A2039723, y2);
    Small(x2);
    Prod(GX * GX, x2, GX, GX);
    Sum(GX * GX * GX, x2 * GX, 7, 7);
  }

  /** k times the generator, as a k-fold sum. */
  ghost function Mul(k: nat): Point {
    if k == 0 then Infinity else Add(Mul(k - 1), G)
  }

  lemma {:induction false} MulOnCurve(k: nat)
    requires Prime(P)
    ensures OnCurve(Mul(k))
  {
    if k > 0 {
      MulOnCurve(k - 1);
      GOnCurve();
      AddOnCurve(Mul(k - 1), G);
    }
  }

  lemma MulNext(k: nat)
    requires 0 < k
    ensures Mul(k) == Add(Mul(k - 1), G)
  {
    hide Add, G;
  }

  lemma MulNone()
    ensures Mul(0) == Infinity
  {}

  lemma {:induction false} MulSum(a: nat, b: nat)
    requires Prime(P)
    ensures Mul(a + b) == Add(Mul(a), Mul(b))
    decreases b
  {
    hide Add, OnCurve, Prime, G, Mul;
    if b > 0 {
      MulSum(a, b - 1);
      MulOnCurve(a);
      MulOnCurve(b - 1);
      GOnCurve();
      Associative(Mul(a), Mul(b - 1), G);
      MulNext(a + b);
      MulNext(b);
    } else {
      MulNone();
      AddInfinity(Mul(a));
    }
  }

  // ---- The order of the generator ----

  /** What is taken on trust about the generator: N is prime, and N times G is infinity. */
  ghost predicate CurveFacts() {
    Prime(P) && Prime(N) && Mul(N) == Infinity
  }

  lemma CurveParts()
    requires CurveFacts()
    ensures Prime(P)
  {}

  lemma {:induction false} MulPeriods(a: nat, t: nat)
    requires Prime(P) && Mul(a) == Infinity
    ensures a * t >= 0 && Mul(a * t) == Infinity
    decreases t
  {
    hide Add, Mul, Prime;
    if t > 0 {
      MulPeriods(a, t - 1);
      assert a * t == a * (t - 1) + a;
      MulSum(a * (t - 1), a);
      AddInfinity(Infinity);
    } else {
      MulNone();
    }
  }

  /** Whole periods do not count. */
  lemma MulRemainder(a: nat, t: nat, r: nat)
    requires Prime(P) && Mul(a) == Infinity
    ensures a * t + r >= 0 && Mul(a * t + r) == Mul(r)
  {
    hide Add, Mul, Prime;
    MulPeriods(a, t);
    MulSum(a * t, r);
    AddInfinity(Mul(r));
  }

  /** No smaller multiple is infinity, by the descent of Euclid's lemma. */
  lemma {:induction false} SmallMultipleFinite(a: nat)
    requires CurveFacts() && 0 < a < N
    ensures Mul(a) != Infinity
    decreases a
  {
    hide Add, Mul, Prime;
    CurveParts();
    if a == 1 {
      MulNone();
      MulNext(1);
      AddInfinity(G);
    } else if Mul(a) == Infinity {
      PrimeRemainder(a);
      SmallMultipleFinite(N % a);
      MulRemainder(a, N / a, N % a);
    }
  }

  lemma PrimeRemainder(a: nat)
    requires Prime(N) && 1 < a < N
    ensures 0 < N % a < a && N == a * (N / a) + N % a
  {}

  /** The generator has order N. */
  lemma OrderOf(k: nat)
    requires CurveFacts()
    ensures Mul(k) == Infinity <==> k % N == 0
  {
    hide Add, Mul, Prime;
    CurveParts();
    var r := k % N;
    assert k == N * (k / N) + r;
    MulRemainder(N, k / N, r);
    if r != 0 { SmallMultipleFinite(r); } else { MulNone(); }
  }

  lemma AddInfinity(p: Point)
    ensures Add(p, Infinity) == p && Add(Infinity, p) == p
  {}

  lemma AddSelf(p: Point)
    ensures Add(p, p) == Double(p)
  {}

  /** R = k * G by double-and-add from the top bit. */
  method EcMul(r: ECPoint, k: U256)
    modifies r
    ensures r.Coords().Valid()
    ensures Val(k) >= 0
    ensures Prime(P) ==> ToPoint(r.Coords()) == Mul(Val(k))
  {
    hide Add, Double, FMul, FAdd, FSub, JacAdd, JacDouble, ToPoint, Prime, High, Low, Val, R, Mul, Pow;
    ValBound(k);
    BitEnds(k);
    ValG();
    r.SetInfinity();
    InfinityToPoint();
    var t := new ECPoint();
    var i := 255;
    while i >= 0
      invariant -1 <= i <= 255
      invariant r != t && fresh(t) && r.Coords().Valid()
      invariant High(k, i + 1) >= 0
      invariant Prime(P) ==> ToPoint(r.Coords()) == Mul(High(k, i + 1))
    {
      BitStep(k, i);
      ghost var before := r.Coords();
      EcDouble(t, r);
      r.CopyFrom(t);
      ghost var doubled := r.Coords();
      ResultsValid(before, 0, 0);
      var limb, bit := i / 64, i % 64;
      PowPositive(2, bit);
      var odd := (k[limb] / Pow(2, bit)) % 2 == 1;
      if odd {
        EcAdd(t, r, SECP256K1_GX, SECP256K1_GY);
        r.CopyFrom(t);
        ResultsValid(doubled, GX, GY);
      }
      if Prime(P) { DoubleAndAdd(before, High(k, i + 1), odd, r.Coords()); }
      HighNonneg(k, i);
      i := i - 1;
    }
  }

  lemma HighNonneg(k: U256, i: nat)
    ensures High(k, i) >= 0
  {
    ValBound(k);
    PowPositive(2, i);
  }

  lemma InfinityToPoint()
    ensures ToPoint(Jac(1, 1, 0)) == Infinity == Mul(0)
  {}

  lemma MulTwice(m: nat)
    requires Prime(P)
    ensures Mul(2 * m) == Double(Mul(m))
  {
    hide Add, Double, Mul, Prime;
    MulSum(m, m);
    AddSelf(Mul(m));
    assert m + m == 2 * m;
  }

  lemma PlusG(j: Jac, m: nat)
    requires Prime(P) && j.Valid() && ToPoint(j) == Mul(m)
    ensures ToPoint(JacAdd(j, GX, GY)) == Mul(m + 1)
  {
    GOnCurve();
    MulNext(m + 1);
    hide Add, JacAdd, ToPoint, Mul, Prime, OnCurve;
    AddCorrect(j, GX, GY);
  }

  /** One round of double-and-add on the accumulated multiple m. */
  lemma DoubleAndAdd(j: Jac, m: nat, odd: bool, j': Jac)
    requires Prime(P) && j.Valid() && ToPoint(j) == Mul(m)
    requires j' == if odd then JacAdd(JacDouble(j), GX, GY) else JacDouble(j)
    ensures ToPoint(j') == Mul(2 * m + if odd then 1 else 0)
  {
    hide Add, Double, JacAdd, JacDouble, ToPoint, Mul, Prime;
    MulTwice(m);
    DoubleCorrect(j);
    if odd { PlusG(JacDouble(j), 2 * m); }
  }
}
