/** How a worker thread sets up its two kangaroos, and when the wild one starts where it should. */
module KangarooStart {
  import opened Arith
  import opened NumberTheory
  import opened Limbs
  import opened Curve
  import opened Jacobian
  import opened JacobianLaw
  import opened ScalarMul
  import opened Aliasing
  import opened Kangaroo

  const HALF: int := 0x8000_0000_0000_0000

  lemma HalfValue(a: U256, h: U256)
    requires h[0] == a[0] / 2 + (a[1] % 2) * HALF && h[1] == a[1] / 2 + (a[2] % 2) * HALF
    requires h[2] == a[2] / 2 + (a[3] % 2) * HALF && h[3] == a[3] / 2
    ensures Val(h) == Val(a) / 2
  {
    ValLimbs(a);
    ValLimbs(h);
  }

  lemma SmallValue(x: U64)
    ensures Val([x, 0, 0, 0]) == x
  {
    ValLimbs([x, 0, 0, 0]);
  }

  lemma TwoSums(a: int, b: int, c: int)
    ensures ((a + b) % TWO256 + c) % TWO256 == (a + b + c) % TWO256
  {}

  /** The tame kangaroo starts in the middle of the range, plus a random offset below 2^20. */
  method StartTame(rangeStart: U256, rangeSize: U256, random: U64) returns (k: Kangaroo)
    ensures fresh(k) && fresh(k.point) && k.point.Coords().Valid() && k.isTame && k.steps == 0
    ensures Val(k.distance) == (Val(rangeSize) / 2 + random % 0x10_0000 + Val(rangeStart)) % TWO256
    ensures Prime(P) ==> Val(k.distance) >= 0 && k.State().point == Mul(Val(k.distance))
  {
    hide Prime, Mul, ToPoint;
    k := new Kangaroo();
    k.isTame := true;
    var start: U256 := [
      rangeSize[0] / 2 + (rangeSize[1] % 2) * HALF, rangeSize[1] / 2 + (rangeSize[2] % 2) * HALF,
      rangeSize[2] / 2 + (rangeSize[3] % 2) * HALF, rangeSize[3] / 2];
    HalfValue(rangeSize, start);
    var offset: U256 := [random % 0x10_0000, 0, 0, 0];
    SmallValue(random % 0x10_0000);
    ghost var a := start;
    var carry;
    start, carry := Add256(start, offset);
    WrappedSum(a, offset, start, carry);
    ghost var b := start;
    start, carry := Add256(start, rangeStart);
    WrappedSum(b, rangeStart, start, carry);
    TwoSums(Val(rangeSize) / 2, random % 0x10_0000, Val(rangeStart));
    k.distance := start;
    EcMul(k.point, start);
  }

  /** The affine coordinates that ec_to_affine gives: (0, 0) for infinity. */
  ghost function XY(p: Point): (int, int) {
    if p == Infinity then (0, 0) else (p.x, p.y)
  }

  /** The condition on a target (tx, ty) and an offset point (qx, qy) under which adding the second to the first
      in place is harmless. */
  ghost predicate StartsRight(tx: int, ty: int, qx: int, qy: int) {
    var h, s := qx - tx, qy - ty;
    if tx != qx then R(8 * (s * (h * h * (qx + 2 * tx) - s * s))) == ty
    else if ty != qy then true
    else
      var x3, y3 := TangentX(Jac(tx, ty, 1)), TangentEarlyY(Jac(tx, ty, 1));
      R(y3) == ty || (Zero(x3) && R(Cube(y3)) == R(Cube(ty)))
  }

  lemma StartsRightIs(tx: int, ty: int, qx: int, qy: int)
    requires Reduced(tx) && Reduced(ty) && Reduced(qx) && Reduced(qy)
    ensures InPlaceRight(Jac(tx, ty, 1), qx, qy) <==> StartsRight(tx, ty, qx, qy)
  {
    hide R, TangentX, TangentEarlyY, Cube;
    OnePowers();
    SquareIs(qx - tx);
    SquareIs(qy - ty);
    Difference(qx, tx);
    Difference(qy, ty);
    Small(tx);
    Small(qx);
    Small(ty);
    Small(qy);
  }

  // ---- The offset zero: the point added is (0, 0), which is not on the curve ----

  /** The line from a point to the origin has a third point with the same x only if y is not 0. */
  lemma OriginThird(tx: int, ty: int)
    requires Prime(P) && Reduced(tx) && Reduced(ty) && tx != 0
    ensures var t := ThirdPoint(ChordSlope(tx, ty, 0, 0), tx, ty, 0);
            t.x == tx ==> ty != 0 && t.y != ty
  {
    hide R, ChordSlope, ThirdPoint, Prime;
    var l := ChordSlope(tx, ty, 0, 0);
    ThirdIs(l, tx, ty, 0);
    var x3 := R(l * l - tx - 0);
    Small(tx);
    Small(ty);
    Small(0);
    Chord(tx, ty, 0, 0);
    if x3 == tx {
      if ty == 0 { FlatToOrigin(l, tx); }
      assert l * (tx - x3) == 0;
      if R(0 - ty) == ty { NegatedIsSame(ty); }
    }
  }

  lemma FlatToOrigin(l: int, tx: int)
    requires Prime(P) && Reduced(tx) && tx != 0 && Zero(l * (0 - tx))
    ensures R(l * l - tx - 0) != tx
  {
    hide R, Prime;
    Small(tx);
    Small(0);
    Difference(0, tx);
    ZeroProduct(l, 0 - tx);
    TimesZero(l, l);
    Sum(l * l, 0, tx, tx);
    if R(0 - tx) == tx { NegatedIsSame(tx); }
  }

  lemma NegatedIsSame(a: int)
    requires Prime(P) && Reduced(a) && R(0 - a) == a
    ensures a == 0
  {
    hide R, Prime;
    Small(a);
    Small(0);
    Sum(a, 0 - a, a, a);
    assert a + a == 2 * a;
    if a != 0 { TwoNotZero(a); }
  }

  /** If the in-place addition to (tx, ty) gives tx again, r * (V - X3) is zero, and so is the y it gives. */
  lemma SameXGivesZeroY(tx: int, ty: int, qx: int, qy: int)
    requires Prime(P) && Reduced(tx) && Reduced(ty) && Reduced(qx) && Reduced(qy) && tx != qx
    ensures var p := ToPoint(JacAddInPlace(Jac(tx, ty, 1), qx, qy));
            p.Affine? && p.x == tx ==> p.y == 0
  {
    hide R, FMul, FAdd, FSub, AddH, AddR, AddI, AddJ, AddV, AddX, AddZ, ToPoint, Sq, Cube, Prime;
    var j := Jac(tx, ty, 1);
    var a := JacAddInPlace(j, qx, qy);
    var h := AddH(j, qx);
    Small(1);
    Small(0);
    UnitZ(tx, ty);
    PointStands(j);
    ExceptionalCases(j, qx, qy, tx, ty);
    ChordZNotZero(j, qx);
    ResultsValid(j, qx, qy);
    PointStands(a);
    if ToPoint(a).x == tx {
      GapResidues(j, qx, qy);
      AddResidues(j, qx);
      OnePowers();
      SameSq(AddZ(j, qx), 2 * h);
      TwiceSquared(h);
      Prod(tx, tx, Sq(AddZ(j, qx)), 4 * Sq(h));
      Prod(tx, tx, AddI(j, qx), 4 * Sq(h));
      Difference(AddV(j, qx), AddX(j, qx, qy));
      Steps(AddV(j, qx), AddX(j, qx, qy));
      VanishingY(AddR(j, qy), FSub(AddV(j, qx), AddX(j, qx, qy)), AddJ(j, qx));
      YOfZero(ToPoint(a).y, Cube(a.Z), a.Z);
    }
  }

  lemma TwiceSquared(h: int)
    ensures 2 * (1 * h) == 2 * h && Sq(2 * h) == 4 * Sq(h)
  {}

  lemma VanishingY(r: int, d: int, jj: int)
    requires Zero(d)
    ensures Zero(FSub(FMul(r, d), Dbl(FMul(FMul(r, d), jj))))
  {
    hide R, FMul, FAdd, FSub;
    var t := FMul(r, d);
    Small(0);
    Steps(r, d);
    TimesZero(r, d);
    Steps(t, jj);
    TimesZero(jj, t);
    Steps(FMul(t, jj), 0);
    TimesZero(2, FMul(t, jj));
    Steps(t, Dbl(FMul(t, jj)));
    Sum(t, 0, Dbl(FMul(t, jj)), 0);
  }

  lemma YOfZero(y: int, c: int, z: int)
    requires Prime(P) && Reduced(y) && !Zero(z) && c == Cube(z) && Zero(y * c)
    ensures y == 0
  {
    hide R, Cube, Prime;
    FourthNotZero(z);
    ZeroProduct(y, c);
    Small(y);
  }

  lemma ZeroTargetX(ty: int)
    requires Prime(P) && OnCurve(Affine(0, ty))
    ensures AddH(Jac(0, ty, 1), 0) == 0 && AddR(Jac(0, ty, 1), 0) != 0
  {
    hide R, FMul, FAdd, FSub, AddH, AddR;
    var j := Jac(0, ty, 1);
    UnitZ(0, ty);
    Small(1);
    PointStands(j);
    ExceptionalCases(j, 0, 0, 0, ty);
    Small(7);
    Small(0);
  }

  /** Adding (0, 0) to a point of the curve never gives that point, in place or not. */
  lemma ZeroOffsetFails(tx: int, ty: int)
    requires Prime(P) && OnCurve(Affine(tx, ty))
    ensures ToPoint(JacAddInPlace(Jac(tx, ty, 1), 0, 0)) != Affine(tx, ty)
    ensures ToPoint(JacAdd(Jac(tx, ty, 1), 0, 0)) != Affine(tx, ty)
  {
    hide JacAddInPlace, JacAdd, ToPoint, Prime, R, ThirdPoint, ChordSlope;
    UnitZ(tx, ty);
    if tx == 0 {
      ZeroTargetX(ty);
      OppositeBranch(Jac(tx, ty, 1), 0, 0);
    } else {
      AddCorrect(Jac(tx, ty, 1), 0, 0);
      OriginThird(tx, ty);
      SameXGivesZeroY(tx, ty, 0, 0);
      SameXInPlace(Jac(tx, ty, 1), 0, 0, tx, ty);
    }
  }

  lemma OppositeBranch(j: Jac, qx: int, qy: int)
    requires j.Z != 0 && AddH(j, qx) == 0 && AddR(j, qy) != 0
    ensures ToPoint(JacAddInPlace(j, qx, qy)) == ToPoint(JacAdd(j, qx, qy)) == Infinity
  {
    hide AddH, AddR;
  }

  /** In place or not, the chord branch gives the same x. */
  lemma SameXInPlace(j: Jac, qx: int, qy: int, x1: int, y1: int)
    requires Prime(P) && j.Valid() && j.Z != 0 && ToPoint(j) == Affine(x1, y1) && x1 != qx
    requires Reduced(qx) && Reduced(qy)
    ensures var a, b := ToPoint(JacAddInPlace(j, qx, qy)), ToPoint(JacAdd(j, qx, qy));
            a.Affine? && b.Affine? && a.x == b.x
  {
    hide R, FMul, FAdd, FSub, AddX, AddY, AddZ, AddH, AddR, AddT, AddJ, Prime;
    PointStands(j);
    ExceptionalCases(j, qx, qy, x1, y1);
    ChordZNotZero(j, qx);
  }

  // ---- Where the wild kangaroo starts ----

  /** A value-returning addition of the offset point q starts at target + q exactly if q is not infinity. */
  lemma WildStartByValueIff(target: Point, q: Point)
    requires Prime(P) && target.Affine? && OnCurve(target) && OnCurve(q)
    ensures var (ox, oy) := XY(q);
            ToPoint(JacAdd(Jac(target.x, target.y, 1), ox, oy)) == Add(target, q) <==> q != Infinity
  {
    hide R, Add, JacAdd, ToPoint, Prime;
    UnitZ(target.x, target.y);
    if q == Infinity {
      AddInfinity(target);
      ZeroOffsetFails(target.x, target.y);
    } else {
      AddCorrect(Jac(target.x, target.y, 1), q.x, q.y);
    }
  }

  /** The in-place call of the source does exactly if q is not infinity and the polynomial condition holds. */
  lemma WildStartInPlaceIff(target: Point, q: Point)
    requires Prime(P) && target.Affine? && OnCurve(target) && OnCurve(q)
    ensures var (ox, oy) := XY(q);
            (ToPoint(JacAddInPlace(Jac(target.x, target.y, 1), ox, oy)) == Add(target, q)
             <==> q != Infinity && StartsRight(target.x, target.y, q.x, q.y))
  {
    hide R, Add, JacAddInPlace, ToPoint, Prime, StartsRight, InPlaceRight;
    UnitZ(target.x, target.y);
    if q == Infinity {
      AddInfinity(target);
      ZeroOffsetFails(target.x, target.y);
    } else {
      InPlacePointIff(Jac(target.x, target.y, 1), q.x, q.y);
      StartsRightIs(target.x, target.y, q.x, q.y);
    }
  }

  /** The generator as target and 2G as offset point, which StartWild adds for a random number of 2 modulo 2^16. */
  lemma StartAtGFails()
    requires Prime(P)
    ensures Mul(2) == Double(G) == Affine(G2X, G2Y)
    ensures !StartsRight(GX, GY, G2X, G2Y)
    ensures ToPoint(JacAddInPlace(Jac(GX, GY, 1), G2X, G2Y)) != Add(G, Mul(2))
  {
    hide ToPoint, JacAddInPlace, R, Add, Double, Mul, Prime, StartsRight, InPlaceRight;
    DoubleOfG();
    MulNone();
    MulNext(1);
    MulNext(2);
    AddInfinity(G);
    AddSelf(G);
    InPlaceAdditionFails();
    StartsRightIs(GX, GY, G2X, G2Y);
  }

  // ---- Targets with unreduced coordinates ----

  lemma SameResidueValues(a: int, b: int, c: int)
    requires R(a) == R(b)
    ensures FMul(a, c) == FMul(b, c) && FSub(c, a) == FSub(c, b)
  {
    hide R, FMul;
    MulIs(a, c);
    MulIs(b, c);
    Prod(a, b, c, c);
    Sum(c, c, a, b);
  }

  lemma SameSquare(a: int, b: int)
    requires R(a) == R(b)
    ensures FMul(a, a) == FMul(b, b)
  {
    hide R, FMul;
    MulIs(a, a);
    MulIs(b, b);
    Prod(a, b, a, b);
  }

  /** ec_add sees only the residues of the first operand's X and Y. */
  lemma SameResidueTarget(j: Jac, k: Jac, qx: int, qy: int)
    requires R(j.X) == R(k.X) && R(j.Y) == R(k.Y) && j.Z == k.Z
    ensures JacAddInPlace(j, qx, qy) == JacAddInPlace(k, qx, qy)
  {
    hide R, FMul, FAdd, FSub, Dbl;
    var z2 := FMul(j.Z, j.Z);
    SameResidueValues(j.X, k.X, FMul(qx, z2));
    SameResidueValues(j.Y, k.Y, FMul(FMul(qy, j.Z), z2));
    SameResidueValues(j.X, k.X, AddI(j, qx));
    SameResidueDouble(j, k);
  }

  lemma SameResidueDouble(j: Jac, k: Jac)
    requires R(j.X) == R(k.X) && R(j.Y) == R(k.Y) && j.Z == k.Z
    ensures JacDoubleInPlace(j) == JacDoubleInPlace(k)
  {
    hide R, FMul, FAdd, FSub, Dbl;
    SameSquare(j.Y, k.Y);
    SameSquare(j.X, k.X);
    SameResidueValues(j.X, k.X, FMul(j.Y, j.Y));
  }

  /** With Z = 1 the differences are those of the coordinates. */
  lemma NearAtOne(x: int, y: int, qx: int, qy: int)
    requires Reduced(qx) && Reduced(qy)
    ensures Near(Jac(x, y, 1), qx, qy) <==> x <= qx + P && y <= qy + P
  {
    hide R;
    Small(1);
    Small(qx);
    Small(qy);
    assert 1 * 1 == 1 && qx * 1 == qx && qy * 1 == qy;
  }

  /** The condition for the start, for a target given by any coordinates that stand for a point of the curve. */
  lemma UnreducedStart(x: int, y: int, q: Point)
    requires Prime(P) && OnCurve(Affine(R(x), R(y))) && OnCurve(q)
    ensures var (ox, oy) := XY(q);
            (ToPoint(JacAddInPlace(Jac(x, y, 1), ox, oy)) == Add(Affine(R(x), R(y)), q)
             <==> q != Infinity && StartsRight(R(x), R(y), ox, oy))
  {
    hide R, Add, JacAddInPlace, ToPoint, Prime, StartsRight, OnCurve;
    var (ox, oy) := XY(q);
    Twice(x);
    Twice(y);
    SameResidueTarget(Jac(x, y, 1), Jac(R(x), R(y), 1), ox, oy);
    WildStartInPlaceIff(Affine(R(x), R(y)), q);
  }

  /** The wild kangaroo starts at the target plus a random multiple (below 2^16) of the generator; the
      addition is called with the same object as operand and result. Coordinates of the target may be
      unreduced, as long as the first differences of ec_add do not fall below -P. */
  method StartWild(targetX: U256, targetY: U256, random: U64) returns (k: Kangaroo)
    ensures fresh(k) && fresh(k.point) && k.point.Coords().Valid() && !k.isTame && k.steps == 0
    ensures Val(k.distance) == random % 0x1_0000
    ensures var (ox, oy) := XY(Mul(random % 0x1_0000));
      Prime(P) && Val(targetX) <= ox + P && Val(targetY) <= oy + P ==>
      k.point.Coords() == JacAddInPlace(Jac(Val(targetX), Val(targetY), 1), ox, oy)
    ensures var target, offset := Affine(R(Val(targetX)), R(Val(targetY))), random % 0x1_0000;
      var (ox, oy) := XY(Mul(offset));
      CurveFacts() && OnCurve(target) && Val(targetX) <= ox + P && Val(targetY) <= oy + P ==>
      (k.State().point == Add(target, Mul(offset)) <==> offset != 0 && StartsRight(target.x, target.y, ox, oy))
  {
    hide CurveFacts, Prime, Mul, ToPoint, JacAdd, JacAddInPlace, R, OnCurve, Add, Val, StartsRight, Near;
    k := new Kangaroo();
    k.point.X, k.point.Y, k.point.Z := targetX, targetY, [1, 0, 0, 0];
    SmallValue(1);
    var wildOffset: U256 := [random % 0x1_0000, 0, 0, 0];
    SmallValue(random % 0x1_0000);
    var offsetPoint := new ECPoint();
    EcMul(offsetPoint, wildOffset);
    var ox, oy := EcToAffine(offsetPoint);
    FiniteZ(offsetPoint.Coords());
    NearAtOne(Val(targetX), Val(targetY), Val(ox), Val(oy));
    EcAdd(k.point, k.point, ox, oy);
    k.distance := wildOffset;
    if CurveFacts() && OnCurve(Affine(R(Val(targetX)), R(Val(targetY)))) {
      CurveParts();
      OffsetFinite(random % 0x1_0000);
      UnreducedStart(Val(targetX), Val(targetY), Mul(random % 0x1_0000));
    }
  }

  lemma OffsetFinite(offset: nat)
    requires CurveFacts() && offset < 0x1_0000
    ensures Mul(offset) == Infinity <==> offset == 0
    ensures OnCurve(Mul(offset))
  {
    CurveParts();
    MulOnCurve(offset);
    MulNone();
    hide CurveFacts, Mul, OnCurve;
    if offset != 0 { SmallMultipleFinite(offset); }
  }
}
