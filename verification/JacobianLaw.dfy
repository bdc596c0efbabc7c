/** The Jacobian formulas compute the affine chord-and-tangent law of SEC 1 section 2.2.1. */
module JacobianLaw {
  import opened Arith
  import opened NumberTheory
  import opened Limbs
  import opened FieldPow
  import opened Curve
  import opened Jacobian

  ghost function Sq(z: int): int {
    z * z
  }

  ghost function Cube(z: int): int {
    Sq(z) * z
  }

  /** (X, Y, Z) stands for the affine point (x, y). */
  ghost predicate Stands(j: Jac, x: int, y: int) {
    !Zero(j.Z) && R(j.X) == R(x * Sq(j.Z)) && R(j.Y) == R(y * Cube(j.Z))
  }

  /** A residue computed step by step is the residue of the unreduced value. */
  lemma Steps(a: int, b: int)
    ensures R(FMul(a, b)) == R(a * b) && R(FAdd(a, b)) == R(a + b) && R(FSub(a, b)) == R(a - b)
    ensures R(Dbl(a)) == R(2 * a)
  {
    MulIs(a, b);
    Twice(a * b);
    Twice(a + b);
    Twice(a - b);
    Twice(a + a);
    assert a + a == 2 * a;
    hide R;
  }

  lemma SameSq(a: int, b: int)
    requires R(a) == R(b)
    ensures R(Sq(a)) == R(Sq(b)) && R(Cube(a)) == R(Cube(b))
  {
    hide R;
    Prod(a, b, a, b);
    Prod(Sq(a), Sq(b), a, b);
  }

  lemma ResidueFactor(x: int, u: int, v: int)
    requires R(u * v) == 1
    ensures R((x * u) * v) == R(x) && R((x * v) * u) == R(x)
  {
    hide R;
    MulAssoc(x, u, v);
    MulAssoc(x, v, u);
    Small(1);
    Prod(x, x, u * v, 1);
  }

  lemma PowersShuffle(z: int, i: int)
    ensures Sq(z) * Sq(i) == Sq(z * i) && Cube(z) * Cube(i) == Cube(z * i)
  {
    MulShuffle(z, z, i, i);
    MulShuffle(z, i, z, i);
    MulShuffle(Sq(z), z, Sq(i), i);
  }

  /** z * (1/z) = 1, squared and cubed. */
  lemma InversePowers(z: int)
    requires Prime(P) && !Zero(z)
    ensures var i := Inv(z);
            R(Sq(z) * FMul(i, i)) == 1 && R(Cube(z) * FMul(FMul(i, i), i)) == 1
  {
    hide R, FMul, FAdd, FSub, Inv;
    var i := Inv(z);
    Inverse(z);
    Small(1);
    SameSq(z * i, 1);
    Steps(i, i);
    Prod(Sq(z), Sq(z), FMul(i, i), Sq(i));
    Steps(FMul(i, i), i);
    Prod(FMul(i, i), Sq(i), i, i);
    Prod(Cube(z), Cube(z), FMul(FMul(i, i), i), Cube(i));
    PowersShuffle(z, i);
  }

  /** The affine coordinates are the ones the triple stands for. */
  lemma StandsToPoint(j: Jac, x: int, y: int)
    requires Prime(P) && j.Valid() && Reduced(x) && Reduced(y) && Stands(j, x, y)
    ensures ToPoint(j) == Affine(x, y)
  {
    hide R, FMul, FAdd, FSub, Inv, Sq, Cube;
    var i := Inv(j.Z);
    var i2, i3 := FMul(i, i), FMul(FMul(i, i), i);
    Small(0);
    InversePowers(j.Z);
    Coordinate(j.X, x, Sq(j.Z), i2);
    Coordinate(j.Y, y, Cube(j.Z), i3);
  }

  /** Dividing the weight out of a coordinate. */
  lemma Coordinate(a: int, x: int, u: int, v: int)
    requires R(a) == R(x * u) && R(u * v) == 1 && Reduced(x)
    ensures FMul(a, v) == x
  {
    hide R, FMul;
    Steps(a, v);
    Prod(a, x * u, v, v);
    ResidueFactor(x, u, v);
    Small(x);
    Small(FMul(a, v));
  }

  lemma PointStands(j: Jac)
    requires Prime(P) && j.Valid() && j.Z != 0
    ensures ToPoint(j).Affine? && Reduced(ToPoint(j).x) && Reduced(ToPoint(j).y)
    ensures Stands(j, ToPoint(j).x, ToPoint(j).y)
  {
    hide R, FMul, FAdd, FSub, Inv, Sq, Cube;
    var i := Inv(j.Z);
    Small(j.Z);
    InversePowers(j.Z);
    Weight(j.X, Sq(j.Z), FMul(i, i));
    Weight(j.Y, Cube(j.Z), FMul(FMul(i, i), i));
  }

  lemma Weight(a: int, u: int, v: int)
    requires R(u * v) == 1
    ensures R(a) == R(FMul(a, v) * u)
  {
    hide R, FMul;
    Steps(a, v);
    Prod(FMul(a, v), a * v, u, u);
    ResidueFactor(a, u, v);
  }

  /** The y coordinate of the third point, before reduction, with u the unreduced x coordinate. */
  ghost function LineY(l: int, x1: int, y1: int, u: int): int {
    l * (x1 - u) - y1
  }

  /** A triple of the shape (x3 w^2, y3 w^3, w) stands for the third point of a line. */
  lemma ThirdStands(j: Jac, l: int, x1: int, y1: int, x2: int, w: int)
    requires Prime(P) && j.Valid()
    requires !Zero(w) && R(j.Z) == R(w)
    requires var u := l * l - x1 - x2;
             R(j.X) == R(u * Sq(w)) && R(j.Y) == R(LineY(l, x1, y1, u) * Cube(w))
    ensures ToPoint(j) == ThirdPoint(l, x1, y1, x2)
  {
    hide R, FMul, FAdd, FSub, Inv, Sq, Cube, ThirdPoint;
    ThirdIs(l, x1, y1, x2);
    var u := l * l - x1 - x2;
    var v, x3 := LineY(l, x1, y1, u), R(u);
    var y3 := R(LineY(l, x1, y1, x3));
    Small(x3);
    Small(y3);
    Twice(u);
    Twice(LineY(l, x1, y1, x3));
    Sum(x1, x1, x3, u);
    Prod(l, l, x1 - x3, x1 - u);
    Sum(l * (x1 - x3), l * (x1 - u), y1, y1);
    SameSq(j.Z, w);
    Prod(u, x3, Sq(w), Sq(j.Z));
    Prod(v, y3, Cube(w), Cube(j.Z));
    StandsToPoint(j, x3, y3);
  }

  // ---- Doubling ----

  /** With S = x w^2, M = l w and e = y w^3, the doubling formulas give the tangent's third point. */
  lemma TangentShape(s: int, m: int, e: int, x3: int, y3: int, l: int, x: int, y: int, w: int)
    requires R(s) == R(x * Sq(w)) && R(m) == R(l * w) && R(e) == R(y * Cube(w))
    requires R(x3) == R(m * m - s - s)
    requires R(y3) == R(m * (s - x3) - e)
    ensures var u := l * l - x - x;
            R(x3) == R(u * Sq(w)) && R(y3) == R(LineY(l, x, y, u) * Cube(w))
  {
    hide R, Sq, Cube;
    var u := l * l - x - x;
    Prod(m, l * w, m, l * w);
    Sum(m * m, (l * w) * (l * w), s, x * Sq(w));
    Sum(m * m - s, (l * w) * (l * w) - x * Sq(w), s, x * Sq(w));
    SquareOfProduct(l, w);
    Distribute(l * l, x, x, Sq(w));
    LineYShape(s, m, e, x3, y3, l, x, y, u, w);
  }

  lemma SquareOfProduct(l: int, w: int)
    ensures (l * w) * (l * w) == (l * l) * Sq(w)
  {
    MulShuffle(l, w, l, w);
  }

  lemma Distribute(a: int, b: int, c: int, k: int)
    ensures a * k - b * k - c * k == (a - b - c) * k
  {}

  /** m (s - x3) - e for m = l w, s = x1 w^2, x3 = u w^2 and e = y1 w^3. */
  lemma LineYShape(s: int, m: int, e: int, x3: int, y3: int, l: int, x1: int, y1: int, u: int, w: int)
    requires R(s) == R(x1 * Sq(w)) && R(m) == R(l * w) && R(e) == R(y1 * Cube(w)) && R(x3) == R(u * Sq(w))
    requires R(y3) == R(m * (s - x3) - e)
    ensures R(y3) == R(LineY(l, x1, y1, u) * Cube(w))
  {
    hide R, Sq, Cube;
    Sum(s, x1 * Sq(w), x3, u * Sq(w));
    Distribute(x1, u, 0, Sq(w));
    Prod(m, l * w, s - x3, (x1 - u) * Sq(w));
    Sum(m * (s - x3), (l * w) * ((x1 - u) * Sq(w)), e, y1 * Cube(w));
    WeightCube(l, x1 - u, w);
    Distribute(l * (x1 - u), y1, 0, Cube(w));
  }

  lemma WeightCube(l: int, d: int, w: int)
    ensures (l * w) * (d * Sq(w)) == (l * d) * Cube(w)
  {
    MulShuffle(l, w, d, Sq(w));
    assert w * Sq(w) == Sq(w) * w;
  }

  lemma DoubleXYResidues(j: Jac)
    ensures R(DoubleX(j)) == R(DoubleM(j) * DoubleM(j) - DoubleS(j) - DoubleS(j))
    ensures R(DoubleY(j)) == R(DoubleM(j) * (DoubleS(j) - DoubleX(j)) - 8 * ((j.Y * j.Y) * (j.Y * j.Y)))
    ensures R(DoubleS(j)) == R(4 * (j.X * (j.Y * j.Y)))
    ensures R(DoubleM(j)) == R(3 * (j.X * j.X))
  {
    hide R, FMul, FAdd, FSub, Inv;
    var m, s, y2 := DoubleM(j), DoubleS(j), FMul(j.Y, j.Y);
    Steps(m, m);
    Steps(FMul(m, m), s);
    Sum(FMul(m, m), m * m, s, s);
    Steps(FSub(FMul(m, m), s), s);
    Sum(FSub(FMul(m, m), s), m * m - s, s, s);

    Steps(s, DoubleX(j));
    Steps(m, FSub(s, DoubleX(j)));
    Prod(m, m, FSub(s, DoubleX(j)), s - DoubleX(j));
    Steps(j.Y, j.Y);
    Steps(y2, y2);
    Prod(y2, j.Y * j.Y, y2, j.Y * j.Y);
    var f := FMul(y2, y2);
    Steps(f, f);
    Steps(Dbl(f), f);
    Steps(Dbl(Dbl(f)), f);
    Prod(2, 2, Dbl(f), 2 * f);
    Prod(2, 2, Dbl(Dbl(f)), 4 * f);
    Prod(8, 8, f, (j.Y * j.Y) * (j.Y * j.Y));
    var t, e := FMul(m, FSub(s, DoubleX(j))), Dbl(Dbl(Dbl(f)));
    Steps(t, e);
    Sum(t, m * (s - DoubleX(j)), e, 8 * ((j.Y * j.Y) * (j.Y * j.Y)));

    var xy := FMul(j.X, y2);
    Steps(j.X, y2);
    Prod(j.X, j.X, y2, j.Y * j.Y);
    Steps(xy, xy);
    Steps(Dbl(xy), xy);
    Prod(2, 2, Dbl(xy), 2 * xy);
    Prod(4, 4, xy, j.X * (j.Y * j.Y));

    var x2 := FMul(j.X, j.X);
    Steps(j.X, j.X);
    Steps(x2, x2);
    Steps(FAdd(x2, x2), x2);
    Sum(FAdd(x2, x2), x2 + x2, x2, x2);
    Prod(3, 3, x2, j.X * j.X);
  }

  /** S, M, 8Y^4 and Z' of a triple standing for (x, y), with w = 2 y z^4. */
  lemma DoubleValues(j: Jac, x: int, y: int, l: int, w: int)
    requires Prime(P) && Stands(j, x, y) && !Zero(y)
    requires R(l * (2 * y)) == R(3 * x * x)
    requires w == (2 * y) * Sq(Sq(j.Z))
    ensures R(4 * (j.X * (j.Y * j.Y))) == R(x * Sq(w))
    ensures R(3 * (j.X * j.X)) == R(l * w)
    ensures R(8 * ((j.Y * j.Y) * (j.Y * j.Y))) == R(y * Cube(w))
    ensures R(2 * (j.Y * j.Z)) == R(w)
    ensures !Zero(w)
  {
    hide R, Sq, Cube;
    var z := j.Z;
    var xz, yz := x * Sq(z), y * Cube(z);
    Prod(j.Y, yz, j.Y, yz);
    Prod(j.X, xz, j.Y * j.Y, yz * yz);
    Prod(4, 4, j.X * (j.Y * j.Y), xz * (yz * yz));
    DoublePowers(x, y, z, w);
    Prod(j.X, xz, j.X, xz);
    Prod(3, 3, j.X * j.X, xz * xz);
    Prod(3 * x * x, l * (2 * y), Sq(Sq(z)), Sq(Sq(z)));
    MulAssoc(l, 2 * y, Sq(Sq(z)));
    Prod(j.Y * j.Y, yz * yz, j.Y * j.Y, yz * yz);
    Prod(8, 8, (j.Y * j.Y) * (j.Y * j.Y), (yz * yz) * (yz * yz));
    Prod(j.Y, yz, z, z);
    Prod(2, 2, j.Y * z, yz * z);
    if Zero(w) {
      TwoNotZero(y);
      ZeroProduct(2 * y, Sq(Sq(z)));
      FourthNotZero(z);
    }
  }

  lemma FourthNotZero(z: int)
    requires Prime(P) && !Zero(z)
    ensures !Zero(Sq(z)) && !Zero(Sq(Sq(z))) && !Zero(Cube(z))
  {
    hide R;
    if Zero(Sq(z)) { ZeroProduct(z, z); }
    if Zero(Sq(Sq(z))) { ZeroProduct(Sq(z), Sq(z)); }
    if Zero(Cube(z)) { ZeroProduct(Sq(z), z); }
  }

  /** The polynomial identities behind the doubling formulas. */
  lemma DoublePowers(x: int, y: int, z: int, w: int)
    requires w == (2 * y) * Sq(Sq(z))
    ensures var xz, yz := x * Sq(z), y * Cube(z);
            && 4 * (xz * (yz * yz)) == x * Sq(w)
            && 3 * (xz * xz) == (3 * x * x) * Sq(Sq(z))
            && 8 * ((yz * yz) * (yz * yz)) == y * Cube(w)
            && 2 * (yz * z) == w
  {
    var z2 := Sq(z);
    var xz, yz, a, b := x * z2, y * Cube(z), y * y, Sq(z2);
    MulShuffle(y, Cube(z), y, Cube(z));
    MulShuffle(z2, z, z2, z);
    var q := yz * yz;
    assert q == a * (b * z2);
    MulShuffle(2 * y, b, 2 * y, b);
    assert Sq(w) == (4 * a) * (b * b);
    FourthTerm(x, z2, a, b);
    MulShuffle(x, z2, x, z2);
    assert 3 * ((x * x) * b) == (3 * x * x) * b;
    EighthPower(y, a, b, z2, q, w);
    MulAssoc(y, Cube(z), z);
    MulAssoc(z2, z, z);
    assert 2 * (y * b) == (2 * y) * b;
  }

  lemma FourthTerm(x: int, z2: int, a: int, b: int)
    requires b == z2 * z2
    ensures 4 * ((x * z2) * (a * (b * z2))) == x * ((4 * a) * (b * b))
  {
    MulShuffle(x, z2, a, b * z2);
    MulAssoc(z2, b, z2);
    assert z2 * (b * z2) == b * b;
    MulAssoc(x, a, b * b);
    MulAssoc(4, a, b * b);
  }

  lemma EighthPower(y: int, a: int, b: int, z2: int, q: int, w: int)
    requires a == y * y && b == z2 * z2 && q == a * (b * z2)
    requires w == (2 * y) * b && Sq(w) == (4 * a) * (b * b)
    ensures 8 * (q * q) == y * Cube(w)
  {
    var c := (b * b) * b;
    MulShuffle(a, b * z2, a, b * z2);
    MulShuffle(b, z2, b, z2);
    assert q * q == (a * a) * c;
    MulShuffle(4 * a, b * b, 2 * y, b);
    assert Cube(w) == (8 * (a * y)) * c;
    MulAssoc(y, 8 * (a * y), c);
    EightTimes(y, a);
    MulAssoc(8, a * a, c);
  }

  lemma EightTimes(y: int, a: int)
    requires a == y * y
    ensures y * (8 * (a * y)) == 8 * (a * a)
  {
    MulAssoc(y, y, a);
  }

  lemma DoubleCorrect(j: Jac)
    requires Prime(P) && j.Valid()
    ensures JacDouble(j).Valid()
    ensures ToPoint(JacDouble(j)) == Double(ToPoint(j))
  {
    hide R, FMul, FAdd, FSub, Inv, Sq, Cube, DoubleX, DoubleY, ThirdPoint, TangentSlope, Stands;
    ResultsValid(j, 0, 0);
    if j.Z != 0 {
      PointStands(j);
      var x, y, d := ToPoint(j).x, ToPoint(j).y, JacDouble(j);
      Steps(j.Y, j.Z);
      Steps(FMul(j.Y, j.Z), 0);
      Prod(2, 2, FMul(j.Y, j.Z), j.Y * j.Z);
      if Zero(y) {
        DoubleToInfinity(j, x, y);
        Small(d.Z);
      } else {
        var l := TangentSlope(x, y);
        var w := (2 * y) * Sq(Sq(j.Z));
        Tangent(x, y);
        DoubleValues(j, x, y, l, w);
        DoubleXYResidues(j);
        TangentShape(DoubleS(j), DoubleM(j), 8 * ((j.Y * j.Y) * (j.Y * j.Y)), d.X, d.Y, l, x, y, w);
        ThirdStands(d, l, x, y, x, w);
        Small(0);
      }
    }
  }

  lemma DoubleToInfinity(j: Jac, x: int, y: int)
    requires Stands(j, x, y) && Zero(y)
    ensures Zero(2 * (j.Y * j.Z))
  {
    hide R, Cube, Sq;
    TimesZero(Cube(j.Z), y);
    TimesZero(j.Z, j.Y);
    TimesZero(2, j.Y * j.Z);
  }

  lemma ResultsValid(j: Jac, qx: int, qy: int)
    requires Reduced(qx) && Reduced(qy)
    ensures JacDouble(j).Valid() && JacDoubleInPlace(j).Valid()
    ensures JacAdd(j, qx, qy).Valid() && JacAddInPlace(j, qx, qy).Valid()
  {
    hide R, FMul, FAdd, FSub;
  }

  // ---- Mixed addition ----

  /** The differences that mixed addition starts from. */
  lemma GapResidues(j: Jac, qx: int, qy: int)
    ensures R(AddH(j, qx)) == R(qx * Sq(j.Z) - j.X)
    ensures R(AddR(j, qy)) == R(2 * (qy * Cube(j.Z) - j.Y))
  {
    hide R, FMul, FAdd, FSub;
    var z, z1z1 := j.Z, FMul(j.Z, j.Z);
    Steps(z, z);
    Steps(qx, z1z1);
    Prod(qx, qx, z1z1, Sq(z));
    Steps(FMul(qx, z1z1), j.X);
    Sum(FMul(qx, z1z1), qx * Sq(z), j.X, j.X);
    var s2 := FMul(FMul(qy, z), z1z1);
    Steps(qy, z);
    Steps(FMul(qy, z), z1z1);
    Prod(FMul(qy, z), qy * z, z1z1, Sq(z));
    MulAssoc(qy, z, Sq(z));
    assert z * Sq(z) == Cube(z);
    Steps(s2, j.Y);
    Sum(s2, qy * Cube(z), j.Y, j.Y);
    Steps(FSub(s2, j.Y), 0);
    Prod(2, 2, FSub(s2, j.Y), qy * Cube(z) - j.Y);
  }

  /** The products it forms from them. */
  lemma AddResidues(j: Jac, qx: int)
    ensures R(AddI(j, qx)) == R(4 * Sq(AddH(j, qx)))
    ensures R(AddJ(j, qx)) == R(AddH(j, qx) * AddI(j, qx))
    ensures R(AddV(j, qx)) == R(j.X * AddI(j, qx))
    ensures R(AddZ(j, qx)) == R(2 * (j.Z * AddH(j, qx)))
  {
    hide R, FMul, FAdd, FSub, AddI;
    var z, h := j.Z, AddH(j, qx);
    QuadrupleSquare(j, qx);
    Steps(h, AddI(j, qx));
    Steps(j.X, AddI(j, qx));
    Steps(z, h);
    Steps(FMul(z, h), 0);
    Prod(2, 2, FMul(z, h), z * h);
  }

  lemma QuadrupleSquare(j: Jac, qx: int)
    ensures R(AddI(j, qx)) == R(4 * Sq(AddH(j, qx)))
  {
    hide R, FMul, FAdd, FSub, AddH;
    var h := AddH(j, qx);
    var hh := FMul(h, h);
    Steps(h, h);
    Steps(hh, hh);
    Steps(Dbl(hh), 0);
    Prod(2, 2, Dbl(hh), 2 * hh);
    Prod(4, 4, hh, Sq(h));
  }

  lemma AddXYResidues(j: Jac, qx: int, qy: int)
    ensures R(AddX(j, qx, qy)) == R(AddR(j, qy) * AddR(j, qy) - AddJ(j, qx) - AddV(j, qx) - AddV(j, qx))
    ensures R(AddT(j, qx, qy)) == R(AddR(j, qy) * (AddV(j, qx) - AddX(j, qx, qy)))
    ensures R(AddY(j, qx, qy)) == R(AddT(j, qx, qy) - 2 * (j.Y * AddJ(j, qx)))
  {
    hide R, FMul, FAdd, FSub, AddR, AddJ, AddV;
    var r, jj, v, x := AddR(j, qy), AddJ(j, qx), AddV(j, qx), AddX(j, qx, qy);
    var rr := FMul(r, r);
    Steps(r, r);
    Steps(rr, jj);
    Sum(rr, r * r, jj, jj);
    Steps(FSub(rr, jj), v);
    Sum(FSub(rr, jj), r * r - jj, v, v);
    Steps(FSub(FSub(rr, jj), v), v);
    Sum(FSub(FSub(rr, jj), v), r * r - jj - v, v, v);
    Steps(v, x);
    Steps(r, FSub(v, x));
    Prod(r, r, FSub(v, x), v - x);
    var t, yj := AddT(j, qx, qy), FMul(j.Y, jj);
    Steps(j.Y, jj);
    Steps(yj, 0);
    Prod(2, 2, yj, j.Y * jj);
    Steps(t, Dbl(yj));
    Sum(t, t, Dbl(yj), 2 * (j.Y * jj));
  }

  /** H, r, J and V of the addition of (x1, y1) and (x2, y2) through a triple standing for (x1, y1),
      with w = 2 z H. */
  lemma AddValues(j: Jac, x1: int, y1: int, x2: int, y2: int, l: int, h: int, w: int)
    requires Prime(P) && Stands(j, x1, y1)
    requires R(l * (x2 - x1)) == R(y2 - y1)
    requires R(h) == R(x2 * Sq(j.Z) - j.X) && w == 2 * (j.Z * h)
    ensures R(h) == R((x2 - x1) * Sq(j.Z))
    ensures R(2 * (y2 * Cube(j.Z) - j.Y)) == R(2 * ((y2 - y1) * Cube(j.Z))) == R(l * w)
    ensures R(j.X * (4 * Sq(h))) == R(x1 * Sq(w))
    ensures R(h * (4 * Sq(h))) == R((x2 - x1) * Sq(w))
    ensures R(2 * (j.Y * (h * (4 * Sq(h))))) == R(y1 * Cube(w))
  {
    hide R, Sq, Cube;
    var z, d := j.Z, x2 - x1;
    Sum(x2 * Sq(z), x2 * Sq(z), j.X, x1 * Sq(z));
    Distribute(x2, x1, 0, Sq(z));
    Sum(y2 * Cube(z), y2 * Cube(z), j.Y, y1 * Cube(z));
    Distribute(y2, y1, 0, Cube(z));
    Prod(2, 2, y2 * Cube(z) - j.Y, (y2 - y1) * Cube(z));
    Prod(l * d, y2 - y1, Cube(z), Cube(z));
    Prod(2, 2, (l * d) * Cube(z), (y2 - y1) * Cube(z));
    // l w = 2 l z H
    Prod(z, z, h, d * Sq(z));
    Prod(2 * l, 2 * l, z * h, z * (d * Sq(z)));
    SlopeTimesW(l, z, d, h, w);
    AddPowers(x1, y1, z, h, w);
    Prod(j.X, x1 * Sq(z), 4 * Sq(h), 4 * Sq(h));
    Prod(h, d * Sq(z), 4 * Sq(h), 4 * Sq(h));
    MulAssoc(d, Sq(z), 4 * Sq(h));
    MulAssoc(x1, Sq(z), 4 * Sq(h));
    Prod(j.Y, y1 * Cube(z), h * (4 * Sq(h)), h * (4 * Sq(h)));
    Prod(2, 2, j.Y * (h * (4 * Sq(h))), (y1 * Cube(z)) * (h * (4 * Sq(h))));
  }

  lemma SlopeTimesW(l: int, z: int, d: int, h: int, w: int)
    requires w == 2 * (z * h)
    ensures (2 * l) * (z * h) == l * w
    ensures (2 * l) * (z * (d * Sq(z))) == 2 * ((l * d) * Cube(z))
  {
    MulAssoc(l, 2, z * h);
    assert z * (d * Sq(z)) == d * Cube(z) by {
      MulAssoc(z, d, Sq(z));
      MulAssoc(d, z, Sq(z));
    }
    MulAssoc(l, d, Cube(z));
    MulAssoc(2, l, d * Cube(z));
  }

  /** The polynomial identities behind the addition formulas. */
  lemma AddPowers(x1: int, y1: int, z: int, h: int, w: int)
    requires w == 2 * (z * h)
    ensures Sq(z) * (4 * Sq(h)) == Sq(w)
    ensures 2 * ((y1 * Cube(z)) * (h * (4 * Sq(h)))) == y1 * Cube(w)
  {
    var u := z * h;
    PowersShuffle(z, h);
    MulShuffle(2, u, 2, u);
    assert Sq(w) == 4 * Sq(u);
    MulAssoc(Sq(z), 4, Sq(h));
    assert Sq(z) * 4 == 4 * Sq(z);
    MulAssoc(4, Sq(z), Sq(h));
    MulShuffle(4, Sq(u), 2, u);
    assert Cube(w) == 8 * Cube(u);
    assert h * (4 * Sq(h)) == 4 * Cube(h) by { MulAssoc(4, Sq(h), h); }
    MulAssoc(y1, Cube(z), 4 * Cube(h));
    MulAssoc(Cube(z), 4, Cube(h));
    assert Cube(z) * (4 * Cube(h)) == 4 * Cube(u);
    assert 2 * (y1 * (4 * Cube(u))) == y1 * (8 * Cube(u));
  }

  /** r^2 - J - 2V for r = l w, J = (x2 - x1) w^2 and V = x1 w^2. */
  lemma ChordShapeX(r: int, jj: int, v: int, x3: int, l: int, x1: int, x2: int, w: int)
    requires R(r) == R(l * w) && R(jj) == R((x2 - x1) * Sq(w)) && R(v) == R(x1 * Sq(w))
    requires R(x3) == R(r * r - jj - v - v)
    ensures R(x3) == R((l * l - x1 - x2) * Sq(w))
  {
    hide R, Sq;
    var k := Sq(w);
    Prod(r, l * w, r, l * w);
    SquareOfProduct(l, w);
    Sum(r * r, (l * l) * k, jj, (x2 - x1) * k);
    Sum(r * r - jj, (l * l) * k - (x2 - x1) * k, v, x1 * k);
    Sum(r * r - jj - v, (l * l) * k - (x2 - x1) * k - x1 * k, v, x1 * k);
    Distribute(l * l, x2 - x1, x1, k);
    Distribute(l * l - (x2 - x1) - x1, x1, 0, k);
  }

  /** The intermediate values of ec_add in terms of the affine points. */
  lemma ChordValues(j: Jac, qx: int, qy: int, x1: int, y1: int, l: int, w: int)
    requires Prime(P) && Stands(j, x1, y1)
    requires R(l * (qx - x1)) == R(qy - y1) && w == 2 * (j.Z * AddH(j, qx))
    ensures R(AddR(j, qy)) == R(l * w) && R(AddJ(j, qx)) == R((qx - x1) * Sq(w))
    ensures R(AddV(j, qx)) == R(x1 * Sq(w)) && R(2 * (j.Y * AddJ(j, qx))) == R(y1 * Cube(w))
    ensures R(AddZ(j, qx)) == R(w)
  {
    hide R, Sq, Cube, Stands, AddH, AddR, AddI, AddJ, AddV, AddZ;
    var h, jj := AddH(j, qx), AddJ(j, qx);
    GapResidues(j, qx, qy);
    AddResidues(j, qx);
    AddValues(j, x1, y1, qx, qy, l, h, w);
    Prod(h, h, AddI(j, qx), 4 * Sq(h));
    Prod(j.X, j.X, AddI(j, qx), 4 * Sq(h));
    Prod(j.Y, j.Y, jj, h * (4 * Sq(h)));
    Prod(2, 2, j.Y * jj, j.Y * (h * (4 * Sq(h))));
  }

  lemma ChordCorrect(j: Jac, qx: int, qy: int, x1: int, y1: int)
    requires Prime(P) && j.Valid() && Reduced(qx) && Reduced(qy)
    requires Stands(j, x1, y1) && Reduced(x1) && x1 != qx
    requires !Zero(AddH(j, qx))
    ensures ToPoint(Jac(AddX(j, qx, qy), AddY(j, qx, qy), AddZ(j, qx)))
         == ThirdPoint(ChordSlope(x1, y1, qx, qy), x1, y1, qx)
  {
    hide R, FMul, FAdd, FSub, Inv, Sq, Cube, ToPoint, ThirdPoint, ChordSlope;
    hide AddH, AddR, AddI, AddJ, AddV, AddX, AddY, AddZ, AddT;
    var l := ChordSlope(x1, y1, qx, qy);
    var r, jj, v, x3, y3 := AddR(j, qy), AddJ(j, qx), AddV(j, qx), AddX(j, qx, qy), AddY(j, qx, qy);
    var w := 2 * (j.Z * AddH(j, qx));
    Chord(x1, y1, qx, qy);
    ChordValues(j, qx, qy, x1, y1, l, w);
    AddXYResidues(j, qx, qy);
    ChordShapeX(r, jj, v, x3, l, x1, qx, w);
    var t, e := AddT(j, qx, qy), 2 * (j.Y * jj);
    Sum(t, r * (v - x3), e, e);
    LineYShape(v, r, e, x3, y3, l, x1, y1, l * l - x1 - qx, w);
    WNotZero(j, AddH(j, qx), w);
    CoordinatesReduced(j, qx, qy);
    ThirdStands(Jac(x3, y3, AddZ(j, qx)), l, x1, y1, qx, w);
  }

  lemma CoordinatesReduced(j: Jac, qx: int, qy: int)
    ensures Jac(AddX(j, qx, qy), AddY(j, qx, qy), AddZ(j, qx)).Valid()
  {
    hide FMul, FAdd, FSub;
  }

  lemma WNotZero(j: Jac, h: int, w: int)
    requires Prime(P) && !Zero(j.Z) && !Zero(h) && w == 2 * (j.Z * h)
    ensures !Zero(w)
  {
    hide R;
    if Zero(w) {
      if Zero(j.Z * h) { ZeroProduct(j.Z, h); }
      TwoNotZero(j.Z * h);
    }
  }

  /** H is zero exactly when the two points have the same x, and then r exactly when they have the same y. */
  lemma ExceptionalCases(j: Jac, qx: int, qy: int, x1: int, y1: int)
    requires Prime(P) && j.Valid() && Stands(j, x1, y1)
    requires Reduced(x1) && Reduced(y1) && Reduced(qx) && Reduced(qy)
    ensures AddH(j, qx) == 0 <==> x1 == qx
    ensures AddR(j, qy) == 0 <==> y1 == qy
    ensures Zero(AddH(j, qx)) <==> AddH(j, qx) == 0
  {
    hide R, FMul, FAdd, FSub, Sq, Cube;
    var z := j.Z;
    GapResidues(j, qx, qy);
    AddResidues(j, qx);
    Small(AddH(j, qx));
    Small(AddR(j, qy));
    FourthNotZero(z);
    SameWeighted(qx, x1, j.X, Sq(z));
    SameWeighted(qy, y1, j.Y, Cube(z));
    if AddR(j, qy) == 0 {
      if !Zero(qy * Cube(z) - j.Y) { TwoNotZero(qy * Cube(z) - j.Y); }
    } else if y1 == qy {
      TimesZero(2, qy * Cube(z) - j.Y);
    }
  }

  lemma SameWeighted(a: int, b: int, c: int, u: int)
    requires Prime(P) && Reduced(a) && Reduced(b) && !Zero(u) && R(c) == R(b * u)
    ensures Zero(a * u - c) <==> a == b
  {
    hide R;
    Difference(a * u, c);
    assert a * u == u * a && b * u == u * b;
    if R(u * a) == R(u * b) {
      CancelFactor(u, a, b);
      Small(a);
      Small(b);
    }
  }

  /** ec_add with distinct objects, then ec_to_affine, is the affine sum. */
  lemma AddCorrect(j: Jac, qx: int, qy: int)
    requires Prime(P) && j.Valid() && Reduced(qx) && Reduced(qy)
    ensures JacAdd(j, qx, qy).Valid()
    ensures ToPoint(JacAdd(j, qx, qy)) == Add(ToPoint(j), Affine(qx, qy))
  {
    hide R, FMul, FAdd, FSub, Inv, Sq, Cube, Stands, ThirdPoint, ChordSlope;
    hide AddH, AddR, AddI, AddJ, AddV, AddX, AddY, AddZ, AddT, JacDouble, Double;
    ResultsValid(j, qx, qy);
    if j.Z == 0 {
      UnitZ(qx, qy);
    } else {
      PointStands(j);
      var x1, y1 := ToPoint(j).x, ToPoint(j).y;
      ExceptionalCases(j, qx, qy, x1, y1);
      if x1 != qx {
        ChordCorrect(j, qx, qy, x1, y1);
      } else {
        DoubleCorrect(j);
      }
    }
  }

  lemma UnitZ(x: int, y: int)
    requires Prime(P) && Reduced(x) && Reduced(y)
    ensures ToPoint(Jac(x, y, 1)) == Affine(x, y)
  {
    hide R, FMul, Inv;
    Small(1);
    StandsToPoint(Jac(x, y, 1), x, y);
  }
}
