/** What happens when ec_add or ec_double is called with result and operand the same object. */
module Aliasing {
  import opened Arith
  import opened NumberTheory
  import opened Limbs
  import opened Curve
  import opened Associativity
  import opened Jacobian
  import opened JacobianLaw
  import opened ScalarMul

  // The conditions below are polynomials in the inputs: h and s are the differences of the two points'
  // coordinates, weighted with the powers of Z.

  ghost function GapX(j: Jac, qx: int): int {
    qx * Sq(j.Z) - j.X
  }

  ghost function GapY(j: Jac, qy: int): int {
    qy * Cube(j.Z) - j.Y
  }

  /** What ec_add has written to R.Y when it reads P.Y for the last time. */
  ghost function ChordEarlyY(j: Jac, qx: int, qy: int): int {
    var h, s := GapX(j, qx), GapY(j, qy);
    8 * (s * (Sq(h) * (qx * Sq(j.Z) + 2 * j.X) - Sq(s)))
  }

  /** What ec_double has written to R.X and R.Y when it reads P.Y for the last time. */
  ghost function TangentX(j: Jac): int {
    9 * Sq(Sq(j.X)) - 8 * (j.X * Sq(j.Y))
  }

  ghost function TangentEarlyY(j: Jac): int {
    36 * (Cube(j.X) * Sq(j.Y)) - 27 * Sq(Cube(j.X)) - 8 * Sq(Sq(j.Y))
  }

  /** When the value written to R.Y early is the operand's Y; no later Y is read in the other cases. */
  ghost predicate InPlaceSafe(j: Jac, qx: int, qy: int) {
    if j.Z == 0 then true
    else if !Zero(GapX(j, qx)) then R(ChordEarlyY(j, qx, qy)) == j.Y
    else if !Zero(GapY(j, qy)) then true
    else R(TangentEarlyY(j)) == j.Y
  }

  /** The same for the point that the triple stands for: a tangent's third point with x = 0 forgives a cube
      root of unity. */
  ghost predicate InPlaceRight(j: Jac, qx: int, qy: int) {
    || InPlaceSafe(j, qx, qy)
    || (Zero(GapX(j, qx)) && Zero(GapY(j, qy)) && Zero(TangentX(j)) && R(Cube(TangentEarlyY(j))) == R(Cube(j.Y)))
  }

  /** Doubling a number modulo P loses nothing. */
  lemma DblInjective(a: int, b: int)
    requires Prime(P) && Reduced(a) && Reduced(b)
    ensures Dbl(a) == Dbl(b) <==> a == b
  {
    hide R, FMul, FAdd, FSub;
    if Dbl(a) == Dbl(b) {
      Steps(a, 0);
      Steps(b, 0);
      Small(0);
      if Zero(2) { Small(2); }
      CancelFactor(2, a, b);
      Small(a);
      Small(b);
    }
  }

  lemma MulInjective(k: int, a: int, b: int)
    requires Prime(P) && Reduced(a) && Reduced(b) && !Zero(k)
    ensures FMul(a, k) == FMul(b, k) <==> a == b
  {
    hide R, FMul, FAdd, FSub;
    if FMul(a, k) == FMul(b, k) {
      Steps(a, k);
      Steps(b, k);
      assert a * k == k * a && b * k == k * b;
      CancelFactor(k, a, b);
      Small(a);
      Small(b);
    }
  }

  lemma FSubInjective(c: int, a: int, b: int)
    requires Reduced(a) && Reduced(b)
    ensures FSub(c, a) == FSub(c, b) <==> a == b
  {
    hide R, FMul, FAdd;
    if FSub(c, a) == FSub(c, b) {
      Steps(c, a);
      Steps(c, b);
      Sum(c, c, c - a, c - b);
      assert c - (c - a) == a && c - (c - b) == b;
      Small(a);
      Small(b);
    }
  }

  lemma MulReduced(a: int, b: int)
    ensures Reduced(FMul(a, b)) && Reduced(Dbl(a)) && Reduced(FSub(a, b))
  {}

  // ---- The polynomials are what the routines compute ----

  lemma GapsAre(j: Jac, qx: int, qy: int)
    requires Prime(P)
    ensures Zero(GapX(j, qx)) <==> AddH(j, qx) == 0
    ensures Zero(GapY(j, qy)) <==> AddR(j, qy) == 0
  {
    hide FMul, FAdd, FSub, Sq, Cube;
    MulReduced(qx, qy);
    GapResidues(j, qx, qy);
    AddResidues(j, qx);
    Small(AddH(j, qx));
    Small(AddR(j, qy));
    hide R;
    if Zero(GapY(j, qy)) { TimesZero(2, GapY(j, qy)); } else { TwoNotZero(GapY(j, qy)); }
  }

  lemma EarlyIdentity(s: int, h: int, x: int, g: int, v: int)
    requires v == x * (4 * Sq(h)) && g == h + x
    ensures (2 * s) * (v - ((2 * s) * (2 * s) - h * (4 * Sq(h)) - v - v)) == 8 * (s * (Sq(h) * (g + 2 * x) - Sq(s)))
  {}

  /** r * (V - X3) is the polynomial. */
  lemma ChordEarly(j: Jac, qx: int, qy: int)
    ensures AddT(j, qx, qy) == R(ChordEarlyY(j, qx, qy))
  {
    hide R, FMul, FAdd, FSub, Sq, Cube, AddH, AddR, AddI, AddJ, AddV, AddX;
    var h, s := GapX(j, qx), GapY(j, qy);
    var r, v, jj := AddR(j, qy), AddV(j, qx), AddJ(j, qx);
    var v', jj' := j.X * (4 * Sq(h)), h * (4 * Sq(h));
    GapResidues(j, qx, qy);
    AddResidues(j, qx);
    AddXYResidues(j, qx, qy);
    SameSq(AddH(j, qx), h);
    Prod(4, 4, Sq(AddH(j, qx)), Sq(h));
    Prod(AddH(j, qx), h, AddI(j, qx), 4 * Sq(h));
    Prod(j.X, j.X, AddI(j, qx), 4 * Sq(h));
    Prod(r, 2 * s, r, 2 * s);
    Sum(r * r, (2 * s) * (2 * s), jj, jj');
    Sum(r * r - jj, (2 * s) * (2 * s) - jj', v, v');
    Sum(r * r - jj - v, (2 * s) * (2 * s) - jj' - v', v, v');
    Sum(v, v', AddX(j, qx, qy), (2 * s) * (2 * s) - jj' - v' - v');
    Prod(r, 2 * s, v - AddX(j, qx, qy), v' - ((2 * s) * (2 * s) - jj' - v' - v'));
    EarlyIdentity(s, h, j.X, qx * Sq(j.Z), v');
    EarlyReduced(j, qx, qy);
    Small(AddT(j, qx, qy));
  }

  lemma EarlyReduced(j: Jac, qx: int, qy: int)
    ensures Reduced(AddT(j, qx, qy)) && Reduced(DoubleX(j)) && Reduced(DoubleY(j))
  {
    hide AddR, AddV, AddX, DoubleM, DoubleS;
  }

  lemma TangentIdentity(x: int, y2: int, m: int, s: int, x3: int)
    requires m == 3 * (x * x) && s == 4 * (x * y2) && x3 == 9 * Sq(Sq(x)) - 8 * (x * y2)
    ensures m * m - s - s == x3
    ensures m * (s - x3) - 8 * (y2 * y2) == 36 * (Cube(x) * y2) - 27 * Sq(Cube(x)) - 8 * Sq(y2)
  {
    var q := x * x;
    TripleTimes(q, q);
    assert s - x3 == 12 * (x * y2) - 9 * (q * q);
    TripleTimes(q, 4 * (x * y2) - 3 * (q * q));
    MulAssoc(q, x, y2);
    MulShuffle(q, x, q, x);
    assert Sq(Cube(x)) == (q * q) * q;
    assert q * (4 * (x * y2) - 3 * (q * q)) == 4 * (q * (x * y2)) - 3 * ((q * q) * q);
  }

  lemma TripleTimes(q: int, e: int)
    ensures (3 * q) * (3 * e) == 9 * (q * e)
  {}

  /** The doubled X and Y are the polynomials. */
  lemma TangentEarly(j: Jac)
    ensures DoubleX(j) == R(TangentX(j)) && DoubleY(j) == R(TangentEarlyY(j))
  {
    hide R, FMul, FAdd, FSub, DoubleX, DoubleY, DoubleM, DoubleS, Sq, Cube;
    var y2 := j.Y * j.Y;
    assert Sq(j.Y) == y2 by { SquareIs(j.Y); }
    var m, s, m', s' := DoubleM(j), DoubleS(j), 3 * (j.X * j.X), 4 * (j.X * y2);
    DoubleXYResidues(j);
    TangentIdentity(j.X, y2, m', s', TangentX(j));
    Prod(m, m', m, m');
    Sum(m * m, m' * m', s, s');
    Sum(m * m - s, m' * m' - s', s, s');
    Sum(s, s', DoubleX(j), TangentX(j));
    Prod(m, m', s - DoubleX(j), s' - TangentX(j));
    Sum(m * (s - DoubleX(j)), m' * (s' - TangentX(j)), 8 * (y2 * y2), 8 * (y2 * y2));
    EarlyReduced(j, 0, 0);
    Small(DoubleX(j));
    Small(DoubleY(j));
  }

  lemma SquareIs(y: int)
    ensures Sq(y) == y * y
  {}

  // ---- The triples ----

  /** The in-place addition computes the same triple exactly when the early write changes nothing. */
  lemma InPlaceAgreesIff(j: Jac, qx: int, qy: int)
    requires Prime(P) && j.Valid() && Reduced(qx) && Reduced(qy)
    ensures JacAddInPlace(j, qx, qy) == JacAdd(j, qx, qy) <==> InPlaceSafe(j, qx, qy)
  {
    hide R, FMul, FAdd, FSub, AddH, AddX, AddY, AddZ, AddR, AddJ, DoubleX, Prime, GapX, GapY, ChordEarlyY, TangentEarlyY;
    if j.Z != 0 {
      GapsAre(j, qx, qy);
      if AddH(j, qx) != 0 {
        ChordEarly(j, qx, qy);
        ChordYIff(j, qx, qy);
      } else if AddR(j, qy) == 0 {
        TangentEarly(j);
        DoubleZIff(j);
      }
    }
  }

  lemma ChordYIff(j: Jac, qx: int, qy: int)
    requires Prime(P) && j.Valid() && AddH(j, qx) != 0
    ensures var t := AddT(j, qx, qy);
            FSub(t, Dbl(FMul(t, AddJ(j, qx)))) == AddY(j, qx, qy) <==> t == j.Y
  {
    hide R, FMul, FAdd, FSub, AddT, AddJ, Dbl;
    var t, jj := AddT(j, qx, qy), AddJ(j, qx);
    JNotZero(j, qx);
    EarlyReduced(j, qx, qy);
    MulReduced(t, jj);
    MulReduced(j.Y, jj);
    MulReduced(FMul(t, jj), 0);
    MulReduced(FMul(j.Y, jj), 0);
    FSubInjective(t, Dbl(FMul(t, jj)), Dbl(FMul(j.Y, jj)));
    DblInjective(FMul(t, jj), FMul(j.Y, jj));
    MulInjective(jj, t, j.Y);
  }

  lemma DoubleZIff(j: Jac)
    requires Prime(P) && j.Valid() && j.Z != 0
    ensures Dbl(FMul(DoubleY(j), j.Z)) == Dbl(FMul(j.Y, j.Z)) <==> DoubleY(j) == j.Y
  {
    hide R, FMul, FAdd, FSub, DoubleY, Dbl;
    var y3 := DoubleY(j);
    Small(j.Z);
    Small(0);
    EarlyReduced(j, 0, 0);
    MulReduced(y3, j.Z);
    MulReduced(j.Y, j.Z);
    DblInjective(FMul(y3, j.Z), FMul(j.Y, j.Z));
    MulInjective(j.Z, y3, j.Y);
  }

  /** J = 4 H^3 is nonzero when H is. */
  lemma JNotZero(j: Jac, qx: int)
    requires Prime(P) && AddH(j, qx) != 0
    ensures !Zero(AddJ(j, qx))
  {
    hide R, FMul, FAdd, FSub, Sq, AddI;
    var h := AddH(j, qx);
    HReduced(j, qx);
    Small(h);
    GapResidues(j, qx, 0);
    AddResidues(j, qx);
    if Zero(AddJ(j, qx)) {
      ZeroProduct(h, AddI(j, qx));
      ZeroProduct(4, Sq(h));
      Small(4);
      FourthNotZero(h);
    }
  }

  lemma HReduced(j: Jac, qx: int)
    ensures Reduced(AddH(j, qx))
  {}

  // ---- The points ----

  /** Two triples with one nonzero Z stand for one point only if they are equal. */
  lemma SamePointSameZ(a: Jac, b: Jac)
    requires Prime(P) && a.Valid() && b.Valid() && a.Z == b.Z != 0
    ensures ToPoint(a) == ToPoint(b) <==> a == b
  {
    hide R, Sq, Cube, ToPoint;
    if ToPoint(a) == ToPoint(b) {
      PointStands(a);
      PointStands(b);
      Small(a.X);
      Small(b.X);
      Small(a.Y);
      Small(b.Y);
    }
  }

  lemma ChordZNotZero(j: Jac, qx: int)
    requires Prime(P) && j.Valid() && j.Z != 0 && AddH(j, qx) != 0
    ensures AddZ(j, qx) != 0
  {
    hide R, FMul, FAdd, FSub, AddH;
    HReduced(j, qx);
    Small(j.Z);
    Small(AddH(j, qx));
    Small(0);
    GapResidues(j, qx, 0);
    AddResidues(j, qx);
    WNotZero(j, AddH(j, qx), 2 * (j.Z * AddH(j, qx)));
  }

  lemma CancelIff(k: int, a: int, b: int)
    requires Prime(P) && !Zero(k)
    ensures R(k * a) == R(k * b) <==> R(a) == R(b)
  {
    if R(k * a) == R(k * b) { CancelFactor(k, a, b); }
    if R(a) == R(b) { Prod(k, k, a, b); }
  }

  /** Triples with one X and one nonzero Y stand for one point exactly if their Zs have one cube and, unless
      X = 0, one square. */
  lemma SameXY(a: Jac, b: Jac)
    requires Prime(P) && a.Valid() && b.Valid() && a.Z != 0 && b.Z != 0 && a.X == b.X && a.Y == b.Y != 0
    ensures ToPoint(a) == ToPoint(b)
       <==> R(Cube(a.Z)) == R(Cube(b.Z)) && (a.X == 0 || R(Sq(a.Z)) == R(Sq(b.Z)))
  {
    hide R, Sq, Cube, ToPoint, Prime;
    PointStands(a);
    PointStands(b);
    var x, y := ToPoint(a).x, ToPoint(a).y;
    NonzeroFactor(a.Y, y, Cube(a.Z));
    CancelIff(y, Cube(a.Z), Cube(b.Z));
    FourthNotZero(a.Z);
    Small(0);
    if a.X == 0 {
      ZeroProduct(x, Sq(a.Z));
      Small(x);
      TimesZero(Sq(b.Z), 0);
    } else {
      NonzeroFactor(a.X, x, Sq(a.Z));
      CancelIff(x, Sq(a.Z), Sq(b.Z));
    }
    if R(Cube(a.Z)) == R(Cube(b.Z)) && (a.X == 0 || R(Sq(a.Z)) == R(Sq(b.Z))) { StandsToPoint(b, x, y); }
  }

  lemma NonzeroFactor(c: int, x: int, u: int)
    requires Reduced(c) && c != 0 && R(c) == R(x * u)
    ensures !Zero(x)
  {
    Small(c);
    hide R;
    if Zero(x) { TimesZero(u, x); }
  }

  /** The square and the cube of 2 y z. */
  lemma WeightedZ(y: int, z: int)
    ensures R(Sq(Dbl(FMul(y, z)))) == R((4 * Sq(z)) * Sq(y))
    ensures R(Cube(Dbl(FMul(y, z)))) == R((8 * Cube(z)) * Cube(y))
  {
    hide R, FMul, FAdd, Sq, Cube;
    Steps(y, z);
    Steps(FMul(y, z), 0);
    Prod(2, 2, FMul(y, z), y * z);
    SameSq(Dbl(FMul(y, z)), 2 * (y * z));
    PowersShuffle(2, y * z);
    PowersShuffle(y, z);
    assert Sq(2) == 4 && Cube(2) == 8 by { TwoPowers(); }
    MulAssoc(4, Sq(z), Sq(y));
    MulAssoc(8, Cube(z), Cube(y));
  }

  lemma TwoPowers()
    ensures Sq(2) == 4 && Cube(2) == 8
  {}

  lemma MultiplesNotZero(z: int)
    requires Prime(P) && Reduced(z) && z != 0
    ensures !Zero(4 * Sq(z)) && !Zero(8 * Cube(z))
  {
    hide R, Sq, Cube;
    Small(z);
    Small(0);
    Small(4);
    Small(8);
    FourthNotZero(z);
    if Zero(4 * Sq(z)) { ZeroProduct(4, Sq(z)); }
    if Zero(8 * Cube(z)) { ZeroProduct(8, Cube(z)); }
  }

  /** Equal squares and cubes of nonzero numbers mean equal numbers. */
  lemma SquareAndCube(a: int, b: int)
    requires Prime(P) && Reduced(a) && Reduced(b) && a != 0
    requires R(Sq(a)) == R(Sq(b)) && R(Cube(a)) == R(Cube(b))
    ensures a == b
  {
    hide R, Sq;
    Small(a);
    Small(b);
    Small(0);
    FourthNotZero(a);
    Prod(Sq(a), Sq(b), b, b);
    CancelFactor(Sq(a), a, b);
  }

  /** (X, Y') over 2 Y' Z and over 2 Y Z, none of them zero: one point exactly if Y' = Y or, with X = 0, the two
      have one cube. */
  lemma TangentZIff(x: int, y': int, y: int, z: int)
    requires Prime(P) && Reduced(x) && Reduced(y) && Reduced(y') && Reduced(z) && y != 0 && y' != 0 && z != 0
    ensures ToPoint(Jac(x, y', Dbl(FMul(y', z)))) == ToPoint(Jac(x, y', Dbl(FMul(y, z))))
       <==> y' == y || (x == 0 && R(Cube(y')) == R(Cube(y)))
  {
    hide R, FMul, FAdd, Sq, Cube, ToPoint, Dbl, Prime;
    var a, b := Jac(x, y', Dbl(FMul(y', z))), Jac(x, y', Dbl(FMul(y, z)));
    MulReduced(FMul(y', z), 0);
    MulReduced(FMul(y, z), 0);
    DoubledNotZero(y', z);
    DoubledNotZero(y, z);
    SameXY(a, b);
    WeightedZ(y', z);
    WeightedZ(y, z);
    MultiplesNotZero(z);
    CancelIff(4 * Sq(z), Sq(y'), Sq(y));
    CancelIff(8 * Cube(z), Cube(y'), Cube(y));
    if R(Sq(y')) == R(Sq(y)) && R(Cube(y')) == R(Cube(y)) { SquareAndCube(y', y); }
  }

  lemma DoubledNotZero(y: int, z: int)
    requires Prime(P) && Reduced(y) && Reduced(z)
    ensures Dbl(FMul(y, z)) == 0 <==> y == 0 || z == 0
  {
    hide R, FMul, FAdd;
    Small(y);
    Small(z);
    Small(0);
    Steps(y, z);
    Steps(FMul(y, z), 0);
    Prod(2, 2, FMul(y, z), y * z);
    MulReduced(FMul(y, z), 0);
    Small(Dbl(FMul(y, z)));
    if y == 0 || z == 0 {
      assert 2 * (y * z) == 0;
    } else if Zero(2 * (y * z)) {
      if Zero(y * z) { ZeroProduct(y, z); } else { TwoNotZero(y * z); }
    }
  }

  /** Doubling in place gives the right point exactly if Y comes out as it was, or X as 0 and Y with the old cube. */
  lemma DoubleInPlaceIff(j: Jac)
    requires Prime(P) && j.Valid() && j.Z != 0
    ensures ToPoint(JacDoubleInPlace(j)) == ToPoint(JacDouble(j))
       <==> DoubleY(j) == j.Y || (DoubleX(j) == 0 && R(Cube(DoubleY(j))) == R(Cube(j.Y)))
  {
    hide R, FMul, FAdd, FSub, DoubleX, DoubleY, ToPoint, Dbl, Cube, Prime;
    var x, y', y := DoubleX(j), DoubleY(j), j.Y;
    EarlyReduced(j, 0, 0);
    DoubledNotZero(y', j.Z);
    DoubledNotZero(y, j.Z);
    InfinityIff(JacDouble(j));
    InfinityIff(JacDoubleInPlace(j));
    if y != 0 && y' != 0 {
      TangentZIff(x, y', y, j.Z);
    } else if y' != y {
      CubeZero(y, y');
    }
  }

  lemma InfinityIff(j: Jac)
    ensures ToPoint(j) == Infinity <==> j.Z == 0
  {}

  lemma CubeZero(a: int, b: int)
    requires Prime(P) && Reduced(a) && Reduced(b) && a != b && (a == 0 || b == 0)
    ensures R(Cube(a)) != R(Cube(b))
  {
    hide R;
    Small(a);
    Small(b);
    Small(0);
    FourthNotZero(if a == 0 then b else a);
    assert Cube(0) == 0;
  }

  /** In every case: the point that comes out of the in-place addition is the sum exactly if InPlaceRight. */
  lemma InPlacePointIff(j: Jac, qx: int, qy: int)
    requires Prime(P) && j.Valid() && Reduced(qx) && Reduced(qy)
    ensures ToPoint(JacAddInPlace(j, qx, qy)) == Add(ToPoint(j), Affine(qx, qy)) <==> InPlaceRight(j, qx, qy)
  {
    hide R, FMul, FAdd, FSub, Add, AddH, AddX, AddY, AddZ, AddR, AddJ, AddT, Dbl, ToPoint, Prime;
    hide DoubleX, DoubleY, GapX, GapY, ChordEarlyY, TangentX, TangentEarlyY, Cube, JacDouble, JacDoubleInPlace;
    AddCorrect(j, qx, qy);
    if j.Z != 0 {
      GapsAre(j, qx, qy);
      ResultsValid(j, qx, qy);
      if AddH(j, qx) != 0 {
        ChordEarly(j, qx, qy);
        ChordYIff(j, qx, qy);
        ChordZNotZero(j, qx);
        SamePointSameZ(JacAddInPlace(j, qx, qy), JacAdd(j, qx, qy));
      } else if AddR(j, qy) == 0 {
        TangentEarly(j);
        DoubleInPlaceIff(j);
        SameZero(TangentX(j), DoubleX(j));
        SameCube(TangentEarlyY(j), DoubleY(j));
      }
    }
  }

  lemma SameZero(a: int, b: int)
    requires b == R(a)
    ensures Zero(a) <==> b == 0
  {}

  lemma SameCube(a: int, b: int)
    requires b == R(a)
    ensures R(Cube(a)) == R(Cube(b))
  {
    Twice(a);
    hide R;
    SameSq(a, b);
  }

  // ---- A failing input: the generator G as target and 2G as the offset point ----

  const G2X: int := 0xC6047F9441ED7D6D3045406E95C07CD85C778E4B8CEF3CA7ABAC09B95C709EE5
  const G2Y: int := 0x1AE168FEA63DC339A3C58419466CEAEEF7F632653266D0E1236431A950CFE52A

  /** The slope of the curve at G. */
  const GSLOPE: int := 0xCB35B28428101A303EB9D1235992AC63F58857C2F631EE6936D3AEBBEDDCD1B1

  lemma GTangentSlope()
    requires Prime(P)
    ensures TangentSlope(GX, GY) == GSLOPE
  {
    hide TangentSlope, Prime, R;
    var c := 0x8FF2B776AAF6D91942FD096D2F1F7FD9AA2F64BE71462131AA7F067E28FEF8AC;
    ResidueIs((2 * GY) * GSLOPE, 0x72ABA393D7B8304B634B6BF992BFDC7D1FA82CF261D48B2E5C974301EDF9397C, c);
    ResidueIs(3 * GX * GX, 0xADB09F810124F172E261C5A52D2F1C68C60E0440FA46EA113035C57DB081B22C, c);
    Small(GY);
    Small(0);
    Tangent(GX, GY);
    TwoNotZero(GY);
    SlopeReduced();
    CancelFactor(2 * GY, TangentSlope(GX, GY), GSLOPE);
    Small(TangentSlope(GX, GY));
    Small(GSLOPE);
  }

  /** The tangent at G, by its numbers alone. */
  lemma TangentAtG()
    ensures Meets(G, G, GSLOPE)
  {
    hide R;
    GOnCurve();
    var c := 0x8FF2B776AAF6D91942FD096D2F1F7FD9AA2F64BE71462131AA7F067E28FEF8AC;
    Small(0);
    ResidueIs(GSLOPE * (GY + GY), 0x72ABA393D7B8304B634B6BF992BFDC7D1FA82CF261D48B2E5C974301EDF9397C, c);
    ResidueIs(GX * GX + GX * GX + GX * GX, 0xADB09F810124F172E261C5A52D2F1C68C60E0440FA46EA113035C57DB081B22C, c);
    Difference(GSLOPE * (GY + GY), GX * GX + GX * GX + GX * GX);
  }

  lemma SlopeReduced()
    ensures Reduced(TangentSlope(GX, GY))
    ensures TangentSlope(GX, GY) * (2 * GY) == (2 * GY) * TangentSlope(GX, GY)
  {
    hide R;
  }

  /** 2G. */
  lemma DoubleOfG()
    requires Prime(P)
    ensures Double(G) == Affine(G2X, G2Y)
  {
    hide TangentSlope, ThirdPoint, Prime, R;
    Small(GY);
    GTangentSlope();
    ThirdIs(GSLOPE, GX, GY, GX);
    ResidueIs(GSLOPE * GSLOPE - GX - GX, 0xA14E3460FEBE2C2316BFCCCC1B764790C3B7D9FF92663EA740240F16B583E774, G2X);
    ResidueIs(GSLOPE * (GX - G2X) - GY, -0x3C8B95972F12B04B3CA25330B2BD449E8E938229D1FD14F76CAE42249CE0DC11, G2Y);
  }

  /** G + 2G computed in place is not 3G. */
  lemma InPlaceAdditionFails()
    requires Prime(P)
    ensures !InPlaceRight(Jac(GX, GY, 1), G2X, G2Y)
    ensures ToPoint(JacAddInPlace(Jac(GX, GY, 1), G2X, G2Y)) != Add(G, Double(G))
  {
    hide R, Prime, Add, Double, ToPoint, JacAddInPlace, InPlaceRight;
    UnitZ(GX, GY);
    DoubleOfG();
    FailingValues();
    InPlacePointIff(Jac(GX, GY, 1), G2X, G2Y);
  }

  lemma FailingValues()
    ensures !InPlaceRight(Jac(GX, GY, 1), G2X, G2Y)
  {
    hide R, Sq, Cube;
    var g := Jac(GX, GY, 1);
    OnePowers();
    SquareIs(G2X - GX);
    SquareIs(G2Y - GY);
    ResidueIs(GapX(g, G2X), 0x0, 0x4C4619154810C1C0DAA4DDD8C73971D159DB91705F2113CE51B9885E4578874D);
    ResidueIs(ChordEarlyY(g, G2X, G2Y), -0x378AF8AF25B368E9673F7000AC1B812BD15E92DA4CB5FE02EF719AE621A398ECCE48BE957DE59B1A7D09D88D06A6A3FB14FF61D81AC869B10BA12523C50D21A80B7EF57B1F28A58B8384949D86DE8D75816F94DB16009C50924DE7983DA25ABD, 0xC39B0F239EC00B4101D020BFC8B239553428B4B10ABA604F604D8D77444C5C3);
  }

  lemma OnePowers()
    ensures Sq(1) == 1 && Cube(1) == 1
  {}
}
