/** The curve y^2 = x^3 + 7 over the integers modulo P: the affine group law of SEC 1 section 2.2.1. */
module Curve {
  import opened Arith
  import opened NumberTheory
  import opened Limbs
  import opened FieldPow

  datatype Point = Infinity | Affine(x: int, y: int)

  ghost predicate Reduced(a: int) {
    0 <= a < P
  }

  ghost predicate Zero(a: int) {
    R(a) == 0
  }

  ghost predicate OnCurve(p: Point) {
    p == Infinity || (Reduced(p.x) && Reduced(p.y) && R(p.y * p.y) == R(p.x * p.x * p.x + 7))
  }

  // ---- Residue arithmetic ----

  lemma Small(a: int)
    requires Reduced(a)
    ensures R(a) == a
  {
    ResidueIs(a, 0, a);
  }

  lemma Twice(a: int)
    ensures R(R(a)) == R(a)
  {
    ResidueIs(R(a), 0, R(a));
  }

  lemma Sum(a: int, b: int, c: int, d: int)
    requires R(a) == R(b) && R(c) == R(d)
    ensures R(a + c) == R(b + d) && R(a - c) == R(b - d)
  {
    Same(a, b);
    Same(c, d);
    CongAdd(a, b, c, d, P);
    Same(a + c, b + d);
    Same(a - c, b - d);
  }

  lemma Prod(a: int, b: int, c: int, d: int)
    requires R(a) == R(b) && R(c) == R(d)
    ensures R(a * c) == R(b * d)
  {
    Same(a, b);
    Same(c, d);
    CongMul(a, b, c, d, P);
    Same(a * c, b * d);
  }

  lemma Difference(a: int, b: int)
    ensures R(a) == R(b) <==> Zero(a - b)
  {
    Small(0);
    hide R;
    Same(a, b);
    Same(a - b, 0);
  }

  lemma TimesZero(a: int, b: int)
    requires Zero(b)
    ensures Zero(a * b) && Zero(b * a)
  {
    Prod(a, a, b, 0);
    assert a * 0 == 0;
  }

  /** No zero divisors. */
  lemma ZeroProduct(a: int, b: int)
    requires Prime(P)
    requires Zero(a * b)
    ensures Zero(a) || Zero(b)
  {
    Same(a * b, 0);
    Euclid(P, a, b);
    Same(a, 0);
    Same(b, 0);
  }

  lemma CancelFactor(a: int, b: int, c: int)
    requires Prime(P) && !Zero(a)
    requires R(a * b) == R(a * c)
    ensures R(b) == R(c)
  {
    Same(a * b, a * c);
    Same(a, 0);
    Cancel(P, a, b, c);
    Same(b, c);
  }

  lemma Inverse(a: int)
    requires Prime(P) && !Zero(a)
    ensures R(a * Inv(a)) == 1 && !Zero(Inv(a))
  {
    Same(a, 0);
    InvCorrect(a);
    Same(a * Inv(a), 1);
    Same(Inv(a), 0);
    Small(1);
  }

  // ---- The group law ----

  /** The slope of the line through two points with different x. */
  ghost function ChordSlope(x1: int, y1: int, x2: int, y2: int): int {
    FMul(y2 - y1, Inv(x2 - x1))
  }

  ghost function TangentSlope(x: int, y: int): int {
    FMul(3 * FMul(x, x), Inv(2 * y))
  }

  /** The third intersection of the line with slope l through (x1, y1), mirrored. */
  ghost function ThirdPoint(l: int, x1: int, y1: int, x2: int): Point {
    var x3 := R(FMul(l, l) - x1 - x2);
    Affine(x3, R(FMul(l, x1 - x3) - y1))
  }

  /** The same in unreduced products. */
  lemma ThirdIs(l: int, x1: int, y1: int, x2: int)
    ensures var x3 := R(l * l - x1 - x2);
            ThirdPoint(l, x1, y1, x2) == Affine(x3, R(l * (x1 - x3) - y1))
  {
    hide R, FMul;
    MulIs(l, l);
    Twice(l * l);
    Sum(FMul(l, l), l * l, x1, x1);
    Sum(FMul(l, l) - x1, l * l - x1, x2, x2);
    var x3 := R(l * l - x1 - x2);
    MulIs(l, x1 - x3);
    Twice(l * (x1 - x3));
    Sum(FMul(l, x1 - x3), l * (x1 - x3), y1, y1);
  }

  ghost function Double(p: Point): Point {
    if p == Infinity || Zero(p.y) then Infinity
    else ThirdPoint(TangentSlope(p.x, p.y), p.x, p.y, p.x)
  }

  ghost function Add(p: Point, q: Point): Point {
    if p == Infinity then q
    else if q == Infinity then p
    else if p.x != q.x then ThirdPoint(ChordSlope(p.x, p.y, q.x, q.y), p.x, p.y, q.x)
    else if p.y == q.y then Double(p)
    else Infinity
  }

  lemma DividedSlope(n: int, d: int)
    requires Prime(P) && !Zero(d)
    ensures R(FMul(n, Inv(d)) * d) == R(n)
  {
    hide R, FMul, Inv, Prime;
    Inverse(d);
    MulIs(n, Inv(d));
    Twice(n * Inv(d));
    Prod(FMul(n, Inv(d)), n * Inv(d), d, d);
    assert (n * Inv(d)) * d == n * (d * Inv(d));
    Small(1);
    Prod(n, n, d * Inv(d), 1);
  }

  lemma DistinctX(x1: int, x2: int)
    requires Reduced(x1) && Reduced(x2) && x1 != x2
    ensures !Zero(x2 - x1)
  {
    Difference(x2, x1);
    Small(x1);
    Small(x2);
  }

  lemma Chord(x1: int, y1: int, x2: int, y2: int)
    requires Prime(P) && Reduced(x1) && Reduced(x2) && x1 != x2
    ensures R(ChordSlope(x1, y1, x2, y2) * (x2 - x1)) == R(y2 - y1)
  {
    DistinctX(x1, x2);
    DividedSlope(y2 - y1, x2 - x1);
  }

  lemma TwoNotZero(y: int)
    requires Prime(P) && !Zero(y)
    ensures !Zero(2 * y)
  {
    if Zero(2 * y) {
      ZeroProduct(2, y);
      Small(2);
    }
  }

  lemma Tangent(x: int, y: int)
    requires Prime(P) && !Zero(y)
    ensures R(TangentSlope(x, y) * (2 * y)) == R(3 * x * x)
  {
    hide R, FMul, Inv, Prime;
    TwoNotZero(y);
    DividedSlope(3 * FMul(x, x), 2 * y);
    MulIs(x, x);
    Twice(x * x);
    Prod(3, 3, FMul(x, x), x * x);
    assert 3 * (x * x) == 3 * x * x;
  }

  // ---- The line meets the curve in a third point of the curve ----

  /** The coefficients of (x^3 + 7 - (l(x - x1) + y1)^2) - (x - x1)(x - x2)(x - x3), linear in x
      when x1 + x2 + x3 = l^2. */
  ghost function Alpha(l: int, x1: int, y1: int, x2: int, x3: int): int {
    -2 * l * (y1 - l * x1) - (x1 * x2 + x1 * x3 + x2 * x3)
  }

  ghost function Beta(l: int, x1: int, y1: int, x2: int, x3: int): int {
    7 - (y1 - l * x1) * (y1 - l * x1) + x1 * x2 * x3
  }

  lemma LineIdentity(l: int, x1: int, y1: int, x2: int, x3: int, x: int)
    requires l * l == x1 + x2 + x3
    ensures Alpha(l, x1, y1, x2, x3) * x + Beta(l, x1, y1, x2, x3)
         == x * x * x + 7 - (l * (x - x1) + y1) * (l * (x - x1) + y1) - (x - x1) * (x - x2) * (x - x3)
  {
    LineSquare(l, x - x1, y1);
    LineSquare(l, -x1, y1);
    CrossTerm(l, x1, y1);
    ExpandLine(l * y1, x1, x2, x3, x);
    assert (-x1) * (-x1) == x1 * x1;
  }

  lemma LineSquare(l: int, d: int, y: int)
    ensures (l * d + y) * (l * d + y) == (l * l) * (d * d) + 2 * (l * y) * d + y * y
  {
    MulShuffle(l, d, l, d);
    assert (l * d) * y == (l * y) * d;
  }

  lemma CrossTerm(l: int, x1: int, y1: int)
    ensures -2 * l * (y1 - l * x1) == -2 * (l * y1) + 2 * (l * l) * x1
    ensures l * (-x1) + y1 == y1 - l * x1
  {
    MulAssoc(l, l, x1);
  }

  lemma ScaledSquare(s: int, x: int, x1: int)
    ensures s * ((x - x1) * (x - x1)) == s * (x * x) - 2 * (s * x1) * x + s * (x1 * x1)
  {
    assert (x - x1) * (x - x1) == x * x - 2 * x1 * x + x1 * x1;
    MulAssoc(s, x1, x);
  }

  lemma Expand(m: int, s: int, x1: int, x: int, e2: int, e3: int, cube: int, roots: int)
    requires roots == cube - s * (x * x) + e2 * x - e3
    ensures (-2 * m + 2 * s * x1 - e2) * x + (2 * m * x1 - s * (x1 * x1) + e3)
         == cube - s * ((x - x1) * (x - x1)) - 2 * m * (x - x1) - roots
  {
    ScaledSquare(s, x, x1);
    assert (-2 * m + 2 * s * x1 - e2) * x == -2 * (m * x) + 2 * (s * x1) * x - e2 * x;
    assert 2 * m * (x - x1) == 2 * (m * x) - 2 * m * x1;
  }

  /** The cubic and linear parts of the line's expansion, with m for the slope times y1. */
  lemma ExpandLine(m: int, x1: int, x2: int, x3: int, x: int)
    ensures var s := x1 + x2 + x3;
            (-2 * m + 2 * s * x1 - (x1 * x2 + x1 * x3 + x2 * x3)) * x + (2 * m * x1 - s * (x1 * x1) + x1 * x2 * x3)
            == x * x * x - s * ((x - x1) * (x - x1)) - 2 * m * (x - x1) - (x - x1) * (x - x2) * (x - x3)
  {
    ThreeRoots(x1, x2, x3, x);
    Expand(m, x1 + x2 + x3, x1, x, x1 * x2 + x1 * x3 + x2 * x3, x1 * x2 * x3, x * x * x, (x - x1) * (x - x2) * (x - x3));
  }

  lemma ThreeRoots(x1: int, x2: int, x3: int, x: int)
    ensures (x - x1) * (x - x2) * (x - x3)
         == x * x * x - (x1 + x2 + x3) * (x * x) + (x1 * x2 + x1 * x3 + x2 * x3) * x - x1 * x2 * x3
  {
    var q, e := (x - x1) * (x - x2), x1 * x2;
    assert q == x * x - (x1 + x2) * x + e;
    TimesRoot(x * x, x1 + x2, e, x, x3, q);
    assert x1 * x3 + x2 * x3 == (x1 + x2) * x3;
  }

  lemma TimesRoot(square: int, sum: int, e: int, x: int, r: int, q: int)
    requires q == square - sum * x + e && square == x * x
    ensures q * (x - r) == square * x - (sum + r) * square + (e + sum * r) * x - e * r
  {
    assert q * (x - r) == q * x - q * r;
    assert q * x == square * x - (sum * x) * x + e * x;
    MulAssoc(sum, x, x);
    assert q * r == square * r - (sum * x) * r + e * r;
    assert (sum * x) * r == (sum * r) * x;
    assert (sum + r) * square == sum * square + r * square;
    assert (e + sum * r) * x == e * x + (sum * r) * x;
  }

  lemma TangentAlpha(l: int, x: int, y: int, x3: int)
    requires l * l == x + x + x3
    ensures Alpha(l, x, y, x, x3) == 3 * x * x - l * (2 * y)
  {
    assert -2 * l * (y - l * x) == -l * (2 * y) + 2 * (l * l) * x;
  }

  /** If the line meets the curve doubly or at two points, the third intersection is on the curve. */
  lemma ThirdOnCurve(l: int, x1: int, y1: int, x2: int)
    requires var x3 := l * l - x1 - x2; Zero(Alpha(l, x1, y1, x2, x3)) && Zero(Beta(l, x1, y1, x2, x3))
    ensures OnCurve(ThirdPoint(l, x1, y1, x2))
  {
    Small(0);
    ThirdIs(l, x1, y1, x2);
    LineIdentity(l, x1, y1, x2, l * l - x1 - x2, l * l - x1 - x2);
    hide R, FMul, ThirdPoint, Alpha, Beta;
    var x3 := l * l - x1 - x2;
    var a, b := Alpha(l, x1, y1, x2, x3), Beta(l, x1, y1, x2, x3);
    var w := l * (x3 - x1) + y1;
    assert (x3 - x1) * (x3 - x2) * (x3 - x3) == 0;
    TimesZero(x3, a);
    Sum(a * x3, 0, b, 0);
    Difference(x3 * x3 * x3 + 7, w * w);
    ReducedThird(l, x1, y1, x3, w);
  }

  /** Reducing the coordinates of a solution keeps it one; the sign of the ordinate does not matter. */
  lemma ReducedThird(l: int, x1: int, y1: int, x3: int, w: int)
    requires w == l * (x3 - x1) + y1 && R(x3 * x3 * x3 + 7) == R(w * w)
    ensures OnCurve(Affine(R(x3), R(l * (x1 - R(x3)) - y1)))
  {
    Twice(x3);
    Twice(l * (x1 - R(x3)) - y1);
    hide R;
    var x, y := R(x3), R(l * (x1 - R(x3)) - y1);
    Sum(x1, x1, x, x3);
    Prod(l, l, x1 - x, x1 - x3);
    Sum(l * (x1 - x), l * (x1 - x3), y1, y1);
    assert l * (x1 - x3) - y1 == -w;
    Prod(y, -w, y, -w);
    assert (-w) * (-w) == w * w;
    Prod(x, x3, x, x3);
    Prod(x * x, x3 * x3, x, x3);
    Sum(x * x * x, x3 * x3 * x3, 7, 7);
  }

  lemma {:induction false} DoubleOnCurve(p: Point)
    requires Prime(P) && OnCurve(p)
    ensures OnCurve(Double(p))
  {
    if p.Affine? && !Zero(p.y) {
      var x, y, l := p.x, p.y, TangentSlope(p.x, p.y);
      var x3 := l * l - x - x;
      Tangent(x, y);
      TangentAlpha(l, x, y, x3);
      Difference(3 * x * x, l * (2 * y));
      LineAtOnCurve(l, x, y, x, x3);
      ThirdOnCurve(l, x, y, x);
    }
  }

  /** At a point of the curve the linear remainder vanishes; with Alpha zero, so does Beta. */
  lemma LineAtOnCurve(l: int, x1: int, y1: int, x2: int, x3: int)
    requires OnCurve(Affine(x1, y1)) && l * l == x1 + x2 + x3
    ensures Zero(Alpha(l, x1, y1, x2, x3) * x1 + Beta(l, x1, y1, x2, x3))
    ensures Zero(Alpha(l, x1, y1, x2, x3)) ==> Zero(Beta(l, x1, y1, x2, x3))
  {
    var a, b := Alpha(l, x1, y1, x2, x3), Beta(l, x1, y1, x2, x3);
    LineIdentity(l, x1, y1, x2, x3, x1);
    hide R, Alpha, Beta;
    assert l * (x1 - x1) + y1 == y1;
    assert (x1 - x1) * (x1 - x2) * (x1 - x3) == 0;
    Difference(x1 * x1 * x1 + 7, y1 * y1);
    if Zero(a) {
      TimesZero(x1, a);
      Sum(a * x1 + b, 0, a * x1, 0);
    }
  }

  /** At a second point of the curve on the line, the linear remainder vanishes too. */
  lemma LineAtSecond(l: int, x1: int, y1: int, x2: int, y2: int, x3: int)
    requires OnCurve(Affine(x2, y2)) && l * l == x1 + x2 + x3
    requires R(l * (x2 - x1)) == R(y2 - y1)
    ensures Zero(Alpha(l, x1, y1, x2, x3) * x2 + Beta(l, x1, y1, x2, x3))
  {
    LineIdentity(l, x1, y1, x2, x3, x2);
    hide R, Alpha, Beta;
    var w := l * (x2 - x1) + y1;
    Sum(l * (x2 - x1), y2 - y1, y1, y1);
    Prod(w, y2, w, y2);
    Difference(x2 * x2 * x2 + 7, w * w);
    NoThirdFactor(x2 - x1, x2 - x2, x2 - x3);
  }

  lemma NoThirdFactor(a: int, zero: int, b: int)
    requires zero == 0
    ensures a * zero * b == 0
  {}

  /** A linear function that vanishes at two points has slope zero. */
  lemma LinearZero(a: int, b: int, x1: int, x2: int)
    requires Prime(P) && Zero(a * x1 + b) && Zero(a * x2 + b) && !Zero(x2 - x1)
    ensures Zero(a)
  {
    Small(0);
    hide R, Prime;
    Sum(a * x2 + b, 0, a * x1 + b, 0);
    SlopeTimes(a, b, x1, x2);
    ZeroProduct(a, x2 - x1);
  }

  lemma SlopeTimes(a: int, b: int, x1: int, x2: int)
    ensures (a * x2 + b) - (a * x1 + b) == a * (x2 - x1)
  {}

  /** The group law stays on the curve. */
  lemma AddOnCurve(p: Point, q: Point)
    requires Prime(P) && OnCurve(p) && OnCurve(q)
    ensures OnCurve(Add(p, q))
  {
    if p.Affine? && q.Affine? {
      if p.x == q.x {
        DoubleOnCurve(p);
      } else {
        var x1, y1, x2, y2 := p.x, p.y, q.x, q.y;
        Chord(x1, y1, x2, y2);
        DistinctX(x1, x2);
        hide R, Alpha, Beta, ChordSlope, ThirdPoint, Prime, Zero;
        ChordOnCurve(ChordSlope(x1, y1, x2, y2), x1, y1, x2, y2);
      }
    }
  }

  lemma ChordOnCurve(l: int, x1: int, y1: int, x2: int, y2: int)
    requires Prime(P) && OnCurve(Affine(x1, y1)) && OnCurve(Affine(x2, y2)) && !Zero(x2 - x1)
    requires R(l * (x2 - x1)) == R(y2 - y1)
    ensures OnCurve(ThirdPoint(l, x1, y1, x2))
  {
    hide R, Alpha, Beta, ThirdPoint, Prime, OnCurve, Zero;
    var x3 := l * l - x1 - x2;
    LineAtOnCurve(l, x1, y1, x2, x3);
    LineAtSecond(l, x1, y1, x2, y2, x3);
    LinearZero(Alpha(l, x1, y1, x2, x3), Beta(l, x1, y1, x2, x3), x1, x2);
    ThirdOnCurve(l, x1, y1, x2);
  }

  lemma SlopeSymmetric(x1: int, y1: int, x2: int, y2: int)
    requires Prime(P) && Reduced(x1) && Reduced(x2) && x1 != x2
    ensures ChordSlope(x1, y1, x2, y2) == ChordSlope(x2, y2, x1, y1)
  {
    hide R, Prime, Zero;
    var l, m, d := ChordSlope(x1, y1, x2, y2), ChordSlope(x2, y2, x1, y1), x2 - x1;
    Chord(x1, y1, x2, y2);
    Chord(x2, y2, x1, y1);
    Sum(0, 0, m * (x1 - x2), y1 - y2);
    assert 0 - m * (x1 - x2) == d * m;
    assert l * d == d * l;
    DistinctX(x1, x2);
    CancelFactor(d, l, m);
    Small(l);
    Small(m);
  }

  /** The line through two points can be drawn from either of them. */
  lemma ThirdSymmetric(l: int, x1: int, y1: int, x2: int, y2: int)
    requires R(l * (x2 - x1)) == R(y2 - y1)
    ensures ThirdPoint(l, x1, y1, x2) == ThirdPoint(l, x2, y2, x1)
  {
    hide ThirdPoint;
    ThirdIs(l, x1, y1, x2);
    ThirdIs(l, x2, y2, x1);
    var x3 := R(l * l - x1 - x2);
    var u, v := l * (x1 - x3) - y1, l * (x2 - x3) - y2;
    assert v - u == l * (x2 - x1) - (y2 - y1);
    Difference(l * (x2 - x1), y2 - y1);
    Difference(v, u);
    assert l * l - x1 - x2 == l * l - x2 - x1;
  }

  lemma AddCommutes(p: Point, q: Point)
    requires Prime(P) && OnCurve(p) && OnCurve(q)
    ensures Add(p, q) == Add(q, p)
  {
    if p.Affine? && q.Affine? && p.x != q.x {
      SlopeSymmetric(p.x, p.y, q.x, q.y);
      Chord(p.x, p.y, q.x, q.y);
      ThirdSymmetric(ChordSlope(p.x, p.y, q.x, q.y), p.x, p.y, q.x, q.y);
    }
  }
}
