/** The group law is associative on the curve: any three points, no hypothesis but the primality of P. */
module Associativity {
  import opened Arith
  import opened NumberTheory
  import opened Limbs
  import opened FieldPow
  import opened Curve

  // ---- Lines through two points, chords and tangents alike ----

  /** Zero when (x1, y1) and (x2, y2) lie on a line of slope l. */
  ghost function Incidence(x1: int, y1: int, x2: int, y2: int, l: int): int {
    y1 - y2 - l * (x1 - x2)
  }

  /** Zero when that line, a chord or a tangent, meets the curve in both. */
  ghost function Contact(x1: int, y1: int, x2: int, y2: int, l: int): int {
    l * (y1 + y2) - (x1 * x1 + x1 * x2 + x2 * x2)
  }

  /** A line of slope l meets the curve in (x1, y1) and (x2, y2); doubly, if the two are the same. */
  ghost predicate Line(x1: int, y1: int, x2: int, y2: int, l: int) {
    Zero(Incidence(x1, y1, x2, y2, l)) && Zero(Contact(x1, y1, x2, y2, l))
  }

  lemma LineSwap(x1: int, y1: int, x2: int, y2: int, l: int)
    requires Line(x1, y1, x2, y2, l)
    ensures Line(x2, y2, x1, y1, l)
  {
    hide R;
    var d := y1 - y2 - l * (x1 - x2);
    TimesZero(-1, d);
    assert y2 - y1 - l * (x2 - x1) == -1 * d;
    assert l * (y2 + y1) - (x2 * x2 + x2 * x1 + x1 * x1) == l * (y1 + y2) - (x1 * x1 + x1 * x2 + x2 * x2);
  }

  /** Only the residues of the coordinates and of the slope matter. */
  lemma LineCong(x1: int, y1: int, x2: int, y2: int, l: int, u1: int, v1: int, u2: int, v2: int, k: int)
    requires R(x1) == R(u1) && R(y1) == R(v1) && R(x2) == R(u2) && R(y2) == R(v2) && R(l) == R(k)
    ensures Line(x1, y1, x2, y2, l) <==> Line(u1, v1, u2, v2, k)
  {
    hide R;
    Sum(y1, v1, y2, v2);
    Sum(x1, u1, x2, u2);
    Prod(l, k, x1 - x2, u1 - u2);
    Sum(y1 - y2, v1 - v2, l * (x1 - x2), k * (u1 - u2));
    Prod(l, k, y1 + y2, v1 + v2);
    Prod(x1, u1, x1, u1);
    Prod(x1, u1, x2, u2);
    Prod(x2, u2, x2, u2);
    Sum(x1 * x1, u1 * u1, x1 * x2, u1 * u2);
    Sum(x1 * x1 + x1 * x2, u1 * u1 + u1 * u2, x2 * x2, u2 * u2);
    Sum(l * (y1 + y2), k * (v1 + v2), x1 * x1 + x1 * x2 + x2 * x2, u1 * u1 + u1 * u2 + u2 * u2);
  }

  lemma Combine(a: int, b: int)
    requires Zero(a) && Zero(b)
    ensures Zero(a + b) && Zero(a - b)
  {
    Small(0);
    hide R;
    Sum(a, 0, b, 0);
  }

  // ---- The slopes of the two outer sums ----

  /** What is left of 2 y2 when the two lines are divided by the difference of their slopes. */
  ghost function Middle(x1: int, x2: int, y2: int, x3: int, l: int, m: int, k: int): int {
    2 * y2 + (m + l) * (x1 - x2) + m * m * k - k * (x1 + x2 + x3)
  }

  /** Zero when k is (x3 - x1) / (m - l). */
  ghost function Quotient(x1: int, x3: int, l: int, m: int, k: int): int {
    k * (m - l) - (x3 - x1)
  }

  lemma MiddleIdentity(x1: int, y1: int, x2: int, y2: int, x3: int, y3: int, l: int, m: int, k: int)
    ensures (m - l) * Middle(x1, x2, y2, x3, l, m, k)
         == Contact(x2, y2, x3, y3, m) - Contact(x1, y1, x2, y2, l) + m * Incidence(x2, y2, x3, y3, m)
            + l * Incidence(x1, y1, x2, y2, l) + Quotient(x1, x3, l, m, k) * (m * m - (x1 + x2 + x3))
  {
    ContactFromMiddle(x2, y2, x3, y3, m);
    LineSums(x1, y1, x2, y2, l);
    SquareSums(x1, x2, x3);
    MiddleCore(x1 - x2, x3 - x1, y2, l, m, k, x1 + x2 + x3);
  }

  lemma ContactFromMiddle(x2: int, y2: int, x3: int, y3: int, m: int)
    ensures Contact(x2, y2, x3, y3, m) + m * Incidence(x2, y2, x3, y3, m)
         == m * (2 * y2 + m * (x3 - x2)) - (x2 * x2 + x2 * x3 + x3 * x3)
  {}

  lemma LineSums(x1: int, y1: int, x2: int, y2: int, l: int)
    ensures l * Incidence(x1, y1, x2, y2, l) - Contact(x1, y1, x2, y2, l)
         == (x1 * x1 + x1 * x2 + x2 * x2) - l * (2 * y2 + l * (x1 - x2))
  {}

  lemma SquareSums(x1: int, x2: int, x3: int)
    ensures (x2 * x2 + x2 * x3 + x3 * x3) - (x1 * x1 + x1 * x2 + x2 * x2) == (x3 - x1) * (x1 + x2 + x3)
  {}

  lemma MiddleCore(u: int, d: int, y: int, l: int, m: int, k: int, s: int)
    ensures (m - l) * (2 * y + (m + l) * u + m * m * k - k * s)
         == m * (2 * y + m * (d + u)) - l * (2 * y + l * u) - d * s + (k * (m - l) - d) * (m * m - s)
  {}

  lemma OuterIncidence(x1: int, y1: int, x2: int, y2: int, x3: int, y3: int, l: int, m: int, k: int, x4: int)
    requires x4 == l * l - x1 - x2
    ensures Incidence(x4, l * (x1 - x4) - y1, x3, y3, k - l)
         == (l + m) * Quotient(x1, x3, l, m, k) - Middle(x1, x2, y2, x3, l, m, k)
            - Incidence(x1, y1, x2, y2, l) + Incidence(x2, y2, x3, y3, m)
  {
    SplitSlope(x1, x2, x3, x4, l, k);
    OuterCore(x1 - x2, x3 - x1, l, m, k, x1 + x2 + x3);
  }

  lemma SplitSlope(x1: int, x2: int, x3: int, x4: int, l: int, k: int)
    ensures l * (x1 - x4) - l * (x1 - x2) - (k - l) * (x4 - x3) == l * (x2 - x3) - k * (x4 - x3)
  {}

  lemma OuterCore(u: int, d: int, l: int, m: int, k: int, s: int)
    ensures -(l + m) * (d + u) - k * (l * l - s) == (l + m) * (k * (m - l) - d) - (m + l) * u - m * m * k + k * s
  {}

  lemma OuterContact(x1: int, y1: int, x2: int, y2: int, x3: int, y3: int, l: int, m: int, k: int, x4: int)
    requires x4 == l * l - x1 - x2
    ensures Contact(x4, l * (x1 - x4) - y1, x3, y3, k - l)
         == Contact(x1, y1, x2, y2, l) - l * Middle(x1, x2, y2, x3, l, m, k) - k * Incidence(x1, y1, x2, y2, l)
            - (k - l) * Incidence(x2, y2, x3, y3, m) + Quotient(x1, x3, l, m, k) * (l * m + l * l + x3 - x2)
  {
    SumOfYs(x1, y1, x2, y2, x3, y3, l, m, x4);
    TimesSum(k - l, l * (x2 - x4) + m * (x3 - x2), Incidence(x1, y1, x2, y2, l), Incidence(x2, y2, x3, y3, m));
    WithoutY(x1, y1, x2, y2, x3, l, m, k);
    ShiftedSquares(x4 - x2, x3 - x2, x2);
    ShiftedSquares(x1 - x2, 0, x2);
    OuterContactCore(x1 - x2, x3 - x2, l, m, k, 3 * x2, x4 - x2);
  }

  lemma SumOfYs(x1: int, y1: int, x2: int, y2: int, x3: int, y3: int, l: int, m: int, x4: int)
    ensures l * (x1 - x4) - y1 + y3
         == l * (x2 - x4) + m * (x3 - x2) - Incidence(x1, y1, x2, y2, l) - Incidence(x2, y2, x3, y3, m)
  {}

  lemma TimesSum(s: int, e: int, a: int, b: int)
    ensures s * (e - a - b) == s * e - s * a - s * b
  {}

  lemma WithoutY(x1: int, y1: int, x2: int, y2: int, x3: int, l: int, m: int, k: int)
    ensures Contact(x1, y1, x2, y2, l) - l * Middle(x1, x2, y2, x3, l, m, k) - k * Incidence(x1, y1, x2, y2, l)
         == (l - k) * Incidence(x1, y1, x2, y2, l) - (x1 * x1 + x1 * x2 + x2 * x2) - l * m * (x1 - x2)
            - l * m * m * k + l * k * (x1 + x2 + x3)
  {}

  lemma ShiftedSquares(e: int, v: int, x2: int)
    ensures var x4, x3 := x2 + e, x2 + v;
            x4 * x4 + x4 * x3 + x3 * x3 == e * (e + v + 3 * x2) + v * v + 3 * x2 * v + 3 * (x2 * x2)
  {}

  lemma OuterContactCore(u: int, v: int, l: int, m: int, k: int, b: int, e: int)
    requires e == l * l - b - u
    ensures (k - l) * (m * v - l * e) - e * (e + v + b) - v * v - b * v
         == -(u * u) - b * u - l * m * u - l * m * m * k + l * k * (b + u + v) + (k * (m - l) - (v - u)) * (l * m + l * l + v)
  {
    assert e * (e + v + b) == e * (l * l - u + v);
  }

  /** The sum of the first two points and the third point lie on a line of slope k - l. */
  lemma OuterLine(x1: int, y1: int, x2: int, y2: int, x3: int, y3: int, l: int, m: int, k: int, x4: int)
    requires Prime(P) && Line(x1, y1, x2, y2, l) && Line(x2, y2, x3, y3, m)
    requires Zero(Quotient(x1, x3, l, m, k)) && !Zero(m - l) && x4 == l * l - x1 - x2
    ensures Line(x4, l * (x1 - x4) - y1, x3, y3, k - l)
  {
    hide R, Prime, Incidence, Contact, Middle, Quotient;
    var a, b := Incidence(x1, y1, x2, y2, l), Incidence(x2, y2, x3, y3, m);
    var c, d := Contact(x1, y1, x2, y2, l), Contact(x2, y2, x3, y3, m);
    var w, q := Middle(x1, x2, y2, x3, l, m, k), Quotient(x1, x3, l, m, k);
    MiddleIdentity(x1, y1, x2, y2, x3, y3, l, m, k);
    TimesZero(m, b);
    TimesZero(l, a);
    TimesZero(m * m - (x1 + x2 + x3), q);
    Combine(d, c);
    Combine(d - c, m * b);
    Combine(d - c + m * b, l * a);
    Combine(d - c + m * b + l * a, q * (m * m - (x1 + x2 + x3)));
    ZeroProduct(m - l, w);
    OuterIncidence(x1, y1, x2, y2, x3, y3, l, m, k, x4);
    TimesZero(l + m, q);
    Combine((l + m) * q, w);
    Combine((l + m) * q - w, a);
    Combine((l + m) * q - w - a, b);
    OuterContact(x1, y1, x2, y2, x3, y3, l, m, k, x4);
    TimesZero(l, w);
    TimesZero(k, a);
    TimesZero(k - l, b);
    TimesZero(l * m + l * l + x3 - x2, q);
    Combine(c, l * w);
    Combine(c - l * w, k * a);
    Combine(c - l * w - k * a, (k - l) * b);
    Combine(c - l * w - k * a - (k - l) * b, q * (l * m + l * l + x3 - x2));
  }

  // ---- Lines and sums ----

  /** The coordinates of the third point without intermediate reduction. */
  lemma ThirdExact(l: int, x1: int, y1: int, x2: int)
    ensures var x := l * l - x1 - x2;
            ThirdPoint(l, x1, y1, x2) == Affine(R(x), R(l * (x1 - x) - y1))
  {
    hide R, FMul, ThirdPoint;
    ThirdIs(l, x1, y1, x2);
    var x := l * l - x1 - x2;
    Twice(x);
    Sum(x1, x1, R(x), x);
    Prod(l, l, x1 - R(x), x1 - x);
    Sum(l * (x1 - R(x)), l * (x1 - x), y1, y1);
  }

  lemma ThirdCong(l: int, x1: int, y1: int, x2: int, k: int, u1: int, v1: int, u2: int)
    requires R(l) == R(k) && R(x1) == R(u1) && R(y1) == R(v1) && R(x2) == R(u2)
    ensures ThirdPoint(l, x1, y1, x2) == ThirdPoint(k, u1, v1, u2)
  {
    hide R, FMul, ThirdPoint;
    ThirdIs(l, x1, y1, x2);
    ThirdIs(k, u1, v1, u2);
    Prod(l, k, l, k);
    Sum(l * l, k * k, x1, u1);
    Sum(l * l - x1, k * k - u1, x2, u2);
    var x := R(l * l - x1 - x2);
    Sum(x1, u1, x, x);
    Prod(l, k, x1 - x, u1 - x);
    Sum(l * (x1 - x), k * (u1 - x), y1, v1);
  }

  /** p and q are points of the curve on a line of slope l, which touches it if they are one. */
  ghost predicate Meets(p: Point, q: Point, l: int) {
    p.Affine? && q.Affine? && OnCurve(p) && OnCurve(q) && Line(p.x, p.y, q.x, q.y, l)
  }

  /** A line through two points of the curve gives their sum. */
  lemma LineSum(p: Point, q: Point, l: int)
    requires Meets(p, q, l) && Prime(P)
    ensures Add(p, q) == ThirdPoint(l, p.x, p.y, q.x)
  {
    hide R, ThirdPoint, ChordSlope, TangentSlope, Prime;
    var x1, y1, x2, y2 := p.x, p.y, q.x, q.y;
    Small(y1);
    Small(y2);
    Difference(y1 - y2, l * (x1 - x2));
    if x1 != x2 {
      var c := ChordSlope(x1, y1, x2, y2);
      Chord(x1, y1, x2, y2);
      SameSlope(l, c, x1, y1, x2, y2);
      ThirdCong(l, x1, y1, x2, c, x1, y1, x2);
    } else {
      assert l * (x1 - x2) == 0;
      Difference(y1, y2);
      DoubledContact(x1, y1, l);
      if Zero(y1) {
        NotSingular(x1, y1, l);
      } else {
        Tangent(x1, y1);
        TwoNotZero(y1);
        var c := TangentSlope(x1, y1);
        assert l * (2 * y1) == (2 * y1) * l && c * (2 * y1) == (2 * y1) * c;
        CancelFactor(2 * y1, l, c);
        ThirdCong(l, x1, y1, x2, c, x1, y1, x2);
      }
    }
  }

  lemma SameSlope(l: int, c: int, x1: int, y1: int, x2: int, y2: int)
    requires Prime(P) && Reduced(x1) && Reduced(x2) && x1 != x2
    requires R(y1 - y2) == R(l * (x1 - x2)) && R(c * (x2 - x1)) == R(y2 - y1)
    ensures R(l) == R(c)
  {
    hide R, Prime;
    DistinctX(x1, x2);
    Sum(0, 0, y1 - y2, l * (x1 - x2));
    assert 0 - l * (x1 - x2) == (x2 - x1) * l && 0 - (y1 - y2) == y2 - y1 && c * (x2 - x1) == (x2 - x1) * c;
    CancelFactor(x2 - x1, l, c);
  }

  lemma DoubledContact(x: int, y: int, l: int)
    requires Zero(l * (y + y) - (x * x + x * x + x * x))
    ensures R(l * (2 * y)) == R(3 * x * x)
  {
    hide R;
    assert l * (y + y) == l * (2 * y) && x * x + x * x + x * x == 3 * x * x;
    Difference(l * (2 * y), 3 * x * x);
  }

  /** No tangent at a point with y = 0: it would have x = 0 too, and 0 is not 7. */
  lemma NotSingular(x: int, y: int, l: int)
    requires Prime(P) && OnCurve(Affine(x, y)) && R(l * (2 * y)) == R(3 * x * x)
    ensures !Zero(y)
  {
    hide R, Prime;
    if Zero(y) {
      TimesZero(2, y);
      TimesZero(l, 2 * y);
      assert 3 * x * x == 3 * (x * x);
      Small(3);
      ZeroProduct(3, x * x);
      ZeroProduct(x, x);
      TimesZero(x * x, x);
      TimesZero(y, y);
      Small(0);
      Small(7);
      Sum(x * x * x, 0, 7, 7);
    }
  }

  ghost function Neg(p: Point): Point {
    if p == Infinity then Infinity else Affine(p.x, R(-p.y))
  }

  lemma NegOnCurve(p: Point)
    requires OnCurve(p)
    ensures OnCurve(Neg(p)) && Neg(Neg(p)) == p
  {
    hide R;
    if p.Affine? { NegY(p.y); }
  }

  lemma NegY(y: int)
    requires Reduced(y)
    ensures Reduced(R(-y)) && R(R(-y) * R(-y)) == R(y * y) && R(-R(-y)) == y
  {
    ReducedResidue(-y);
    Twice(-y);
    Small(y);
    hide R;
    Prod(R(-y), -y, R(-y), -y);
    assert (-y) * (-y) == y * y;
    Sum(0, 0, R(-y), -y);
    assert 0 - R(-y) == -R(-y) && 0 - (-y) == y;
  }

  lemma ReducedResidue(a: int)
    ensures Reduced(R(a))
  {}

  lemma NegSum(p: Point)
    requires Prime(P) && OnCurve(p)
    ensures Add(p, Neg(p)) == Infinity && Add(Neg(p), p) == Infinity
  {
    NegOnCurve(p);
    AddCommutes(p, Neg(p));
    hide R, Prime;
    if p.Affine? && p.y == R(-p.y) {
      Small(p.y);
      Sum(p.y, -p.y, p.y, p.y);
      Small(0);
      assert p.y + p.y == 2 * p.y && -p.y + p.y == 0;
      if !Zero(p.y) { TwoNotZero(p.y); }
    }
  }

  /** Two points of the curve lie on a line that is not vertical, or are opposite. */
  lemma LineExists(p: Point, q: Point) returns (l: int)
    requires Prime(P) && p.Affine? && q.Affine? && OnCurve(p) && OnCurve(q) && q != Neg(p)
    ensures Meets(p, q, l)
  {
    hide R, Prime, ChordSlope, TangentSlope;
    var x1, y1, x2, y2 := p.x, p.y, q.x, q.y;
    if x1 != x2 {
      l := ChordSlope(x1, y1, x2, y2);
      Chord(x1, y1, x2, y2);
      DistinctX(x1, x2);
      ChordLine(x1, y1, x2, y2, l);
    } else {
      SameX(p, q);
      l := TangentSlope(x1, y1);
      Tangent(x1, y1);
      assert l * (x1 - x2) == 0;
      Difference(l * (2 * y1), 3 * x1 * x1);
      assert l * (2 * y1) == l * (y1 + y2) && 3 * x1 * x1 == x1 * x1 + x1 * x2 + x2 * x2;
      Small(0);
    }
  }

  lemma SameX(p: Point, q: Point)
    requires Prime(P) && p.Affine? && q.Affine? && OnCurve(p) && OnCurve(q) && q != Neg(p) && p.x == q.x
    ensures p.y == q.y && !Zero(p.y)
  {
    hide R, Prime;
    var y, z := p.y, q.y;
    Small(y);
    Small(z);
    Small(0);
    if y != z {
      Difference(y * y, z * z);
      assert y * y - z * z == (z - y) * (-y - z);
      ZeroProduct(z - y, -y - z);
      Difference(z, y);
      Difference(-y, z);
    }
  }

  lemma ChordLine(x1: int, y1: int, x2: int, y2: int, l: int)
    requires Prime(P) && OnCurve(Affine(x1, y1)) && OnCurve(Affine(x2, y2)) && !Zero(x2 - x1)
    requires R(l * (x2 - x1)) == R(y2 - y1)
    ensures Line(x1, y1, x2, y2, l)
  {
    hide R, Prime;
    var d, c := x2 - x1, x1 * x1 + x1 * x2 + x2 * x2;
    Difference(l * d, y2 - y1);
    assert y1 - y2 - l * (x1 - x2) == l * d - (y2 - y1);
    // d times the contact
    Prod(l * d, y2 - y1, y1 + y2, y1 + y2);
    Difference(y2 * y2, x2 * x2 * x2 + 7);
    Difference(y1 * y1, x1 * x1 * x1 + 7);
    Combine(y2 * y2 - (x2 * x2 * x2 + 7), y1 * y1 - (x1 * x1 * x1 + 7));
    Difference((l * d) * (y1 + y2), (y2 - y1) * (y1 + y2));
    Combine((l * d) * (y1 + y2) - (y2 - y1) * (y1 + y2), y2 * y2 - (x2 * x2 * x2 + 7) - (y1 * y1 - (x1 * x1 * x1 + 7)));
    ChordContact(x1, y1, x2, y2, l);
    ZeroProduct(d, l * (y1 + y2) - c);
  }

  lemma ChordContact(x1: int, y1: int, x2: int, y2: int, l: int)
    ensures (x2 - x1) * (l * (y1 + y2) - (x1 * x1 + x1 * x2 + x2 * x2))
         == (l * (x2 - x1)) * (y1 + y2) - (y2 - y1) * (y1 + y2)
            + (y2 * y2 - (x2 * x2 * x2 + 7) - (y1 * y1 - (x1 * x1 * x1 + 7)))
  {
    var d, s := x2 - x1, y1 + y2;
    assert d * (x1 * x1 + x1 * x2 + x2 * x2) == x2 * x2 * x2 - x1 * x1 * x1;
    assert (y2 - y1) * s == y2 * y2 - y1 * y1;
    assert d * (l * s) == (l * d) * s;
  }

  // ---- Opposite points ----

  /** The reflected line through -p and p + q has slope -l. */
  lemma ReflectedLine(x1: int, y1: int, x2: int, y2: int, l: int, x4: int)
    requires Line(x1, y1, x2, y2, l) && x4 == l * l - x1 - x2
    ensures Line(x1, -y1, x4, l * (x1 - x4) - y1, -l)
  {
    hide R, Incidence, Contact;
    ReflectedContact(x1, y1, x2, y2, l, x4);
    TimesZero(l, Incidence(x1, y1, x2, y2, l));
    Combine(Contact(x1, y1, x2, y2, l), l * Incidence(x1, y1, x2, y2, l));
    Small(0);
  }

  lemma ReflectedContact(x1: int, y1: int, x2: int, y2: int, l: int, x4: int)
    requires x4 == l * l - x1 - x2
    ensures Incidence(x1, -y1, x4, l * (x1 - x4) - y1, -l) == 0
    ensures Contact(x1, -y1, x4, l * (x1 - x4) - y1, -l)
         == Contact(x1, y1, x2, y2, l) + l * Incidence(x1, y1, x2, y2, l)
  {
    RootsSum(x1, x2, x4);
    MulAssoc(l, l, x1 - x4);
    MulAssoc(l, l, x1 - x2);
    ReflectedSides(l, y1, y2, l * (x1 - x4), l * (x1 - x2));
    Distribute(l * l, x1, x4, x2);
  }

  lemma RootsSum(x1: int, x2: int, x4: int)
    ensures x1 * x1 + x1 * x4 + x4 * x4 == x1 * x1 + x1 * x2 + x2 * x2 + (x1 + x2 + x4) * (x4 - x2)
  {}

  lemma ReflectedSides(l: int, y1: int, y2: int, u: int, v: int)
    ensures -l * (-y1 + (u - y1)) == 2 * (l * y1) - l * u
    ensures l * (y1 + y2) + l * (y1 - y2 - v) == 2 * (l * y1) - l * v
  {}

  lemma Distribute(s: int, x1: int, x4: int, x2: int)
    ensures s * (x1 - x2) - s * (x1 - x4) == s * (x4 - x2)
  {}

  /** -p + (p + q) = q. */
  lemma NegCancels(p: Point, q: Point)
    requires Prime(P) && OnCurve(p) && OnCurve(q)
    ensures Add(Neg(p), Add(p, q)) == q
  {
    hide R, Prime, ThirdPoint, Line;
    NegOnCurve(p);
    if p == Infinity || q == Infinity || q == Neg(p) {
      NegSum(p);
    } else {
      var l := LineExists(p, q);
      var x4 := l * l - p.x - q.x;
      var s := Add(p, q);
      AddOnCurve(p, q);
      LineSum(p, q, l);
      ThirdExact(l, p.x, p.y, q.x);
      ReflectedLine(p.x, p.y, q.x, q.y, l, x4);
      Twice(x4);
      Twice(l * (p.x - x4) - p.y);
      Twice(-p.y);
      LineCong(p.x, -p.y, x4, l * (p.x - x4) - p.y, -l, Neg(p).x, Neg(p).y, s.x, s.y, -l);
      LineSum(Neg(p), s, -l);
      ThirdCong(-l, Neg(p).x, Neg(p).y, s.x, -l, p.x, -p.y, x4);
      ThirdExact(-l, p.x, -p.y, x4);
      BackToQ(p.x, p.y, q.x, q.y, l, x4);
    }
  }

  lemma BackToQ(x1: int, y1: int, x2: int, y2: int, l: int, x4: int)
    requires Reduced(x2) && Reduced(y2) && Line(x1, y1, x2, y2, l) && x4 == l * l - x1 - x2
    ensures var x := (-l) * (-l) - x1 - x4; R(x) == x2 && R((-l) * (x1 - x) - (-y1)) == y2
  {
    hide R;
    var x := (-l) * (-l) - x1 - x4;
    assert (-l) * (-l) == l * l && x == x2;
    assert (-l) * (x1 - x) - (-y1) == y1 - l * (x1 - x2);
    Difference(y1 - l * (x1 - x2), y2);
    Small(x2);
    Small(y2);
  }

  // ---- Three points on one line ----

  /** The third point of a line, mirrored, is the negative of any point of the curve and the line that makes up
      the sum of the roots. */
  lemma OppositeOfThird(xa: int, ya: int, xb: int, c: Point, l: int)
    requires c.Affine? && OnCurve(c) && Zero(l * l - (xa + xb + c.x)) && Zero(ya - c.y - l * (xa - c.x))
    ensures ThirdPoint(l, xa, ya, xb) == Neg(c)
  {
    hide R, ThirdPoint;
    var x := l * l - xa - xb;
    ThirdExact(l, xa, ya, xb);
    Difference(x, c.x);
    Small(c.x);
    Sum(xa, xa, x, c.x);
    Prod(l, l, xa - x, xa - c.x);
    Sum(l * (xa - x), l * (xa - c.x), ya, ya);
    Difference(l * (xa - c.x) - ya, -c.y);
    TimesZero(-1, ya - c.y - l * (xa - c.x));
    assert l * (xa - c.x) - ya - (-c.y) == -1 * (ya - c.y - l * (xa - c.x));
  }

  /** Of three points on one line the third repeats the first or makes up the sum of the roots. */
  lemma ThirdRoot(x1: int, y1: int, x2: int, y2: int, x3: int, y3: int, l: int)
    requires Prime(P) && Line(x1, y1, x2, y2, l) && Line(x2, y2, x3, y3, l)
    ensures Zero(y1 - y3 - l * (x1 - x3))
    ensures Zero(x3 - x1) || Zero(l * l - (x1 + x2 + x3))
  {
    hide R, Prime, Contact, Middle;
    var a, b := Incidence(x1, y1, x2, y2, l), Incidence(x2, y2, x3, y3, l);
    var c, d := Contact(x1, y1, x2, y2, l), Contact(x2, y2, x3, y3, l);
    Combine(a, b);
    assert a + b == y1 - y3 - l * (x1 - x3);
    MiddleIdentity(x1, y1, x2, y2, x3, y3, l, l, 0);
    TimesZero(l, b);
    TimesZero(l, a);
    Combine(d, c);
    Combine(d - c, l * b);
    Combine(d - c + l * b, l * a);
    NoMiddle(Middle(x1, x2, y2, x3, l, l, 0), l, x3 - x1, l * l - (x1 + x2 + x3));
    ZeroProduct(x3 - x1, l * l - (x1 + x2 + x3));
  }

  lemma NoMiddle(w: int, l: int, d: int, e: int)
    ensures (l - l) * w == 0 && (0 * (l - l) - d) * e == -(d * e)
  {}

  lemma SameLine(p: Point, q: Point, r: Point, l: int, m: int)
    requires Prime(P) && Meets(p, q, l) && Meets(q, r, m) && Zero(m - l)
    ensures r == p || (Add(p, q) == Neg(r) && Add(q, r) == Neg(p))
  {
    hide R, Prime, ThirdPoint;
    Difference(m, l);
    LineCong(q.x, q.y, r.x, r.y, m, q.x, q.y, r.x, r.y, l);
    ThirdRoot(p.x, p.y, q.x, q.y, r.x, r.y, l);
    if Zero(r.x - p.x) {
      TimesZero(l, r.x - p.x);
      Combine(p.y - r.y - l * (p.x - r.x), l * (r.x - p.x));
      EqualCoordinates(p, r, l);
    } else {
      LineSum(p, q, l);
      LineSum(q, r, l);
      LineSwap(p.x, p.y, q.x, q.y, l);
      OppositeOfThird(p.x, p.y, q.x, r, l);
      assert l * l - (q.x + r.x + p.x) == l * l - (p.x + q.x + r.x);
      OppositeOfThird(q.x, q.y, r.x, p, l);
    }
  }

  lemma EqualCoordinates(p: Point, r: Point, l: int)
    requires p.Affine? && r.Affine? && OnCurve(p) && OnCurve(r) && Zero(r.x - p.x)
    requires Zero(p.y - r.y - l * (p.x - r.x) - l * (r.x - p.x))
    ensures r == p
  {
    hide R;
    assert l * (p.x - r.x) + l * (r.x - p.x) == 0;
    Difference(r.x, p.x);
    Difference(p.y, r.y);
    Small(p.x);
    Small(r.x);
    Small(p.y);
    Small(r.y);
  }

  // ---- The theorem ----

  /** Two lines of different slopes. */
  lemma AssociativeLines(p: Point, q: Point, r: Point, l: int, m: int)
    requires Prime(P) && Meets(p, q, l) && Meets(q, r, m) && !Zero(m - l)
    ensures Add(Add(p, q), r) == Add(p, Add(q, r))
  {
    hide R, Prime, Add, OnCurve, ThirdPoint, Line, Quotient;
    var k := FMul(r.x - p.x, Inv(m - l));
    QuotientZero(p.x, r.x, l, m, k);
    LineSwap(q.x, q.y, r.x, r.y, m);
    LineSwap(p.x, p.y, q.x, q.y, l);
    OuterSum(p, q, r, l, m, k);
    OuterSum(r, q, p, m, l, k);
    AddCommutes(q, r);
    AddOnCurve(q, r);
    AddCommutes(p, Add(q, r));
    var x4, x5 := l * l - p.x - q.x, m * m - r.x - q.x;
    var y4, y5 := l * (p.x - x4) - p.y, m * (r.x - x5) - r.y;
    ThirdExact(k - l, x4, y4, r.x);
    ThirdExact(k - m, x5, y5, p.x);
    SameThird(p.x, p.y, q.x, q.y, r.x, r.y, l, m, k);
  }

  lemma QuotientZero(x1: int, x3: int, l: int, m: int, k: int)
    requires Prime(P) && !Zero(m - l) && k == FMul(x3 - x1, Inv(m - l))
    ensures Zero(Quotient(x1, x3, l, m, k)) && Zero(Quotient(x3, x1, m, l, k)) && !Zero(l - m)
  {
    hide R, Prime;
    DividedSlope(x3 - x1, m - l);
    Difference(k * (m - l), x3 - x1);
    TimesZero(-1, Quotient(x1, x3, l, m, k));
    assert Quotient(x3, x1, m, l, k) == -1 * Quotient(x1, x3, l, m, k);
    assert m - l == -1 * (l - m);
    if Zero(l - m) { TimesZero(-1, l - m); }
  }

  /** The sum of p + q and r lies on the line of slope k - l. */
  lemma OuterSum(p: Point, q: Point, r: Point, l: int, m: int, k: int)
    requires Prime(P) && Meets(p, q, l) && Meets(q, r, m) && !Zero(m - l)
    requires Zero(Quotient(p.x, r.x, l, m, k))
    ensures var x4 := l * l - p.x - q.x; var y4 := l * (p.x - x4) - p.y;
      Line(x4, y4, r.x, r.y, k - l) && Add(Add(p, q), r) == ThirdPoint(k - l, x4, y4, r.x)
  {
    hide R, Prime, ThirdPoint, Line, Quotient;
    var x4 := l * l - p.x - q.x;
    var y4 := l * (p.x - x4) - p.y;
    var s := Add(p, q);
    OuterLine(p.x, p.y, q.x, q.y, r.x, r.y, l, m, k, x4);
    LineSum(p, q, l);
    ThirdExact(l, p.x, p.y, q.x);
    AddOnCurve(p, q);
    Twice(x4);
    Twice(y4);
    LineCong(x4, y4, r.x, r.y, k - l, s.x, s.y, r.x, r.y, k - l);
    LineSum(s, r, k - l);
    ThirdCong(k - l, s.x, s.y, r.x, k - l, x4, y4, r.x);
  }

  lemma SameThird(x1: int, y1: int, x2: int, y2: int, x3: int, y3: int, l: int, m: int, k: int)
    requires Line(x1, y1, x2, y2, l) && Line(x2, y2, x3, y3, m) && Zero(Quotient(x1, x3, l, m, k))
    requires var x4 := l * l - x1 - x2; Line(x4, l * (x1 - x4) - y1, x3, y3, k - l)
    requires var x5 := m * m - x3 - x2; Line(x5, m * (x3 - x5) - y3, x1, y1, k - m)
    ensures var x4, x5 := l * l - x1 - x2, m * m - x3 - x2;
      var x6, x7 := (k - l) * (k - l) - x4 - x3, (k - m) * (k - m) - x5 - x1;
      R(x6) == R(x7)
      && R((k - l) * (x4 - x6) - (l * (x1 - x4) - y1)) == R((k - m) * (x5 - x7) - (m * (x3 - x5) - y3))
  {
    hide R, Incidence, Contact, Quotient;
    var x4, x5, q := l * l - x1 - x2, m * m - x3 - x2, Quotient(x1, x3, l, m, k);
    var y4, y5 := l * (x1 - x4) - y1, m * (x3 - x5) - y3;
    var x6, x7 := (k - l) * (k - l) - x4 - x3, (k - m) * (k - m) - x5 - x1;
    SameX6(x1, x2, x3, l, m, k);
    TimesZero(2, q);
    Difference(x6, x7);
    var a, b := Incidence(x1, y1, x2, y2, l), Incidence(x2, y2, x3, y3, m);
    var c, d := Incidence(x4, y4, x3, y3, k - l), Incidence(x5, y5, x1, y1, k - m);
    SameY6(x1, y1, x2, y2, x3, y3, l, m, k, x4, y4, x5, y5, x6, x7);
    Combine(a, b);
    Combine(a + b, d);
    Combine(a + b + d, c);
    TimesZero(2 * l + 2 * m - 3 * k, q);
    Combine(a + b + d - c, q * (2 * l + 2 * m - 3 * k));
    Difference((k - l) * (x4 - x6) - y4, (k - m) * (x5 - x7) - y5);
  }

  lemma SameX6(x1: int, x2: int, x3: int, l: int, m: int, k: int)
    ensures ((k - l) * (k - l) - (l * l - x1 - x2) - x3) - ((k - m) * (k - m) - (m * m - x3 - x2) - x1)
         == 2 * Quotient(x1, x3, l, m, k)
  {}

  lemma SameY6(x1: int, y1: int, x2: int, y2: int, x3: int, y3: int, l: int, m: int, k: int,
               x4: int, y4: int, x5: int, y5: int, x6: int, x7: int)
    requires x6 == (k - l) * (k - l) - (l * l - x1 - x2) - x3 && x7 == (k - m) * (k - m) - (m * m - x3 - x2) - x1
    ensures ((k - l) * (x4 - x6) - y4) - ((k - m) * (x5 - x7) - y5)
         == Incidence(x1, y1, x2, y2, l) + Incidence(x2, y2, x3, y3, m) + Incidence(x5, y5, x1, y1, k - m)
            - Incidence(x4, y4, x3, y3, k - l) + Quotient(x1, x3, l, m, k) * (2 * l + 2 * m - 3 * k)
  {
    FromOuter(k - l, x4, y4, x3, y3, x6);
    FromOuter(k - m, x5, y5, x1, y1, x7);
    OuterYs(x1, x2, x3, l, m, k, x6, x7);
    FromMiddle(x1, y1, x2, y2, x3, y3, l, m);
  }

  lemma FromOuter(s: int, x4: int, y4: int, x3: int, y3: int, x6: int)
    ensures s * (x4 - x6) - y4 == s * (x3 - x6) - y3 - Incidence(x4, y4, x3, y3, s)
  {}

  lemma FromMiddle(x1: int, y1: int, x2: int, y2: int, x3: int, y3: int, l: int, m: int)
    ensures y1 - y3 == Incidence(x1, y1, x2, y2, l) + Incidence(x2, y2, x3, y3, m) + l * (x1 - x2) + m * (x2 - x3)
  {}

  lemma OuterYs(x1: int, x2: int, x3: int, l: int, m: int, k: int, x6: int, x7: int)
    requires x6 == (k - l) * (k - l) - (l * l - x1 - x2) - x3 && x7 == (k - m) * (k - m) - (m * m - x3 - x2) - x1
    ensures (k - l) * (x3 - x6) - (k - m) * (x1 - x7) + l * (x1 - x2) + m * (x2 - x3)
         == Quotient(x1, x3, l, m, k) * (2 * l + 2 * m - 3 * k)
  {}

  /** (p + q) + r = p + (q + r) for all points of the curve. */
  lemma Associative(p: Point, q: Point, r: Point)
    requires Prime(P) && OnCurve(p) && OnCurve(q) && OnCurve(r)
    ensures Add(Add(p, q), r) == Add(p, Add(q, r))
  {
    hide R, Prime, ThirdPoint, Line;
    NegOnCurve(p);
    NegOnCurve(q);
    if p == Infinity || q == Infinity || r == Infinity {
    } else if q == Neg(p) {
      NegSum(p);
      NegCancels(q, r);
    } else if r == Neg(q) {
      NegSum(q);
      NegCancels(q, p);
      AddCommutes(p, q);
      AddOnCurve(p, q);
      AddCommutes(Add(p, q), r);
    } else {
      var l := LineExists(p, q);
      var m := LineExists(q, r);
      if Zero(m - l) {
        SameLine(p, q, r, l, m);
        if r == p {
          AddCommutes(p, q);
          AddOnCurve(p, q);
          AddCommutes(p, Add(p, q));
        } else {
          NegSum(p);
          NegSum(r);
        }
      } else {
        AssociativeLines(p, q, r, l, m);
      }
    }
  }
}
