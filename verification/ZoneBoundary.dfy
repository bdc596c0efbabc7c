/** Zone boundaries as the native 128-bit path computes them, with a floating-point format of w bits of mantissa. */
module ZoneBoundary {
  import opened Arith
  import opened Limbs
  import opened FieldPow
  import opened Bits
  import opened ZoneSearch
  import opened ZoneSession

  // ---- Rounding to w significant bits, ties to even ----

  /** How many low bits do not fit. */
  function Excess(n: nat, w: nat): nat {
    if BitLen(n) <= w then 0 else BitLen(n) - w
  }

  function Unit(n: nat, w: nat): (d: nat)
    ensures 0 < d
  {
    PowPositive(2, Excess(n, w));
    Pow(2, Excess(n, w))
  }

  /** n / d to the nearest integer, the even one of two. */
  function Nearest(n: nat, d: nat): (q: nat)
    requires 0 < d
    ensures n / d <= q <= n / d + 1
  {
    var r := n % d;
    if 2 * r > d || (2 * r == d && n / d % 2 == 1) then n / d + 1 else n / d
  }

  function Round(n: nat, w: nat): (r: int)
    ensures 0 <= r
  {
    MulNonneg(Nearest(n, Unit(n, w)), Unit(n, w));
    Nearest(n, Unit(n, w)) * Unit(n, w)
  }

  lemma MulNonneg(a: int, b: int)
    requires 0 <= a && 0 <= b
    ensures 0 <= a * b
  {}

  /** The result is at most half a unit away. */
  lemma RoundNear(n: nat, w: nat)
    ensures var d: int := Unit(n, w); -d <= 2 * (Round(n, w) - n) <= d
  {
    hide Unit;
    var d := Unit(n, w);
    var q := n / d;
    DivParts(n, d);
    assert (q + 1) * d == q * d + d;
  }

  /** Of two numbers half a unit away the result is the one whose last kept bit is zero. */
  lemma TiesToEven(n: nat, w: nat)
    requires 2 * (Round(n, w) - n) == Unit(n, w) as int || 2 * (n - Round(n, w)) == Unit(n, w) as int
    ensures Round(n, w) % (2 * Unit(n, w)) == 0
  {
    var d, q := Unit(n, w), Nearest(n, Unit(n, w));
    hide Unit, Nearest;
    NearestTie(n, d);
    TwiceHalf(q, d);
    DivModUnique(Round(n, w), 2 * d, q / 2, 0);
  }

  lemma NearestTie(n: nat, d: nat)
    requires 0 < d && (2 * (Nearest(n, d) * d - n) == d || 2 * (n - Nearest(n, d) * d) == d)
    ensures Nearest(n, d) % 2 == 0
  {
    DivParts(n, d);
    OneMore(n / d, d);
  }

  lemma TwiceHalf(q: nat, d: nat)
    requires q % 2 == 0
    ensures q * d == q / 2 * (2 * d)
  {
    assert q == q / 2 * 2;
    MulAssoc(q / 2, 2, d);
  }

  /** The error is at most one part in 2^w. */
  lemma RoundRelative(n: nat, w: nat)
    requires 0 < w
    ensures Pow(2, w) * (Round(n, w) - n) <= n && Pow(2, w) * (n - Round(n, w)) <= n
  {
    hide Nearest, BitLen;
    if BitLen(n) <= w {
      ShortExact(n, w);
      assert Pow(2, w) * 0 == 0;
    } else {
      BitLenBounds(n);
      RoundNear(n, w);
      LongQuotient(n, w);
      PowPositive(2, w);
      PowAdd(2, w, BitLen(n) - w);
      hide Pow, Round, Unit;
      HalfUnit(Pow(2, w), Round(n, w) - n, Unit(n, w), Pow(2, BitLen(n) - 1), n);
    }
  }

  lemma HalfUnit(p: int, e: int, d: int, h: int, n: int)
    requires 0 < p && -d <= 2 * e <= d && p * d == 2 * h && h <= n
    ensures p * e <= n && p * -e <= n
  {
    MulMono(2 * e, d, p);
    MulMono(2 * -e, d, p);
    assert p * (2 * e) == 2 * (p * e) && p * (2 * -e) == 2 * (p * -e);
  }

  lemma DivParts(n: nat, d: nat)
    requires 0 < d
    ensures n == n / d * d + n % d && 0 <= n % d < d
  {}

  lemma NearestMonotone(a: nat, b: nat, d: nat)
    requires 0 < d && a <= b
    ensures Nearest(a, d) <= Nearest(b, d)
  {
    DivMonotone(a, b, d);
    if a / d == b / d {
      DivParts(a, d);
      DivParts(b, d);
    }
  }

  lemma DivMonotone(a: nat, b: nat, d: nat)
    requires 0 < d && a <= b
    ensures a / d <= b / d
  {
    DivParts(a, d);
    DivParts(b, d);
    if b / d < a / d {
      MulMono(b / d + 1, a / d, d);
      OneMore(b / d, d);
    }
  }

  lemma OneMore(q: int, d: int)
    ensures (q + 1) * d == q * d + d
  {}

  lemma DivAbove(n: nat, d: nat, q: nat)
    requires 0 < d && q * d <= n
    ensures q <= n / d
  {
    DivMonotone(q * d, n, d);
    DivModUnique(q * d, d, q, 0);
  }

  /** A number with more bits than w has w bits of quotient; the nearest one may be the next power of two. */
  lemma LongQuotient(n: nat, w: nat)
    requires 0 < w < BitLen(n)
    ensures Unit(n, w) == Pow(2, BitLen(n) - w)
    ensures Pow(2, w - 1) <= n / Unit(n, w) < Pow(2, w)
  {
    hide BitLen;
    var l, e := BitLen(n), BitLen(n) - w;
    BitLenBounds(n);
    PowAdd(2, w - 1, e);
    PowAdd(2, w, e);
    PowPositive(2, w - 1);
    DivAbove(n, Pow(2, e), Pow(2, w - 1));
    DivBelow(n, Pow(2, e), Pow(2, w));
  }

  /** A number of at most w bits is its own rounding. */
  lemma ShortExact(n: nat, w: nat)
    requires BitLen(n) <= w
    ensures Unit(n, w) == 1 && Round(n, w) == n
  {
    hide BitLen;
    DivModUnique(n, 1, n, 0);
  }

  lemma RoundBetween(n: nat, w: nat)
    requires 0 < n && 0 < w
    ensures Pow(2, BitLen(n) - 1) <= Round(n, w) <= Pow(2, BitLen(n))
  {
    hide BitLen, Nearest, Unit;
    BitLenBounds(n);
    if BitLen(n) <= w {
      ShortExact(n, w);
    } else {
      var d, q := Unit(n, w), Nearest(n, Unit(n, w));
      LongQuotient(n, w);
      PowAdd(2, w - 1, BitLen(n) - w);
      PowAdd(2, w, BitLen(n) - w);
      MulMono(Pow(2, w - 1), q, d);
      MulMono(q, Pow(2, w), d);
    }
  }

  lemma RoundMonotone(a: nat, b: nat, w: nat)
    requires a <= b && 0 < w
    ensures Round(a, w) <= Round(b, w)
  {
    hide BitLen, Nearest, Pow;
    if a == 0 {
      ZeroExact(w);
    } else if BitLen(a) == BitLen(b) {
      NearestMonotone(a, b, Unit(a, w));
      MulMono(Nearest(a, Unit(a, w)), Nearest(b, Unit(b, w)), Unit(a, w));
    } else {
      BitLenBounds(a);
      BitLenBounds(b);
      if BitLen(b) < BitLen(a) { PowGrows(2, BitLen(b), BitLen(a) - 1); }
      RoundBetween(a, w);
      RoundBetween(b, w);
      PowGrows(2, BitLen(a), BitLen(b) - 1);
    }
  }

  lemma ZeroExact(w: nat)
    ensures Round(0, w) == 0
  {
    ShortExact(0, w);
  }

  /** A number of at most w significant bits is not changed. */
  lemma RoundExact(n: nat, w: nat, q: nat, e: nat)
    requires n == q * Pow(2, e) && q < Pow(2, w)
    ensures Round(n, w) == n
  {
    hide BitLen, Nearest;
    var x := Excess(n, w);
    if x > e {
      PowPositive(2, e);
      BitLenBounds(n);
      PowAdd(2, w, e);
      MulStrict2(q, Pow(2, w), Pow(2, e));
      PowGrows(2, w + e, BitLen(n) - 1);
    } else {
      var d, f := Unit(n, w), Pow(2, e - x);
      PowPositive(2, e - x);
      PowAdd(2, e - x, x);
      MulAssoc(q, f, d);
      MulNonneg(q, f);
      ExactQuotient(n, d, q * f);
    }
  }

  lemma ExactQuotient(n: nat, d: nat, q: nat)
    requires 0 < d && n == q * d
    ensures Nearest(n, d) == q
  {
    DivModUnique(n, d, q, 0);
  }

  /** A rounded number, times a power of two, has at most w significant bits. */
  lemma RoundedScales(n: nat, w: nat, k: nat)
    requires 0 < w
    ensures Round(n, w) * Pow(2, k) >= 0 && Round(Round(n, w) * Pow(2, k), w) == Round(n, w) * Pow(2, k)
  {
    hide BitLen, Round, Nearest;
    PowPositive(2, k);
    MulNonneg(Round(n, w), Pow(2, k));
    var q, e := Significant(n, w);
    PowAdd(2, e, k);
    MulAssoc(q, Pow(2, e), Pow(2, k));
    RoundExact(Round(n, w) * Pow(2, k), w, q, e + k);
  }

  /** A rounded number as a mantissa and an exponent. */
  lemma Significant(n: nat, w: nat) returns (q: nat, e: nat)
    requires 0 < w
    ensures q < Pow(2, w) && Round(n, w) == q * Pow(2, e)
  {
    hide BitLen, Nearest;
    if BitLen(n) <= w {
      ShortExact(n, w);
      if n > 0 {
        BitLenBounds(n);
        PowGrows(2, BitLen(n), w);
      } else {
        PowPositive(2, w);
      }
      q, e := n, 0;
    } else {
      LongQuotient(n, w);
      q, e := Nearest(n, Unit(n, w)), BitLen(n) - w;
      if q == Pow(2, w) {
        PowPositive(2, w - 1);
        PowTwice(w);
        PowAdd(2, w - 1, e + 1);
        PowAdd(2, w, e);
        q, e := Pow(2, w - 1), e + 1;
      }
    }
  }

  lemma PowTwice(w: nat)
    requires 0 < w
    ensures Pow(2, w) == 2 * Pow(2, w - 1)
  {}

  /** 2^k - 1 fits in k bits; with fewer it is rounded up. */
  lemma RoundOnes(k: nat, w: nat)
    requires 0 < w
    ensures Pow(2, k) - 1 >= 0
    ensures Round(Pow(2, k) - 1, w) == if k <= w then Pow(2, k) - 1 else Pow(2, k)
  {
    hide BitLen, Nearest;
    PowPositive(2, k);
    var n := Pow(2, k) - 1;
    if k <= w {
      PowGrows(2, k, w);
      assert Pow(2, 0) == 1;
      RoundExact(n, w, n, 0);
    } else {
      PowTwice(k);
      PowPositive(2, k - 1);
      BitLenUnique(n, k);
      LongQuotient(n, w);
      OnesUp(k, w, n);
    }
  }

  lemma OnesUp(k: nat, w: nat, n: nat)
    requires 0 < w < k && n == Pow(2, k) - 1
    ensures Pow(2, k - w) > 0 && Nearest(n, Pow(2, k - w)) * Pow(2, k - w) == Pow(2, k)
  {
    var e := k - w;
    PowAdd(2, w, e);
    PowTwice(e);
    PowTwice(w);
    PowPositive(2, e - 1);
    PowPositive(2, w - 1);
    hide Pow;
    JustBelow(n, Pow(2, e), Pow(2, w), Pow(2, w - 1));
  }

  /** One less than an even multiple of the unit goes up; with a unit of 2 it is a tie. */
  lemma JustBelow(n: nat, d: nat, m: nat, half: nat)
    requires 2 <= d && m == 2 * half && 0 < half && n == m * d - 1
    ensures Nearest(n, d) == m
  {
    OneMore(m - 1, d);
    DivModUnique(n, d, m - 1, d - 1);
  }

  // ---- calc_zone_position ----

  /** The percentages as the nearest doubles, over 2^54. Scaling by a power of two does not change a rounding. */
  function Percent(pct: nat): nat {
    if pct == 30 then 5404319552844595
    else if pct == 50 then 9007199254740992
    else if pct == 60 then 10808639105689190
    else if pct == 85 then 15312238733059686
    else if pct == 100 then 18014398509481984
    else 0
  }

  const SCALE: nat := 18014398509481984

  /** The size of the range becomes a floating-point number, the product is rounded and then cut off. */
  function Offset(size: nat, pct: nat, w: nat): nat {
    MulNonneg(Round(size, w), Percent(pct));
    Round(Round(size, w) * Percent(pct), w) / SCALE
  }

  /** A sum of two 128-bit numbers, in two limbs. */
  function PositionAt(n: nat): Position {
    Position(n / B % B, n % B)
  }

  lemma PositionValue(n: nat)
    ensures At(PositionAt(n)) == n % (B * B)
  {
    LimbsOf(n, n / B, n % B, n / B / B, n / B % B);
  }

  lemma LimbsOf(n: int, q: int, r: int, h: int, m: int)
    requires n == q * B + r && 0 <= r < B && q == h * B + m && 0 <= m < B
    ensures n % (B * B) == m * B + r
  {
    DivModUnique(n, B * B, h, m * B + r);
  }

  function UnixBoundary(first: nat, last: nat, w: nat): Boundary
    requires first <= last
  {
    (pct: nat) => PositionAt(first + Offset(last - first, pct, w))
  }

  lemma OffsetMonotone(size: nat, p: nat, q: nat, w: nat)
    requires Percent(p) <= Percent(q) && 0 < w
    ensures Offset(size, p, w) <= Offset(size, q, w)
  {
    var r := Round(size, w);
    MulNonneg(r, Percent(p));
    MulNonneg(r, Percent(q));
    MulMono(Percent(p), Percent(q), r);
    RoundMonotone(r * Percent(p), r * Percent(q), w);
    DivMonotone(Round(r * Percent(p), w), Round(r * Percent(q), w), SCALE);
  }

  lemma ScaleIsPower()
    ensures SCALE == Pow(2, 54)
  {
    assert Pow(2, 9) == 512;
    PowMul(2, 9, 6);
    assert Pow(512, 6) == 512 * Pow(512, 5) == 512 * (512 * Pow(512, 4));
    assert Pow(512, 4) == 512 * Pow(512, 3) == 512 * (512 * Pow(512, 2));
    assert Pow(512, 2) == 512 * Pow(512, 1) == 512 * 512;
  }

  lemma OffsetEnds(size: nat, w: nat)
    requires 0 < w
    ensures Offset(size, 0, w) == 0 && Offset(size, 100, w) == Round(size, w)
  {
    ScaleIsPower();
    RoundedScales(size, w, 54);
    ZeroExact(w);
    DivModUnique(Round(size, w) * SCALE, SCALE, Round(size, w), 0);
  }

  lemma WeakerError(w: nat, e: int, n: int)
    requires 53 <= w && Pow(2, w) * e <= n && Pow(2, w) * -e <= n
    ensures -n <= 0x20_0000_0000_0000 * e <= n
  {
    hide Pow;
    ScaleIsPower();
    PowTwice(54);
    PowGrows(2, 53, w);
    MulMono(Pow(2, 53), Pow(2, w), if e >= 0 then e else -e);
  }

  /** With 53 bits of mantissa or more, a boundary is within one key and 2^-51 of the range of where its percentage
      puts it. */
  lemma OffsetNear(size: nat, pct: nat, w: nat)
    requires 53 <= w && pct in [30, 50, 60, 85, 100]
    ensures -100 * 0x40_0000_0000_0000 - 800 * size
         <= 0x40_0000_0000_0000 * (100 * Offset(size, pct, w) - pct * size)
         <= 100 * 0x40_0000_0000_0000 + 800 * size
  {
    var p: nat := Percent(pct);
    var r: nat := Round(size, w);
    assert -100 <= 100 * p - pct * 0x40_0000_0000_0000 <= 100;
    hide Round, Pow, Percent;
    RoundRelative(size, w);
    WeakerError(w, r - size, size);
    MulNonneg(r, p);
    RoundRelative(r * p, w);
    WeakerError(w, Round(r * p, w) - r * p, r * p);
    DivParts(Round(r * p, w), SCALE);
    NearSum(size, r, p, pct, r * p, Round(r * p, w), Offset(size, pct, w));
  }

  lemma NearSum(s: int, r: int, p: int, pct: int, x: int, y: int, o: int)
    requires -s <= 0x20_0000_0000_0000 * (r - s) <= s && -x <= 0x20_0000_0000_0000 * (y - x) <= x && x == r * p
    requires 0x40_0000_0000_0000 * o <= y < 0x40_0000_0000_0000 * o + 0x40_0000_0000_0000
    requires -100 <= 100 * p - pct * 0x40_0000_0000_0000 <= 100 && 0 <= pct <= 100 && 0 <= s && 0 <= r
    ensures -100 * 0x40_0000_0000_0000 - 800 * s <= 0x40_0000_0000_0000 * (100 * o - pct * s) <= 100 * 0x40_0000_0000_0000 + 800 * s
  {
    PercentTimes(r, 100 * p - pct * 0x40_0000_0000_0000);
    Distribute(r, p, pct);
    PercentOf(pct, 0x20_0000_0000_0000 * (r - s), s);
    DistributeDifference(pct, r, s);
    MulMono(pct, 100, r);
    LinearSum(s, r, x, y, o, pct * r, pct * s);
  }

  lemma LinearSum(s: int, r: int, x: int, y: int, o: int, t: int, u: int)
    requires 0 <= s && 0 <= r && t <= 100 * r
    requires 0x20_0000_0000_0000 * (r - s) <= s && -x <= 0x20_0000_0000_0000 * (y - x) <= x
    requires 0x40_0000_0000_0000 * o <= y < 0x40_0000_0000_0000 * o + 0x40_0000_0000_0000
    requires -100 * r <= 100 * x - 0x40_0000_0000_0000 * t <= 100 * r
    requires -100 * s <= 0x20_0000_0000_0000 * (t - u) <= 100 * s
    ensures -100 * 0x40_0000_0000_0000 - 800 * s <= 0x40_0000_0000_0000 * (100 * o - u) <= 100 * 0x40_0000_0000_0000 + 800 * s
  {}

  lemma PercentTimes(r: nat, e: int)
    requires -100 <= e <= 100
    ensures -100 * r <= r * e <= 100 * r
  {
    MulMono(e, 100, r);
    MulMono(-100, e, r);
  }

  lemma Distribute(r: int, p: int, pct: int)
    ensures r * (100 * p - pct * 0x40_0000_0000_0000) == 100 * (r * p) - 0x40_0000_0000_0000 * (pct * r)
  {}

  lemma PercentOf(pct: int, e: int, s: int)
    requires 0 <= pct <= 100 && 0 <= s && -s <= e <= s
    ensures -100 * s <= pct * e <= 100 * s
  {
    MulMono(e, s, pct);
    MulMono(-s, e, pct);
    MulMono(pct, 100, s);
    assert pct * -s == -(pct * s);
  }

  lemma DistributeDifference(pct: int, r: int, s: int)
    ensures pct * (0x20_0000_0000_0000 * (r - s)) == 0x20_0000_0000_0000 * (pct * r - pct * s)
  {}

  /** Whatever the format, the boundaries are in order, from the first key to the rounded end of the range. */
  lemma UnixMonotone(first: nat, last: nat, w: nat)
    requires first <= last && 0 < w && first + Round(last - first, w) < B * B
    ensures Monotone(UnixBoundary(first, last, w))
    ensures At(UnixBoundary(first, last, w)(0)) == first
    ensures At(UnixBoundary(first, last, w)(100)) == first + Round(last - first, w)
  {
    hide Offset, Round, PositionAt, At;
    var size := last - first;
    OffsetEnds(size, w);
    OffsetMonotone(size, 0, 30, w);
    OffsetMonotone(size, 30, 50, w);
    OffsetMonotone(size, 50, 60, w);
    OffsetMonotone(size, 60, 85, w);
    OffsetMonotone(size, 85, 100, w);
    NoWrap(first + Offset(size, 0, w));
    NoWrap(first + Offset(size, 30, w));
    NoWrap(first + Offset(size, 50, w));
    NoWrap(first + Offset(size, 60, w));
    NoWrap(first + Offset(size, 85, w));
    NoWrap(first + Offset(size, 100, w));
  }

  /** So every native boundary lies where its percentage says, up to one key and 2^-51 of the range. */
  lemma BoundaryNear(first: nat, last: nat, pct: nat, w: nat)
    requires first <= last && 53 <= w && pct in [30, 50, 60, 85, 100] && first + Round(last - first, w) < B * B
    ensures var offset: int := At(UnixBoundary(first, last, w)(pct)) - first;
      && 0x40_0000_0000_0000 * (100 * offset - pct * (last - first)) <= 100 * 0x40_0000_0000_0000 + 800 * (last - first)
      && 0x40_0000_0000_0000 * (pct * (last - first) - 100 * offset) <= 100 * 0x40_0000_0000_0000 + 800 * (last - first)
  {
    hide Offset, Round, PositionAt, At;
    OffsetEnds(last - first, w);
    OffsetMonotone(last - first, pct, 100, w);
    NoWrap(first + Offset(last - first, pct, w));
    OffsetNear(last - first, pct, w);
  }

  lemma NoWrap(n: nat)
    requires n < B * B
    ensures At(PositionAt(n)) == n
  {
    PositionValue(n);
    DivModUnique(n, B * B, 0, n);
  }

  // ---- The puzzles ----

  /** The range of puzzle n: its upper boundary is the last key if the size fits the mantissa, and the key after it
      if the size is rounded up. */
  lemma PuzzleEnd(n: nat, w: nat)
    requires 1 <= n <= 127 && 0 < w
    ensures var first, last := Pow(2, n - 1), Pow(2, n) - 1;
      && 0 < first <= last && Monotone(UnixBoundary(first, last, w))
      && At(UnixBoundary(first, last, w)(0)) == first
      && At(UnixBoundary(first, last, w)(100)) == if n - 1 <= w then last else last + 1
  {
    hide Round, Offset, UnixBoundary, Monotone;
    PowPositive(2, n - 1);
    PowTwice(n);
    RoundOnes(n - 1, w);
    PowGrows(2, n, 127);
    Pow127();
    UnixMonotone(Pow(2, n - 1), Pow(2, n) - 1, w);
  }

  lemma Pow127()
    ensures Pow(2, 127) == 0x8000_0000_0000_0000 * B && 2 * Pow(2, 127) == B * B
  {
    Pow2Limb();
    PowAdd(2, 64, 63);
    PowTwice(64);
  }

  /** The last key of puzzle n in an undisturbed search: always covered if the size is rounded up (from puzzle 66 on
      with 64 bits of mantissa), otherwise only by a batch that runs over the upper zone. */
  lemma PuzzleLastKey(n: nat, w: nat, count: nat)
    requires 1 <= n <= 127 && 0 < w && 0 < count
    ensures var first, last := Pow(2, n - 1), Pow(2, n) - 1;
      && 0 < first <= last
      && var b := UnixBoundary(first, last, w);
         && (n - 1 > w ==> Searched(BatchesFrom(b, 0, count), last))
         && (n - 1 <= w && At(b(85)) < last ==>
               (Searched(BatchesFrom(b, 0, count), last) <==> (last - At(b(85))) % count != 0))
  {
    hide Pow, Monotone, Searched, UnixBoundary, BatchesFrom;
    PuzzleEnd(n, w);
    LastKeyIff(UnixBoundary(Pow(2, n - 1), Pow(2, n) - 1, w), count, Pow(2, n) - 1);
  }

  /** A completed search of puzzle n has covered its range, all of it if the size is rounded up. */
  lemma PuzzleCovered(n: nat, w: nat, log: seq<Batch>)
    requires 1 <= n <= 127 && 0 < w
    requires Pow(2, n - 1) <= Pow(2, n) - 1 && Complete(UnixBoundary(Pow(2, n - 1), Pow(2, n) - 1, w), log)
    ensures Swept(log, Pow(2, n - 1), if n - 1 <= w then Pow(2, n) - 1 else Pow(2, n))
  {
    hide Pow, Monotone, Complete, Swept, UnixBoundary;
    PuzzleEnd(n, w);
    CompleteCovers(UnixBoundary(Pow(2, n - 1), Pow(2, n) - 1, w), log);
  }

  // ---- Two failing inputs ----

  lemma RoundValue(n: nat, w: nat, e: nat, q: nat, r: nat)
    requires 0 < w && Pow(2, w + e - 1) <= n < Pow(2, w + e)
    requires Pow(2, e) > 0 && n == q * Pow(2, e) + r && 2 * r < Pow(2, e)
    ensures Round(n, w) == q * Pow(2, e)
  {
    BitLenUnique(n, w + e);
    DivModUnique(n, Pow(2, e), q, r);
  }

  /** A custom range of 26666661 keys and the default batch of four million: with 64 bits of mantissa the upper zone
      is exactly one batch, and the last key is not searched. */
  lemma LastKeyMissed(first: nat)
    requires first < B
    ensures var last := first + 26666660;
      var b := UnixBoundary(first, last, 64);
      At(b(100)) == last && last - At(b(85)) == 4000000 && !Searched(BatchesFrom(b, 0, 4000000), last)
  {
    hide Searched, BatchesFrom, Round, Monotone;
    var size, last := 26666660, first + 26666660;
    var b := UnixBoundary(first, last, 64);
    SmallSize();
    UnixMonotone(first, last, 64);
    NoWrap(first + Offset(size, 85, 64));
    LastKeyIff(b, 4000000, last);
    DivModUnique(4000000, 4000000, 1, 0);
  }

  lemma SmallSize()
    ensures Round(26666660, 64) == 26666660 && Offset(26666660, 85, 64) == 22666660
  {
    hide BitLen, Unit, Nearest;
    Pow2Limb();
    assert Pow(2, 0) == 1;
    RoundExact(26666660, 64, 26666660, 0);
    assert Pow(2, 15) == 32768;
    PowAdd(2, 64, 15);
    PowTwice(79);
    RoundValue(408326264133333406268760, 64, 15, 12461128666178387642, 15704);
    DivModUnique(408326264133333406253056, SCALE, 22666660, 408326264133333406253056 - 22666660 * SCALE);
  }

  /** Keys of 128 bits: the upper boundary is rounded to 2^128 and wraps to 0, the upper zone counts as finished at
      once, and nothing beyond the batch that runs over the 85% boundary is ever searched. */
  lemma UpperZoneLost(w: nat, count: nat, k: nat)
    requires 4 <= w < 127 && 0 < count
    ensures Pow(2, 127) <= Pow(2, 128) - 1
    ensures var b := UnixBoundary(Pow(2, 127), Pow(2, 128) - 1, w);
      At(b(100)) == 0 && (At(b(85)) + count <= k ==> !Searched(BatchesFrom(b, 0, count), k))
  {
    hide Searched, BatchesFrom, Pow, UnixBoundary;
    Pow127();
    PowTwice(128);
    WrappedBoundaries(w);
    var b := UnixBoundary(Pow(2, 127), Pow(2, 128) - 1, w);
    if At(b(85)) + count <= k { NothingBeyond(b, count, k); }
  }

  lemma WrappedBoundaries(w: nat)
    requires 4 <= w < 127
    ensures Pow(2, 127) <= Pow(2, 128) - 1
    ensures var b := UnixBoundary(Pow(2, 127), Pow(2, 128) - 1, w);
      At(b(0)) <= At(b(30)) <= At(b(50)) <= At(b(60)) <= At(b(85)) && At(b(100)) == 0
  {
    hide Round, Offset, PositionAt, At;
    Pow127();
    PowTwice(128);
    hide Pow;
    var first, size := Pow(2, 127), Pow(2, 127) - 1;
    RoundOnes(127, w);
    OffsetEnds(size, w);
    PositionValue(B * B);
    LowerBoundaries(size, w);
    NoWrap(first + Offset(size, 0, w));
    NoWrap(first + Offset(size, 30, w));
    NoWrap(first + Offset(size, 50, w));
    NoWrap(first + Offset(size, 60, w));
    NoWrap(first + Offset(size, 85, w));
  }

  lemma NothingBeyond(b: Boundary, count: nat, k: nat)
    requires At(b(0)) <= At(b(30)) <= At(b(50)) <= At(b(60)) <= At(b(85)) && At(b(100)) == 0
    requires 0 < count && At(b(85)) + count <= k
    ensures !Searched(BatchesFrom(b, 0, count), k)
  {
    hide Searched, BatchesFrom, ZoneBatches, Reach;
    forall z | 0 <= z < NUM_ZONES
      ensures !Searched(ZoneBatches(ZoneStart(b, z), ZoneEnd(b, z), count), k)
    {
      if ZoneStart(b, z) < ZoneEnd(b, z) { ReachesPast(ZoneStart(b, z), ZoneEnd(b, z), count); }
      OverrunSearched(ZoneStart(b, z), ZoneEnd(b, z), count, k);
    }
    SomeZone(b, count, k);
  }

  lemma LowerBoundaries(size: nat, w: nat)
    requires 4 <= w && Round(size, w) == Pow(2, 127)
    ensures Offset(size, 0, w) <= Offset(size, 30, w) <= Offset(size, 50, w) <= Offset(size, 60, w) <= Offset(size, 85, w)
    ensures Offset(size, 85, w) < Pow(2, 127)
  {
    hide Round;
    OffsetMonotone(size, 0, 30, w);
    OffsetMonotone(size, 30, 50, w);
    OffsetMonotone(size, 50, 60, w);
    OffsetMonotone(size, 60, 85, w);
    ScaleIsPower();
    PowAdd(2, 127, 50);
    PowAdd(2, 4, 50);
    assert Pow(2, 4) == 16;
    PowGrows(2, 4, w);
    PowPositive(2, 127);
    var top := 15 * Pow(2, 177);
    RoundExact(top, w, 15, 177);
    MulMono(Percent(85), 15 * Pow(2, 50), Pow(2, 127));
    MulAssoc(15, Pow(2, 50), Pow(2, 127));
    RoundMonotone(Pow(2, 127) * Percent(85), top, w);
    MulStrict2(15 * Pow(2, 50), SCALE, Pow(2, 127));
    DivBelow(Round(Pow(2, 127) * Percent(85), w), SCALE, Pow(2, 127));
  }
}
