/** The jump table, a kangaroo, and one step of its walk. */
module Kangaroo {
  import opened Arith
  import opened Digits
  import opened Bits
  import opened NumberTheory
  import opened Limbs
  import opened FieldPow
  import opened Curve
  import opened Jacobian
  import opened JacobianLaw
  import opened ScalarMul

  const NUM_JUMPS: nat := 32
  const TWO128: int := 0x1_0000000000000000_0000000000000000
  const TWO64: int := 0x1_0000000000000000

  /** The exponent of jump i for a range whose size has rangeBits bits. */
  function Shift(rangeBits: nat, i: nat): nat {
    var sqrtBits := rangeBits / 2;
    var shift := sqrtBits / 4 + (i * sqrtBits * 3) / (4 * NUM_JUMPS);
    var atLeastOne := if shift < 1 then 1 else shift;
    if atLeastOne > 250 then 250 else atLeastOne
  }

  /** Jump i has the exponent a + b, where a is a quarter and b the share 3i/128 of half the range's bits, both cut off,
      or 1 if that is 0. The upper limit in the code is never met. */
  lemma ShiftIs(rangeBits: nat, i: nat, a: nat, b: nat)
    requires rangeBits <= 256 && i < NUM_JUMPS
    requires 4 * a <= rangeBits / 2 < 4 * a + 4 && 128 * b <= 3 * (i * (rangeBits / 2)) < 128 * b + 128
    ensures Shift(rangeBits, i) == if a + b == 0 then 1 else a + b
  {
    MulMono(i, 31, rangeBits / 2);
    Quotients(rangeBits / 2, i * (rangeBits / 2), a, b);
  }

  /** The exponents grow with i, and stay below half the bits of the range once it has four. */
  lemma ShiftGrows(rangeBits: nat, i: nat)
    requires rangeBits <= 256 && 0 < i < NUM_JUMPS
    ensures Shift(rangeBits, i - 1) <= Shift(rangeBits, i)
    ensures 4 <= rangeBits ==> 2 * Shift(rangeBits, i) < rangeBits
  {
    var s := rangeBits / 2;
    MulMono(i, 31, s);
    MulMono(i - 1, i, s);
    MulMono(0, i - 1, s);
    Shares(s, (i - 1) * s, i * s);
  }

  lemma Shares(s: nat, l: int, m: int)
    requires 0 <= l <= m <= 31 * s
    ensures l * 3 / 128 <= m * 3 / 128
    ensures 2 <= s ==> s / 4 + m * 3 / 128 < s
  {}

  lemma Quotients(s: nat, m: nat, a: nat, b: nat)
    requires 4 * a <= s < 4 * a + 4 && 128 * b <= 3 * m < 128 * b + 128
    ensures s / 4 == a && m * 3 / 128 == b
  {}

  /** Every jump is a power of two strictly between 1 and 2^128. */
  lemma ShiftBounds(rangeBits: nat, i: nat)
    requires rangeBits <= 256 && i < NUM_JUMPS
    ensures 1 <= Shift(rangeBits, i) < 128
    ensures 1 < Pow(2, Shift(rangeBits, i)) < TWO128
  {
    var s := rangeBits / 2;
    assert i * s <= 31 * 128 by { MulMono(i, 31, s); }
    var l := Shift(rangeBits, i);
    assert Pow(2, 1) == 2 * Pow(2, 0);
    PowGrows(2, 1, l);
    PowGrows(2, l, 127);
    Pow2Limb();
    PowAdd(2, 64, 63);
    assert Pow(2, 64) == 2 * Pow(2, 63);
  }

  /** The x coordinate that ec_to_affine reports; 0 for infinity. */
  ghost function XOf(p: Point): int {
    if p == Infinity then 0 else p.x
  }

  ghost function JumpIndex(p: Point): (i: int)
    ensures 0 <= i < NUM_JUMPS
  {
    XOf(p) % NUM_JUMPS
  }

  /** A distance between 1 and 2^128, and a point that is that multiple of the generator. */
  ghost predicate GoodEntry(distance: U256, point: ECPoint)
    reads point
  {
    && 1 < Val(distance) < TWO128
    && point.Coords().Valid()
    && (Prime(P) ==> ToPoint(point.Coords()) == Mul(Val(distance)))
  }

  ghost function Total(distances: seq<U256>): int {
    if distances == [] then 0
    else Total(distances[..|distances| - 1]) + Val(distances[|distances| - 1])
  }

  lemma TotalSnoc(distances: seq<U256>, d: U256)
    ensures Total(distances + [d]) == Total(distances) + Val(d)
  {
    assert (distances + [d])[..|distances|] == distances;
  }

  const TWO59: int := 0x800_0000_0000_0000

  /** A shift by five bits over the limbs is the division by 32. */
  lemma ShiftedByFive(a: U256, m: U256)
    requires m[0] == a[0] / 32 + (a[1] % 32) * TWO59 && m[1] == a[1] / 32 + (a[2] % 32) * TWO59
    requires m[2] == a[2] / 32 + (a[3] % 32) * TWO59 && m[3] == a[3] / 32
    ensures Val(m) == Val(a) / 32
  {
    ValLimbs(a);
    ValLimbs(m);
  }

  lemma WrappedSum(a: U256, b: U256, r: U256, carry: int)
    requires 0 <= carry <= 1 && Val(r) + carry * TWO256 == Val(a) + Val(b)
    ensures Val(r) == (Val(a) + Val(b)) % TWO256
  {
    ValBound(r);
  }

  class JumpTable {
    var distances: seq<U256>
    var points: seq<ECPoint>
    var meanJump: U256

    ghost predicate Valid()
      reads this, points
    {
      && |distances| == |points| == NUM_JUMPS
      && forall i :: 0 <= i < NUM_JUMPS ==> GoodEntry(distances[i], points[i])
    }

    constructor ()
      ensures distances == [] && points == []
    {
      distances, points, meanJump := [], [], [0, 0, 0, 0];
    }

    method Init(rangeSize: U256)
      modifies this
      ensures Valid() && fresh(points)
      ensures Val(rangeSize) >= 0
      ensures forall i :: 0 <= i < NUM_JUMPS ==> Val(distances[i]) == Pow(2, Shift(BitLen(Val(rangeSize)), i))
      ensures Val(meanJump) == Total(distances) / NUM_JUMPS
    {
      hide Prime, Mul, ToPoint, Val, Pow, Total, Shift, BitLen;
      var rangeBits := BitLength(rangeSize);
      var ds: seq<U256>, ps: seq<ECPoint> := [], [];
      var total: U256 := [0, 0, 0, 0];
      NothingTotal();
      var i := 0;
      while i < NUM_JUMPS
        invariant 0 <= i <= NUM_JUMPS && |ds| == |ps| == i
        invariant forall k :: 0 <= k < i ==> fresh(ps[k]) && GoodEntry(ds[k], ps[k])
        invariant forall k :: 0 <= k < i ==> Val(ds[k]) == Pow(2, Shift(rangeBits, k))
        invariant Val(total) == Total(ds) && 0 <= Val(total) <= i * TWO128
      {
        ShiftBounds(rangeBits, i);
        var distance := JumpDistance(Shift(rangeBits, i));
        var point := new ECPoint();
        EcMul(point, distance);
        TotalSnoc(ds, distance);
        total := Accumulate(total, distance);
        ds, ps := ds + [distance], ps + [point];
        i := i + 1;
      }
      distances, points := ds, ps;
      meanJump := ShiftRightFive(total);
    }

    static method Accumulate(total: U256, distance: U256) returns (sum: U256)
      ensures 0 <= Val(total) + Val(distance) < TWO256 ==> Val(sum) == Val(total) + Val(distance)
    {
      var carry;
      sum, carry := Add256(total, distance);
      WrappedSum(total, distance, sum, carry);
    }

    static method ShiftRightFive(a: U256) returns (m: U256)
      ensures Val(m) == Val(a) / NUM_JUMPS
    {
      m := [
        a[0] / 32 + (a[1] % 32) * TWO59, a[1] / 32 + (a[2] % 32) * TWO59,
        a[2] / 32 + (a[3] % 32) * TWO59, a[3] / 32];
      ShiftedByFive(a, m);
    }

    static method JumpDistance(shift: nat) returns (distance: U256)
      requires shift < 256
      ensures Val(distance) == Pow(2, shift)
    {
      var word, bit := shift / 64, shift % 64;
      Bit64(bit);
      distance := [0, 0, 0, 0];
      distance := distance[word := Pow(2, bit)];
      SingleBit(distance, shift);
    }

    method GetJumpIndex(x: U256) returns (i: nat)
      ensures i == Val(x) % NUM_JUMPS < NUM_JUMPS
    {
      LowBits(x);
      i := x[0] % NUM_JUMPS;
    }
  }

  lemma NothingTotal()
    ensures Val([0, 0, 0, 0]) == Total([]) == 0
  {
    ValLimbs([0, 0, 0, 0]);
  }

  lemma Bit64(bit: nat)
    requires bit < 64
    ensures 0 <= Pow(2, bit) < B
  {
    PowPositive(2, bit);
    Pow2Limb();
    PowGrows(2, bit, 64);
  }

  lemma LowBits(x: U256)
    ensures Val(x) % 32 == x[0] % 32
  {
    ValLimbs(x);
    var rest := x[1] + B * (x[2] + B * x[3]);
    DivModUnique(Val(x), 32, x[0] / 32 + (B / 32) * rest, x[0] % 32);
  }

  class Kangaroo {
    const point: ECPoint
    var distance: U256
    var isTame: bool
    var steps: U64

    /** The affine position and the distance: all that the walk depends on. */
    ghost function State(): Walker
      reads this, point
    {
      Walker(ToPoint(point.Coords()), Val(distance))
    }

    constructor ()
      ensures fresh(point) && point.Coords() == Jac(1, 1, 0)
      ensures Val(distance) == 0 && !isTame && steps == 0
    {
      point := new ECPoint();
      distance, isTame, steps := [0, 0, 0, 0], false, 0;
      new;
      ValLimbs([0, 0, 0, 0]);
    }
  }

  datatype Walker = Walker(point: Point, distance: int)

  /** The walk, as a function of the jump distances: the next jump depends on the position alone. */
  ghost function Step(w: Walker, jumps: seq<int>): Walker
    requires |jumps| == NUM_JUMPS && forall i :: 0 <= i < NUM_JUMPS ==> jumps[i] >= 0
  {
    var d := jumps[JumpIndex(w.point)];
    Walker(Add(w.point, Mul(d)), (w.distance + d) % TWO256)
  }

  ghost function Distances(t: JumpTable): (ds: seq<int>)
    requires t.Valid()
    reads t, t.points
    ensures |ds| == NUM_JUMPS && forall i :: 0 <= i < NUM_JUMPS ==> 1 < ds[i] < TWO128
  {
    assert forall i :: 0 <= i < NUM_JUMPS ==> GoodEntry(t.distances[i], t.points[i]);
    seq(NUM_JUMPS, i requires 0 <= i < |t.distances| reads t => Val(t.distances[i]))
  }

  /** The point that is added for a jump: a multiple at infinity would come as (0, 0). */
  ghost function JumpPoint(d: nat): Point {
    if Mul(d) == Infinity then Affine(0, 0) else Mul(d)
  }

  /** step_kangaroo: the position moves by the jump its x coordinate selects. */
  method StepKangaroo(jumps: JumpTable, k: Kangaroo)
    requires jumps.Valid() && k.point !in jumps.points && k.point.Coords().Valid()
    modifies k, k.point
    ensures k.point.Coords().Valid()
    ensures Prime(P) ==>
      var w, d := old(k.State()), old(Distances(jumps)[JumpIndex(k.State().point)]);
      k.State() == Walker(Add(w.point, JumpPoint(d)), (w.distance + d) % TWO256)
    ensures CurveFacts() ==> k.State() == old(Step(k.State(), Distances(jumps)))
    ensures k.isTame == old(k.isTame) && k.steps == (old(k.steps) + 1) % TWO64
  {
    hide CurveFacts, Mul, ToPoint, Val, JacAdd, Add, FMul, FAdd, FSub, Prime;
    ghost var before := k.point.Coords();
    ghost var atX := JumpIndex(k.State().point);
    var x, y := EcToAffine(k.point);
    var idx := jumps.GetJumpIndex(x);
    AffineX(before, Val(x), Val(y));
    assert idx == atX;
    assert GoodEntry(jumps.distances[idx], jumps.points[idx]);
    ghost var d := Val(jumps.distances[idx]);
    ghost var oldDistance := k.distance;
    var carry;
    k.distance, carry := Add256(k.distance, jumps.distances[idx]);
    WrappedSum(oldDistance, jumps.distances[idx], k.distance, carry);
    var newPoint := new ECPoint();
    var jumpX, jumpY := EcToAffine(jumps.points[idx]);
    EcAdd(newPoint, k.point, jumpX, jumpY);
    k.point.CopyFrom(newPoint);
    k.steps := (k.steps + 1) % TWO64;
    ResultsValid(before, Val(jumpX), Val(jumpY));
    FiniteZ(jumps.points[idx].Coords());
    if Prime(P) { AddCorrect(before, Val(jumpX), Val(jumpY)); }
    if CurveFacts() {
      CurveParts();
      SmallMultipleFinite(d);
    }
  }

  lemma AffineX(j: Jac, x: int, y: int)
    requires ToPoint(j) == if j.Z == 0 then Infinity else Affine(x, y)
    requires j.Z == 0 ==> x == 0
    ensures XOf(ToPoint(j)) == x
  {}

  lemma FiniteZ(j: Jac)
    ensures j.Z == 0 <==> ToPoint(j) == Infinity
  {}
}
