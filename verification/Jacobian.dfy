/** Jacobian doubling and mixed addition, their meaning as the affine group law, and what happens
    when result and operand are the same object. */
module Jacobian {
  import opened Arith
  import opened NumberTheory
  import opened Limbs
  import opened FieldMul
  import opened FieldPow
  import opened Curve

  /** The numbers held by a point object: the affine point is (X / Z^2, Y / Z^3), or infinity for Z = 0. */
  datatype Jac = Jac(X: int, Y: int, Z: int) {
    ghost predicate Valid() {
      Reduced(X) && Reduced(Y) && Reduced(Z)
    }
  }

  /** The affine point of a triple, computed as ec_to_affine does. */
  ghost function ToPoint(j: Jac): Point {
    if j.Z == 0 then Infinity
    else
      var i := Inv(j.Z);
      var i2 := FMul(i, i);
      Affine(FMul(j.X, i2), FMul(j.Y, FMul(i2, i)))
  }

  ghost function Dbl(a: int): int {
    FAdd(a, a)
  }

  ghost function JacDouble(j: Jac): Jac {
    if j.Z == 0 then Jac(1, 1, 0) else Jac(DoubleX(j), DoubleY(j), Dbl(FMul(j.Y, j.Z)))
  }

  /** Doubling with result and operand the same object: Z is computed from the new Y. */
  ghost function JacDoubleInPlace(j: Jac): Jac {
    if j.Z == 0 then Jac(1, 1, 0) else Jac(DoubleX(j), DoubleY(j), Dbl(FMul(DoubleY(j), j.Z)))
  }

  ghost function DoubleS(j: Jac): int {
    Dbl(Dbl(FMul(j.X, FMul(j.Y, j.Y))))
  }

  ghost function DoubleM(j: Jac): int {
    var x2 := FMul(j.X, j.X);
    FAdd(FAdd(x2, x2), x2)
  }

  ghost function DoubleX(j: Jac): int {
    FSub(FSub(FMul(DoubleM(j), DoubleM(j)), DoubleS(j)), DoubleS(j))
  }

  ghost function DoubleY(j: Jac): int {
    var y2 := FMul(j.Y, j.Y);
    FSub(FMul(DoubleM(j), FSub(DoubleS(j), DoubleX(j))), Dbl(Dbl(Dbl(FMul(y2, y2)))))
  }

  // The intermediate values of ec_add, for a finite first operand.

  ghost function AddH(j: Jac, qx: int): int {
    FSub(FMul(qx, FMul(j.Z, j.Z)), j.X)
  }

  ghost function AddR(j: Jac, qy: int): int {
    Dbl(FSub(FMul(FMul(qy, j.Z), FMul(j.Z, j.Z)), j.Y))
  }

  ghost function AddI(j: Jac, qx: int): int {
    Dbl(Dbl(FMul(AddH(j, qx), AddH(j, qx))))
  }

  ghost function AddJ(j: Jac, qx: int): int {
    FMul(AddH(j, qx), AddI(j, qx))
  }

  ghost function AddV(j: Jac, qx: int): int {
    FMul(j.X, AddI(j, qx))
  }

  ghost function AddX(j: Jac, qx: int, qy: int): int {
    var r := AddR(j, qy);
    FSub(FSub(FSub(FMul(r, r), AddJ(j, qx)), AddV(j, qx)), AddV(j, qx))
  }

  /** r * (V - X3), the value that R.Y holds before the last correction. */
  ghost function AddT(j: Jac, qx: int, qy: int): int {
    FMul(AddR(j, qy), FSub(AddV(j, qx), AddX(j, qx, qy)))
  }

  ghost function AddY(j: Jac, qx: int, qy: int): int {
    FSub(AddT(j, qx, qy), Dbl(FMul(j.Y, AddJ(j, qx))))
  }

  ghost function AddZ(j: Jac, qx: int): int {
    Dbl(FMul(j.Z, AddH(j, qx)))
  }

  ghost function JacAdd(j: Jac, qx: int, qy: int): Jac {
    if j.Z == 0 then Jac(qx, qy, 1)
    else if AddH(j, qx) == 0 then (if AddR(j, qy) == 0 then JacDouble(j) else Jac(1, 1, 0))
    else Jac(AddX(j, qx, qy), AddY(j, qx, qy), AddZ(j, qx))
  }

  /** Mixed addition with result and operand the same object: P.Y is read after R.Y was written. */
  ghost function JacAddInPlace(j: Jac, qx: int, qy: int): Jac {
    if j.Z == 0 then Jac(qx, qy, 1)
    else if AddH(j, qx) == 0 then (if AddR(j, qy) == 0 then JacDoubleInPlace(j) else Jac(1, 1, 0))
    else
      var t := AddT(j, qx, qy);
      Jac(AddX(j, qx, qy), FSub(t, Dbl(FMul(t, AddJ(j, qx)))), AddZ(j, qx))
  }

  // ---- The point objects and the operations on them ----

  class ECPoint {
    var X: U256
    var Y: U256
    var Z: U256

    ghost function Coords(): Jac
      reads this
    {
      Jac(Val(X), Val(Y), Val(Z))
    }

    constructor ()
      ensures Coords() == Jac(1, 1, 0)
    {
      X, Y, Z := [1, 0, 0, 0], [1, 0, 0, 0], [0, 0, 0, 0];
      ValLimbs([1, 0, 0, 0]);
      ValLimbs([0, 0, 0, 0]);
    }

    method SetInfinity()
      modifies this
      ensures Coords() == Jac(1, 1, 0)
    {
      X, Y, Z := [1, 0, 0, 0], [1, 0, 0, 0], [0, 0, 0, 0];
      ValLimbs(X);
      ValLimbs(Z);
    }

    method CopyFrom(p: ECPoint)
      modifies this
      ensures Coords() == old(p.Coords())
    {
      X, Y, Z := p.X, p.Y, p.Z;
    }
  }

  method IsZero(a: U256) returns (z: bool)
    ensures z <==> Val(a) == 0
  {
    ValLimbs(a);
    z := a[0] == 0 && a[1] == 0 && a[2] == 0 && a[3] == 0;
  }

  /** R = 2 * P, for any coordinates, reduced or not. With r == p the result differs, as JacDoubleInPlace says. */
  method EcDouble(r: ECPoint, p: ECPoint)
    modifies r
    ensures r.Coords().Valid()
    ensures r.Coords() == if r != p then JacDouble(old(p.Coords())) else JacDoubleInPlace(old(p.Coords()))
  {
    hide FMul, FAdd, FSub, Val;
    var infinite := IsZero(p.Z);
    if infinite {
      r.SetInfinity();
      return;
    }
    var y2 := ModMul(p.Y, p.Y);
    var s := ModMul(p.X, y2);
    s := ModAdd(s, s);
    s := ModAdd(s, s);
    var m := ModMul(p.X, p.X);
    var t := ModAdd(m, m);
    m := ModAdd(t, m);
    r.X := ModMul(m, m);
    r.X := ModSub(r.X, s);
    r.X := ModSub(r.X, s);
    t := ModSub(s, r.X);
    t := ModMul(m, t);
    y2 := ModMul(y2, y2);
    y2 := ModAdd(y2, y2);
    y2 := ModAdd(y2, y2);
    y2 := ModAdd(y2, y2);
    r.Y := ModSub(t, y2);
    r.Z := ModMul(p.Y, p.Z);
    r.Z := ModAdd(r.Z, r.Z);
  }

  /** The two differences that ec_add starts with do not fall below -P; so for any reduced first operand. */
  ghost predicate Near(j: Jac, qx: int, qy: int) {
    && j.X <= FMul(qx, FMul(j.Z, j.Z)) + P
    && j.Y <= FMul(FMul(qy, j.Z), FMul(j.Z, j.Z)) + P
  }

  /** R = P + Q for affine Q. With r == p the result differs, as JacAddInPlace says. */
  method EcAdd(r: ECPoint, p: ECPoint, qx: U256, qy: U256)
    modifies r
    ensures Reduced(Val(qx)) && Reduced(Val(qy)) ==> r.Coords().Valid()
    ensures old(Near(p.Coords(), Val(qx), Val(qy))) ==>
      r.Coords() == if r != p then JacAdd(old(p.Coords()), Val(qx), Val(qy))
                    else JacAddInPlace(old(p.Coords()), Val(qx), Val(qy))
  {
    hide FMul, FAdd, FSub, Val;
    var infinite := IsZero(p.Z);
    if infinite {
      r.X, r.Y, r.Z := qx, qy, [1, 0, 0, 0];
      ValLimbs(r.Z);
      assert Val(r.Z) == 1;
      return;
    }
    var z1z1 := ModMul(p.Z, p.Z);
    var u2 := ModMul(qx, z1z1);
    var s2 := ModMul(qy, p.Z);
    s2 := ModMul(s2, z1z1);
    var h := ModSub(u2, p.X);
    var rr := ModSub(s2, p.Y);
    rr := ModAdd(rr, rr);
    var hZero := IsZero(h);
    if hZero {
      var rZero := IsZero(rr);
      if rZero {
        EcDouble(r, p);
        return;
      }
      r.SetInfinity();
      return;
    }
    AddChord(r, p, h, rr, Val(qx), Val(qy));
  }

  /** The general case of ec_add, from H and r on; the operand's Y is read after the result's was written. */
  method AddChord(r: ECPoint, p: ECPoint, h: U256, rr: U256, ghost qx: int, ghost qy: int)
    modifies r
    ensures r.Coords().Valid()
    ensures var j, t := old(p.Coords()), AddT(old(p.Coords()), qx, qy);
      Val(h) == AddH(j, qx) && Val(rr) == AddR(j, qy) ==>
      r.Coords() == Jac(AddX(j, qx, qy), FSub(t, Dbl(FMul(if r != p then j.Y else t, AddJ(j, qx)))), AddZ(j, qx))
  {
    hide FMul, FAdd, FSub, Val, AddH, AddR;
    var hh := ModMul(h, h);
    var i := ModAdd(hh, hh);
    i := ModAdd(i, i);
    var j := ModMul(h, i);
    var v := ModMul(p.X, i);
    r.X := ModMul(rr, rr);
    r.X := ModSub(r.X, j);
    r.X := ModSub(r.X, v);
    r.X := ModSub(r.X, v);
    v := ModSub(v, r.X);
    r.Y := ModMul(rr, v);
    j := ModMul(p.Y, j);
    j := ModAdd(j, j);
    r.Y := ModSub(r.Y, j);
    r.Z := ModMul(p.Z, h);
    r.Z := ModAdd(r.Z, r.Z);
  }

  method EcToAffine(p: ECPoint) returns (x: U256, y: U256)
    ensures ToPoint(p.Coords()) == if Val(p.Z) == 0 then Infinity else Affine(Val(x), Val(y))
    ensures Val(p.Z) == 0 ==> Val(x) == 0 && Val(y) == 0
    ensures Reduced(Val(x)) && Reduced(Val(y))
  {
    var infinite := IsZero(p.Z);
    if infinite {
      ValLimbs([0, 0, 0, 0]);
      return [0, 0, 0, 0], [0, 0, 0, 0];
    }
    var zInv := ModInv(p.Z);
    var zInv2 := ModMul(zInv, zInv);
    var zInv3 := ModMul(zInv2, zInv);
    x := ModMul(p.X, zInv2);
    y := ModMul(p.Y, zInv3);
  }
}
