/** kernel/ecc.h, the point layer: Jacobian points with Montgomery coordinates,
    doubling, addition, affine conversion and point validation. */
module EccPoint {
  import opened ModArith
  import opened Fermat
  import opened Limbs
  import opened EccField
  import opened Curve
  import Jac = Jacobian

  /** The part of ecc_curve_t that the point formulas read: the prime field, 1 in
      Montgomery form, and the coefficient b. */
  datatype CurveCtx = CurveCtx(f: Field, one: seq<Limb>, b: seq<Limb>) {
    ghost function P(): nat { f.M() }
    ghost function B(): nat { Val(b) }

    ghost predicate Ready() {
      && f.Prepared() && GoodPrime(f.M())
      && |one| == |f.m| && Val(one) == f.R() % f.M()
      && |b| == |f.m| && Val(b) < f.M()
    }
  }

  /** A coordinate: n limbs below the modulus. */
  ghost predicate IsCoord(f: Field, s: seq<Limb>) {
    |s| == |f.m| && Val(s) < f.M()
  }

  ghost function E(f: Field, s: seq<Limb>): (e: nat)
    requires f.Ready()
    ensures e < f.M()
  {
    Elem(f, Val(s))
  }

  /** ecc_mm on coordinates. */
  method FMul(f: Field, a: seq<Limb>, b: seq<Limb>) returns (r: seq<Limb>)
    requires f.Ready() && IsCoord(f, a) && IsCoord(f, b)
    ensures IsCoord(f, r) && E(f, r) == (E(f, a) * E(f, b)) % f.M()
  {
    var x, y := new Limb[|a|], new Limb[|b|];
    Copy(x, a);
    Copy(y, b);
    MulElem(f, x, x, y);
    r := x[..];
  }

  /** ecc_ma on coordinates. */
  method FAdd(f: Field, a: seq<Limb>, b: seq<Limb>) returns (r: seq<Limb>)
    requires f.Ready() && IsCoord(f, a) && IsCoord(f, b)
    ensures IsCoord(f, r) && E(f, r) == (E(f, a) + E(f, b)) % f.M()
  {
    var x, y := new Limb[|a|], new Limb[|b|];
    Copy(x, a);
    Copy(y, b);
    ModAdd(f, x, x, y);
    r := x[..];
    ElemAdd(f, Val(r), Val(a), Val(b));
  }

  /** ecc_ms on coordinates. */
  method FSub(f: Field, a: seq<Limb>, b: seq<Limb>) returns (r: seq<Limb>)
    requires f.Ready() && IsCoord(f, a) && IsCoord(f, b)
    ensures IsCoord(f, r) && E(f, r) == (E(f, a) - E(f, b)) % f.M()
  {
    var x, y := new Limb[|a|], new Limb[|b|];
    Copy(x, a);
    Copy(y, b);
    ModSub(f, x, x, y);
    r := x[..];
    ElemSub(f, Val(r), Val(a), Val(b));
  }

  /** Whether the element is zero, read off the limbs. */
  method FIsZero(f: Field, a: seq<Limb>) returns (z: bool)
    requires f.Ready() && IsCoord(f, a)
    ensures z <==> E(f, a) == 0
    ensures z <==> E(f, a) % f.M() == 0
  {
    z := IsZero(a);
    ElemZero(f, Val(a));
    ModSmall(E(f, a), f.M());
  }

  /** ecc_point_t. */
  class Point {
    var x: seq<Limb>
    var y: seq<Limb>
    var z: seq<Limb>

    constructor (x: seq<Limb>, y: seq<Limb>, z: seq<Limb>)
      ensures this.x == x && this.y == y && this.z == z
    {
      this.x, this.y, this.z := x, y, z;
    }

    ghost predicate Valid(f: Field)
      reads this
    {
      IsCoord(f, x) && IsCoord(f, y) && IsCoord(f, z)
    }

    /** The affine point this stands for. */
    ghost function Image(f: Field): Affine
      reads this
      requires f.Ready()
    {
      Jac.ToAffine(E(f, x), E(f, y), E(f, z), f.M())
    }
  }

  /** kernel/ecc.h ecc_pt_set_inf. */
  method SetInfinity(c: CurveCtx, p: Point)
    requires c.Ready()
    modifies p
    ensures p.Valid(c.f) && p.Image(c.f) == Infinity
  {
    var zeros: seq<Limb> := seq(|c.f.m|, i => 0);
    ValZeros(zeros);
    ElemZero(c.f, 0);
    ModSmall(0, c.f.M());
    ResidueBound(c.f.R(), c.f.M());
    p.x := zeros;
    p.y := c.one;
    p.z := zeros;
  }

  /** alpha = 3 (X - delta)(X + delta). */
  method DoubleAlpha(f: Field, x: seq<Limb>, delta: seq<Limb>) returns (alpha: seq<Limb>)
    requires f.Ready() && IsCoord(f, x) && IsCoord(f, delta)
    ensures IsCoord(f, alpha)
    ensures Rep(E(f, alpha), 3 * ((E(f, x) - E(f, delta)) * (E(f, x) + E(f, delta))), f.M())
  {
    hide Val, Elem, Rep;
    var t1 := FSub(f, x, delta);
    var t2 := FAdd(f, x, delta);
    var alpha0 := FMul(f, t1, t2);
    var alpha2 := FAdd(f, alpha0, alpha0);
    alpha := FAdd(f, alpha2, alpha0);
    Jac.AlphaSteps(f.M(), E(f, x), E(f, delta), E(f, t1), E(f, t2), E(f, alpha0), E(f, alpha2), E(f, alpha));
  }

  /** 4a, by two doublings. */
  method FourTimes(f: Field, a: seq<Limb>) returns (r: seq<Limb>)
    requires f.Ready() && IsCoord(f, a)
    ensures IsCoord(f, r) && Rep(E(f, r), 4 * E(f, a), f.M())
  {
    hide Val, Elem, Rep;
    var t := FAdd(f, a, a);
    r := FAdd(f, t, t);
    RepRefl(E(f, a), f.M());
    Jac.FourTimesSteps(f.M(), E(f, a), E(f, a), E(f, t), E(f, r));
  }

  /** X3 = alpha^2 - 8 beta. */
  method DoubleX(f: Field, alpha: seq<Limb>, beta4: seq<Limb>) returns (x3: seq<Limb>)
    requires f.Ready() && IsCoord(f, alpha) && IsCoord(f, beta4)
    ensures IsCoord(f, x3)
    ensures Rep(E(f, x3), E(f, alpha) * E(f, alpha) - 2 * E(f, beta4), f.M())
  {
    hide Val, Elem, Rep;
    var sq := FMul(f, alpha, alpha);
    var t := FAdd(f, beta4, beta4);
    x3 := FSub(f, sq, t);
    Jac.DoubleXSteps(f.M(), E(f, alpha), E(f, beta4), E(f, sq), E(f, t), E(f, x3));
  }

  /** (Y + Z)^2 - g - d. */
  method CrossTerm(f: Field, y: seq<Limb>, z: seq<Limb>, g: seq<Limb>, d: seq<Limb>) returns (r: seq<Limb>)
    requires f.Ready() && IsCoord(f, y) && IsCoord(f, z) && IsCoord(f, g) && IsCoord(f, d)
    ensures IsCoord(f, r)
    ensures Rep(E(f, r), (E(f, y) + E(f, z)) * (E(f, y) + E(f, z)) - E(f, g) - E(f, d), f.M())
  {
    hide Val, Elem, Rep;
    var t := FAdd(f, y, z);
    var sq := FMul(f, t, t);
    var u := FSub(f, sq, g);
    r := FSub(f, u, d);
    Jac.CrossTermSteps(f.M(), E(f, y), E(f, z), E(f, g), E(f, d), E(f, t), E(f, sq), E(f, u), E(f, r));
  }

  /** Y3 = alpha (4 beta - X3) - 8 gamma^2. */
  method DoubleY(f: Field, alpha: seq<Limb>, beta4: seq<Limb>, x3: seq<Limb>, gamma: seq<Limb>) returns (y3: seq<Limb>)
    requires f.Ready() && IsCoord(f, alpha) && IsCoord(f, beta4) && IsCoord(f, x3) && IsCoord(f, gamma)
    ensures IsCoord(f, y3)
    ensures Rep(E(f, y3), E(f, alpha) * (E(f, beta4) - E(f, x3)) - 8 * (E(f, gamma) * E(f, gamma)), f.M())
  {
    hide Val, Elem, Rep;
    var t := FSub(f, beta4, x3);
    var m := FMul(f, alpha, t);
    var g := FMul(f, gamma, gamma);
    var g2 := FAdd(f, g, g);
    var g4 := FAdd(f, g2, g2);
    var g8 := FAdd(f, g4, g4);
    y3 := FSub(f, m, g8);
    Jac.DoubleYSteps(f.M(), E(f, alpha), E(f, beta4), E(f, x3), E(f, gamma),
      E(f, t), E(f, m), E(f, g), E(f, g2), E(f, g4), E(f, g8), E(f, y3));
  }

  /** The doubling formula proper, for a finite point with nonzero ordinate. */
  method DoubleFormula(f: Field, x: seq<Limb>, y: seq<Limb>, z: seq<Limb>)
    returns (x3: seq<Limb>, y3: seq<Limb>, z3: seq<Limb>)
    requires f.Ready() && GoodPrime(f.M())
    requires IsCoord(f, x) && IsCoord(f, y) && IsCoord(f, z)
    requires E(f, z) % f.M() != 0 && E(f, y) % f.M() != 0
    ensures IsCoord(f, x3) && IsCoord(f, y3) && IsCoord(f, z3)
    ensures Jac.ToAffine(E(f, x3), E(f, y3), E(f, z3), f.M())
         == Double(Jac.ToAffine(E(f, x), E(f, y), E(f, z), f.M()), f.M())
  {
    hide *;
    PrimePositive(f.M());
    var delta := FMul(f, z, z);
    var gamma := FMul(f, y, y);
    var beta := FMul(f, x, gamma);
    var alpha := DoubleAlpha(f, x, delta);
    var beta4 := FourTimes(f, beta);
    x3 := DoubleX(f, alpha, beta4);
    z3 := CrossTerm(f, y, z, gamma, delta);
    y3 := DoubleY(f, alpha, beta4, x3, gamma);
    Jac.DoublingCorrect(f.M(), E(f, x), E(f, y), E(f, z), E(f, delta), E(f, gamma), E(f, beta), E(f, alpha),
      E(f, beta4), E(f, x3), E(f, y3), E(f, z3));
  }

  lemma PrimePositive(p: int)
    requires GoodPrime(p)
    ensures p > 3 && Prime(p)
  {
  }

  lemma RepRefl(a: int, p: int)
    requires p > 0
    ensures Rep(a, a, p)
  {
  }

  /** kernel/ecc.h ecc_pt_dbl: out = 2a; out may be a. */
  method PtDouble(c: CurveCtx, out: Point, a: Point)
    requires c.Ready() && a.Valid(c.f)
    modifies out
    ensures out.Valid(c.f)
    ensures out.Image(c.f) == Double(old(a.Image(c.f)), c.P())
  {
    var zInf := FIsZero(c.f, a.z);
    var yZero := FIsZero(c.f, a.y);
    if zInf || yZero {
      if !zInf {
        Jac.OrdinateNonzero(E(c.f, a.x), E(c.f, a.y), E(c.f, a.z), c.P());
        Jac.ScaledByZ(E(c.f, a.x), E(c.f, a.y), E(c.f, a.z), c.P());
        SelfOpposite(a.Image(c.f), c.P());
      }
      SetInfinity(c, out);
      return;
    }
    var x3, y3, z3 := DoubleFormula(c.f, a.x, a.y, a.z);
    out.x := x3;
    out.y := y3;
    out.z := z3;
  }

  /** The coordinates of both inputs at the common scale Z1 Z2. */
  method Common(f: Field, x1: seq<Limb>, y1: seq<Limb>, z1: seq<Limb>, x2: seq<Limb>, y2: seq<Limb>, z2: seq<Limb>)
    returns (z1z1: seq<Limb>, z2z2: seq<Limb>, u1: seq<Limb>, s1: seq<Limb>, h: seq<Limb>, r: seq<Limb>,
             ghost u2: int, ghost s2: int)
    requires f.Ready()
    requires IsCoord(f, x1) && IsCoord(f, y1) && IsCoord(f, z1)
    requires IsCoord(f, x2) && IsCoord(f, y2) && IsCoord(f, z2)
    ensures IsCoord(f, z1z1) && IsCoord(f, z2z2) && IsCoord(f, u1) && IsCoord(f, s1) && IsCoord(f, h) && IsCoord(f, r)
    ensures Jac.CommonScale(f.M(), E(f, x1), E(f, y1), E(f, z1), E(f, x2), E(f, y2), E(f, z2),
      E(f, z1z1), E(f, z2z2), E(f, u1), u2, E(f, s1), s2, E(f, h), E(f, r))
  {
    z1z1 := FMul(f, z1, z1);
    z2z2 := FMul(f, z2, z2);
    u1 := FMul(f, x1, z2z2);
    var u := FMul(f, x2, z1z1);
    var t := FMul(f, z2, z2z2);
    s1 := FMul(f, y1, t);
    t := FMul(f, z1, z1z1);
    var s := FMul(f, y2, t);
    h := FSub(f, u, u1);
    r := FSub(f, s, s1);
    u2, s2 := E(f, u), E(f, s);
  }

  /** X3 = r^2 - j - 2v. */
  method AddX(f: Field, r: seq<Limb>, j: seq<Limb>, v: seq<Limb>) returns (x3: seq<Limb>)
    requires f.Ready() && IsCoord(f, r) && IsCoord(f, j) && IsCoord(f, v)
    ensures IsCoord(f, x3) && Rep(E(f, x3), E(f, r) * E(f, r) - E(f, j) - 2 * E(f, v), f.M())
  {
    hide Val, Elem, Rep;
    var sq := FMul(f, r, r);
    var u := FSub(f, sq, j);
    var t := FAdd(f, v, v);
    x3 := FSub(f, u, t);
    Jac.AddXSteps(f.M(), E(f, r), E(f, j), E(f, v), E(f, sq), E(f, u), E(f, t), E(f, x3));
  }

  /** Y3 = r (v - X3) - 2 s1 j. */
  method AddY(f: Field, r: seq<Limb>, v: seq<Limb>, x3: seq<Limb>, s1: seq<Limb>, j: seq<Limb>) returns (y3: seq<Limb>)
    requires f.Ready() && IsCoord(f, r) && IsCoord(f, v) && IsCoord(f, x3) && IsCoord(f, s1) && IsCoord(f, j)
    ensures IsCoord(f, y3)
    ensures Rep(E(f, y3), E(f, r) * (E(f, v) - E(f, x3)) - 2 * (E(f, s1) * E(f, j)), f.M())
  {
    hide Val, Elem, Rep;
    var t := FSub(f, v, x3);
    var m := FMul(f, r, t);
    var g := FMul(f, s1, j);
    var g2 := FAdd(f, g, g);
    y3 := FSub(f, m, g2);
    Jac.AddYSteps(f.M(), E(f, r), E(f, v), E(f, x3), E(f, s1), E(f, j), E(f, t), E(f, m), E(f, g), E(f, g2), E(f, y3));
  }

  /** The addition formula proper, for different abscissas. */
  method AddFormula(f: Field, x1: seq<Limb>, y1: seq<Limb>, z1: seq<Limb>, x2: seq<Limb>, y2: seq<Limb>, z2: seq<Limb>,
                    z1z1: seq<Limb>, z2z2: seq<Limb>, u1: seq<Limb>, s1: seq<Limb>, h: seq<Limb>, r0: seq<Limb>,
                    ghost u2: int, ghost s2: int)
    returns (x3: seq<Limb>, y3: seq<Limb>, z3: seq<Limb>)
    requires f.Ready() && GoodPrime(f.M())
    requires IsCoord(f, x1) && IsCoord(f, y1) && IsCoord(f, z1)
    requires IsCoord(f, x2) && IsCoord(f, y2) && IsCoord(f, z2)
    requires IsCoord(f, z1z1) && IsCoord(f, z2z2) && IsCoord(f, u1) && IsCoord(f, s1) && IsCoord(f, h) && IsCoord(f, r0)
    requires Jac.CommonScale(f.M(), E(f, x1), E(f, y1), E(f, z1), E(f, x2), E(f, y2), E(f, z2),
      E(f, z1z1), E(f, z2z2), E(f, u1), u2, E(f, s1), s2, E(f, h), E(f, r0))
    requires E(f, z1) % f.M() != 0 && E(f, z2) % f.M() != 0 && E(f, h) != 0
    ensures IsCoord(f, x3) && IsCoord(f, y3) && IsCoord(f, z3)
    ensures Jac.ToAffine(E(f, x3), E(f, y3), E(f, z3), f.M())
         == Add(Jac.ToAffine(E(f, x1), E(f, y1), E(f, z1), f.M()), Jac.ToAffine(E(f, x2), E(f, y2), E(f, z2), f.M()), f.M())
  {
    hide *;
    ghost var p := f.M();
    PrimePositive(p);
    var r := FAdd(f, r0, r0);
    RepRefl(E(f, r0), p);
    Jac.TwiceSteps(p, E(f, r0), E(f, r0), E(f, r));
    var t := FAdd(f, h, h);
    var i2 := FMul(f, t, t);
    Jac.SquareOfTwiceSteps(p, E(f, h), E(f, t), E(f, i2));
    var j := FMul(f, h, i2);
    var v := FMul(f, u1, i2);
    x3 := AddX(f, r, j, v);
    y3 := AddY(f, r, v, x3, s1, j);
    var cross := CrossTerm(f, z1, z2, z1z1, z2z2);
    z3 := FMul(f, cross, h);
    ghost var Z1, Z2 := E(f, z1), E(f, z2);
    Jac.AddZSteps(p, E(f, cross), (Z1 + Z2) * (Z1 + Z2) - E(f, z1z1) - E(f, z2z2), E(f, h), E(f, z3));
    Jac.AdditionCorrect(p, E(f, x1), E(f, y1), Z1, E(f, x2), E(f, y2), Z2,
      E(f, z1z1), E(f, z2z2), E(f, u1), u2, E(f, s1), s2, E(f, h), E(f, r0),
      E(f, r), E(f, i2), E(f, j), E(f, v), E(f, x3), E(f, y3), E(f, z3));
  }

  /** What Add does on curve points, by the comparisons of ecc_pt_add. */
  lemma AddCases(a: Affine, d: Affine, p: int, b: int)
    requires GoodPrime(p) && OnCurve(p, b, a) && OnCurve(p, b, d) && a.At? && d.At?
    ensures a.x == d.x && a.y == d.y ==> Add(a, d, p) == Double(a, p)
    ensures a.x == d.x && a.y != d.y ==> Add(a, d, p) == Infinity
  {
    if a.x == d.x { SameAbscissa(a, d, p, b); }
  }

  /** kernel/ecc.h ecc_pt_add: out = a + b for points of the curve; out may be a or b. */
  method PtAdd(c: CurveCtx, out: Point, a: Point, b: Point)
    requires c.Ready() && a.Valid(c.f) && b.Valid(c.f)
    requires OnCurve(c.P(), c.B(), a.Image(c.f)) && OnCurve(c.P(), c.B(), b.Image(c.f))
    modifies out
    ensures out.Valid(c.f)
    ensures out.Image(c.f) == Add(old(a.Image(c.f)), old(b.Image(c.f)), c.P())
    ensures OnCurve(c.P(), c.B(), out.Image(c.f))
  {
    AddOnCurve(a.Image(c.f), b.Image(c.f), c.P(), c.B());
    var inf := FIsZero(c.f, a.z);
    if inf {
      out.x, out.y, out.z := b.x, b.y, b.z;
      return;
    }
    inf := FIsZero(c.f, b.z);
    if inf {
      out.x, out.y, out.z := a.x, a.y, a.z;
      return;
    }
    var z1z1, z2z2, u1, s1, h, r, u2, s2 := Common(c.f, a.x, a.y, a.z, b.x, b.y, b.z);
    Jac.ComparisonCorrect(c.P(), E(c.f, a.x), E(c.f, a.y), E(c.f, a.z), E(c.f, b.x), E(c.f, b.y), E(c.f, b.z),
      E(c.f, z1z1), E(c.f, z2z2), E(c.f, u1), u2, E(c.f, s1), s2, E(c.f, h), E(c.f, r));
    var hZero := FIsZero(c.f, h);
    if hZero {
      AddCases(a.Image(c.f), b.Image(c.f), c.P(), c.B());
      var rZero := FIsZero(c.f, r);
      if rZero {
        PtDouble(c, out, a);
      } else {
        SetInfinity(c, out);
      }
      return;
    }
    var x3, y3, z3 := AddFormula(c.f, a.x, a.y, a.z, b.x, b.y, b.z, z1z1, z2z2, u1, s1, h, r, u2, s2);
    out.x, out.y, out.z := x3, y3, z3;
  }
}
