/** kernel/ecc.h, scalar multiplication: the double-and-always-add loop, Shamir's
    trick, and the signature equation they serve (SEC 1 section 4.1.4).
    Associativity of the chord-and-tangent sum is the one group law taken as a
    hypothesis; the others are proved in module Curve. */
module EccScalar {
  import opened ModArith
  import opened BitOps
  import opened Fermat
  import opened Limbs
  import opened EccField
  import opened Curve
  import opened EccPoint
  import Jac = Jacobian

  ghost predicate Associative(p: int, b: int)
    requires p >= 2
  {
    forall a, c, d :: OnCurve(p, b, a) && OnCurve(p, b, c) && OnCurve(p, b, d) ==>
      Add(Add(a, c, p), d, p) == Add(a, Add(c, d, p), p)
  }

  /** k * a, by repeated addition. */
  ghost function Times(k: nat, a: Affine, p: int): Affine
    requires p >= 2
  {
    if k == 0 then Infinity else Add(Times(k - 1, a, p), a, p)
  }

  lemma {:induction false} TimesOnCurve(k: nat, a: Affine, p: int, b: int)
    requires GoodPrime(p) && OnCurve(p, b, a)
    ensures OnCurve(p, b, Times(k, a, p))
  {
    if k > 0 {
      TimesOnCurve(k - 1, a, p, b);
      AddOnCurve(Times(k - 1, a, p), a, p, b);
    }
  }

  lemma {:induction false} TimesAdd(m: nat, n: nat, a: Affine, p: int, b: int)
    requires GoodPrime(p) && OnCurve(p, b, a) && Associative(p, b)
    ensures Times(m + n, a, p) == Add(Times(m, a, p), Times(n, a, p), p)
  {
    hide Add, OnCurve;
    if n == 0 {
      AddInfinity(Times(m, a, p), p);
    } else {
      TimesAdd(m, n - 1, a, p, b);
      TimesOnCurve(m, a, p, b);
      TimesOnCurve(n - 1, a, p, b);
      assert Times(m + n, a, p) == Add(Times(m + n - 1, a, p), a, p);
    }
  }

  lemma AddInfinity(a: Affine, p: int)
    requires p >= 2
    ensures Add(a, Infinity, p) == a && Add(Infinity, a, p) == a
  {
  }

  /** (a + c) + (d + e) = (a + d) + (c + e). */
  lemma Interchange(a: Affine, c: Affine, d: Affine, e: Affine, p: int, b: int)
    requires GoodPrime(p) && Associative(p, b)
    requires OnCurve(p, b, a) && OnCurve(p, b, c) && OnCurve(p, b, d) && OnCurve(p, b, e)
    ensures Add(Add(a, c, p), Add(d, e, p), p) == Add(Add(a, d, p), Add(c, e, p), p)
  {
    hide Add, OnCurve;
    AddOnCurve(d, e, p, b);
    AddOnCurve(c, e, p, b);
    AddOnCurve(c, d, p, b);
    AddCommutes(c, d, p, b);
    calc {
      Add(Add(a, c, p), Add(d, e, p), p);
      Add(a, Add(c, Add(d, e, p), p), p);
      Add(a, Add(Add(c, d, p), e, p), p);
      Add(a, Add(Add(d, c, p), e, p), p);
      Add(a, Add(d, Add(c, e, p), p), p);
      Add(Add(a, d, p), Add(c, e, p), p);
    }
  }

  // ---------- masked selection ----------

  /** (d & ~mask) | (s & mask) for the two masks the code uses. */
  function SelectLimb(d: Limb, s: Limb, mask: Limb): (r: Limb)
    requires mask == 0 || mask == 0xFFFF_FFFF
    ensures r == if mask == 0 then d else s
  {
    PowWordOne();
    AndOnes(d, 32);
    AndOnes(s, 32);
    AndZero(d);
    AndZero(s);
    OrZero(d);
    OrZero(s);
    BitOr(BitAnd(d, 0xFFFF_FFFF - mask), BitAnd(s, mask))
  }

  /** kernel/ecc.h ecc_pt_cmov, one coordinate: dst becomes src under an all-ones mask. */
  method SelectCoord(dst: seq<Limb>, src: seq<Limb>, mask: Limb) returns (r: seq<Limb>)
    requires |dst| == |src| && (mask == 0 || mask == 0xFFFF_FFFF)
    ensures r == if mask == 0 then dst else src
  {
    r := dst;
    for i := 0 to |dst|
      invariant |r| == |dst|
      invariant forall k :: 0 <= k < i ==> r[k] == if mask == 0 then dst[k] else src[k]
      invariant forall k :: i <= k < |dst| ==> r[k] == dst[k]
    {
      r := r[i := SelectLimb(r[i], src[i], mask)];
    }
  }

  /** kernel/ecc.h ecc_pt_cmov. */
  method PtSelect(f: Field, dst: Point, src: Point, mask: Limb)
    requires mask == 0 || mask == 0xFFFF_FFFF
    requires dst != src && dst.Valid(f) && src.Valid(f)
    modifies dst
    ensures mask == 0 ==> dst.x == old(dst.x) && dst.y == old(dst.y) && dst.z == old(dst.z)
    ensures mask == 0xFFFF_FFFF ==> dst.x == src.x && dst.y == src.y && dst.z == src.z
  {
    var x := SelectCoord(dst.x, src.x, mask);
    var y := SelectCoord(dst.y, src.y, mask);
    var z := SelectCoord(dst.z, src.z, mask);
    dst.x, dst.y, dst.z := x, y, z;
  }

  /** 0 - bit, as a 32-bit word. */
  function BitMask(bit: nat): (m: Limb)
    requires bit <= 1
    ensures m == if bit == 1 then 0xFFFF_FFFF else 0
  {
    (0 - bit) % 0x1_0000_0000
  }

  // ---------- ecc_scalar_mul ----------

  lemma TimesStep(k: nat, a: Affine, p: int, b: int)
    requires GoodPrime(p) && OnCurve(p, b, a) && Associative(p, b)
    ensures Double(Times(k, a, p), p) == Times(2 * k, a, p)
    ensures Add(Times(2 * k, a, p), a, p) == Times(2 * k + 1, a, p)
  {
    TimesAdd(k, k, a, p, b);
    assert k + k == 2 * k;
  }

  /** One bit of the ladder: r = 2r, sum = r + p, and r = sum under the mask. */
  method LadderStep(c: CurveCtx, r: Point, sum: Point, p: Point, bit: nat)
    requires c.Ready() && r.Valid(c.f) && p.Valid(c.f) && bit <= 1
    requires r != sum && r != p && sum != p
    requires OnCurve(c.P(), c.B(), p.Image(c.f)) && OnCurve(c.P(), c.B(), r.Image(c.f))
    modifies r, sum
    ensures r.Valid(c.f)
    ensures r.Image(c.f) == if bit == 1
      then Add(Double(old(r.Image(c.f)), c.P()), p.Image(c.f), c.P())
      else Double(old(r.Image(c.f)), c.P())
  {
    hide Add, Jac.ToAffine, Elem, Val, OnCurve;
    AddOnCurve(r.Image(c.f), r.Image(c.f), c.P(), c.B());
    PtDouble(c, r, r);
    PtAdd(c, sum, r, p);
    PtSelect(c.f, r, sum, BitMask(bit));
  }

  lemma TimesZero(a: Affine, p: int)
    requires p >= 2
    ensures Times(0, a, p) == Infinity
  {
  }

  /** kernel/ecc.h ecc_scalar_mul: out = k * p, double-and-always-add with a
      masked select. */
  method ScalarMul(c: CurveCtx, out: Point, k: seq<Limb>, p: Point)
    requires c.Ready() && p.Valid(c.f) && |k| == |c.f.m|
    requires OnCurve(c.P(), c.B(), p.Image(c.f)) && Associative(c.P(), c.B())
    modifies out
    ensures out.Valid(c.f)
    ensures out.Image(c.f) == Times(Val(k), old(p.Image(c.f)), c.P())
  {
    hide Add, Jac.ToAffine, Elem, Val, OnCurve, Times, Pow, BitOf, LimbBit, Associative, GoodPrime, Double;
    ghost var a, m, b := p.Image(c.f), c.P(), c.B();
    var r := new Point(c.one, c.one, c.one);
    var sum := new Point(c.one, c.one, c.one);
    SetInfinity(c, r);
    ValBound(k);
    PowWord(|k|);
    ShiftAll(Val(k), 32 * |k|);
    TimesZero(a, m);
    PowZero(2);
    var i := 32 * |k|;
    while i > 0
      invariant 0 <= i <= 32 * |k| && Pow(2, i) > 0
      invariant r.Valid(c.f) && p.Valid(c.f) && p.Image(c.f) == a
      invariant r.Image(c.f) == Times(Val(k) / Pow(2, i), a, m)
    {
      i := i - 1;
      ghost var q := Val(k) / Pow(2, i + 1);
      ShiftStep(Val(k), i);
      LimbBitIsBit(k, i);
      TimesStep(q, a, m, b);
      TimesOnCurve(q, a, m, b);
      LadderStep(c, r, sum, p, LimbBit(k, i));
    }
    out.x, out.y, out.z := r.x, r.y, r.z;
  }

  // ---------- affine coordinates and validation ----------

  /** ecc_minv on a coordinate. */
  method FInv(c: CurveCtx, a: seq<Limb>) returns (r: seq<Limb>)
    requires c.Ready() && IsCoord(c.f, a)
    ensures IsCoord(c.f, r) && E(c.f, r) == Inv(E(c.f, a), c.P())
  {
    var x := new Limb[|a|];
    Copy(x, a);
    ModInv(c.f, x, x, c.one);
    r := x[..];
    ModSmall(E(c.f, a), c.P());
  }

  /** ecc_from_mont on a coordinate. */
  method FPlain(f: Field, a: seq<Limb>) returns (r: seq<Limb>)
    requires f.Ready() && IsCoord(f, a)
    ensures |r| == |a| && Val(r) == E(f, a)
  {
    var x := new Limb[|a|];
    Copy(x, a);
    FromMont(f, x, x);
    r := x[..];
  }

  /** ecc_to_mont on a coordinate. */
  method FMont(f: Field, a: seq<Limb>) returns (r: seq<Limb>)
    requires f.Prepared() && IsCoord(f, a)
    ensures IsCoord(f, r) && E(f, r) == Val(a)
  {
    var x := new Limb[|a|];
    Copy(x, a);
    ghost var v := Val(x[..]);
    EccField.ToMont(f, x, x);
    r := x[..];
  }

  /** kernel/ecc.h ecc_to_affine: the plain affine coordinates, or failure at infinity. */
  method PtToAffine(c: CurveCtx, p: Point) returns (ok: bool, x: seq<Limb>, y: seq<Limb>)
    requires c.Ready() && p.Valid(c.f)
    ensures !ok <==> p.Image(c.f) == Infinity
    ensures ok ==> |x| == |y| == |c.f.m| && p.Image(c.f) == At(Val(x), Val(y))
  {
    hide Inv, Val, Elem;
    var inf := FIsZero(c.f, p.z);
    if inf { return false, [], []; }
    var zi := FInv(c, p.z);
    var zi2 := FMul(c.f, zi, zi);
    var zi3 := FMul(c.f, zi2, zi);
    var t := FMul(c.f, p.x, zi2);
    x := FPlain(c.f, t);
    t := FMul(c.f, p.y, zi3);
    y := FPlain(c.f, t);
    ok := true;
  }

  /** The curve equation, evaluated as ecc_pt_load_checked does. */
  lemma EquationSteps(p: int, b: int, x: int, y: int, lhs: int, xx: int, xxx: int, x2: int, x3: int, u: int, rhs: int)
    requires p > 0
    requires lhs == (y * y) % p && xx == (x * x) % p && xxx == (xx * x) % p
    requires x2 == (x + x) % p && x3 == (x2 + x) % p && u == (xxx - x3) % p && rhs == (u + b) % p
    ensures lhs == rhs <==> Divides(p, Defect(b, x, y))
  {
    RepSelf(x, p);
    RepSelf(x * x, p);
    RepMul(xx, x * x, x, x, p);
    Jac.TwiceSteps(p, x, x, x2);
    RepAdd(x2, 2 * x, x, x, p);
    RepAdd(xxx, x * x * x, x3, 2 * x + x, p);
    RepSelf(b, p);
    RepAdd(u, x * x * x - (2 * x + x), b, b, p);
    RepSelf(y * y, p);
    ModMod(y * y, p);
    ModMod(u + b, p);
    CongIffDivides(y * y, x * x * x - 3 * x + b, p);
  }

  /** kernel/ecc.h ecc_pt_load_checked: accepts exactly the coordinates of a
      finite point of the curve, and loads that point. */
  method LoadChecked(c: CurveCtx, x: seq<Limb>, y: seq<Limb>) returns (ok: bool, q: Point)
    requires c.Ready() && |x| == |y| == |c.f.m|
    ensures ok <==> OnCurve(c.P(), c.B(), At(Val(x), Val(y)))
    ensures fresh(q)
    ensures ok ==> q.Valid(c.f) && q.Image(c.f) == At(Val(x), Val(y))
  {
    hide Val, Elem, Inv;
    q := new Point(c.one, c.one, c.one);
    var cx := Compare(x, c.f.m);
    var cy := Compare(y, c.f.m);
    if cx >= 0 || cy >= 0 { return false, q; }
    var f := c.f;
    var xm := FMont(f, x);
    var ym := FMont(f, y);
    var bm := FMont(f, c.b);
    var lhs := FMul(f, ym, ym);
    var xx := FMul(f, xm, xm);
    var xxx := FMul(f, xx, xm);
    var x2 := FAdd(f, xm, xm);
    var x3 := FAdd(f, x2, xm);
    var u := FSub(f, xxx, x3);
    var rhs := FAdd(f, u, bm);
    EquationSteps(c.P(), c.B(), Val(x), Val(y), E(f, lhs), E(f, xx), E(f, xxx), E(f, x2), E(f, x3), E(f, u), E(f, rhs));
    var same := Compare(lhs, rhs);
    if same != 0 {
      if E(f, lhs) == E(f, rhs) { ElemInjective(f, Val(lhs), Val(rhs)); }
      return false, q;
    }
    q.x, q.y, q.z := xm, ym, c.one;
    ResidueBound(f.R(), f.M());
    ElemOne(f, Val(c.one));
    UnitScale(Val(x), Val(y), c.P());
    ok := true;
  }

  /** Z = 1 names the affine point itself. */
  lemma UnitScale(x: int, y: int, p: int)
    requires Prime(p) && 0 <= x < p && 0 <= y < p
    ensures Jac.ToAffine(x, y, 1, p) == At(x, y)
  {
    ModSmall(1, p);
    RepSelf(x, p);
    RepSelf(y, p);
    Jac.FromScaled(x, y, 1, x, y, 1, p);
  }

  // ---------- Shamir's trick ----------

  /** u * g + v * q. */
  ghost function Both(u: nat, g: Affine, v: nat, q: Affine, p: int): Affine
    requires p >= 2
  {
    Add(Times(u, g, p), Times(v, q, p), p)
  }

  lemma BothOnCurve(u: nat, g: Affine, v: nat, q: Affine, p: int, b: int)
    requires GoodPrime(p) && OnCurve(p, b, g) && OnCurve(p, b, q)
    ensures OnCurve(p, b, Both(u, g, v, q, p))
  {
    TimesOnCurve(u, g, p, b);
    TimesOnCurve(v, q, p, b);
    AddOnCurve(Times(u, g, p), Times(v, q, p), p, b);
  }

  lemma BothDouble(u: nat, g: Affine, v: nat, q: Affine, p: int, b: int)
    requires GoodPrime(p) && OnCurve(p, b, g) && OnCurve(p, b, q) && Associative(p, b)
    ensures Double(Both(u, g, v, q, p), p) == Both(2 * u, g, 2 * v, q, p)
  {
    hide Add, OnCurve, Times;
    TimesOnCurve(u, g, p, b);
    TimesOnCurve(v, q, p, b);
    TimesStep(u, g, p, b);
    TimesStep(v, q, p, b);
    Interchange(Times(u, g, p), Times(v, q, p), Times(u, g, p), Times(v, q, p), p, b);
  }

  /** Adding g, q or both raises the coefficients. */
  lemma BothAdd(u: nat, g: Affine, v: nat, q: Affine, p: int, b: int)
    requires GoodPrime(p) && OnCurve(p, b, g) && OnCurve(p, b, q) && Associative(p, b)
    ensures Add(Both(u, g, v, q, p), Add(g, q, p), p) == Both(u + 1, g, v + 1, q, p)
    ensures Add(Both(u, g, v, q, p), g, p) == Both(u + 1, g, v, q, p)
    ensures Add(Both(u, g, v, q, p), q, p) == Both(u, g, v + 1, q, p)
  {
    var gu, qv := Times(u, g, p), Times(v, q, p);
    assert Times(u + 1, g, p) == Add(gu, g, p) && Times(v + 1, q, p) == Add(qv, q, p);
    hide Add, Times;
    TimesOnCurve(u, g, p, b);
    TimesOnCurve(v, q, p, b);
    Interchange(gu, qv, g, q, p, b);
    Interchange(gu, qv, g, Infinity, p, b);
    Interchange(gu, qv, Infinity, q, p, b);
    AddInfinity(g, p);
    AddInfinity(q, p);
    AddInfinity(gu, p);
    AddInfinity(qv, p);
  }

  lemma BothZero(g: Affine, q: Affine, p: int)
    requires p >= 2
    ensures Both(0, g, 0, q, p) == Infinity
  {
  }

  /** The loop body of Shamir's trick. */
  method ShamirStep(c: CurveCtx, acc: Point, g: Point, q: Point, gq: Point, b1: nat, b2: nat, ghost u: nat, ghost v: nat)
    requires c.Ready() && acc.Valid(c.f) && g.Valid(c.f) && q.Valid(c.f) && gq.Valid(c.f)
    requires acc != g && acc != q && acc != gq && b1 <= 1 && b2 <= 1
    requires OnCurve(c.P(), c.B(), g.Image(c.f)) && OnCurve(c.P(), c.B(), q.Image(c.f)) && Associative(c.P(), c.B())
    requires gq.Image(c.f) == Add(g.Image(c.f), q.Image(c.f), c.P())
    requires acc.Image(c.f) == Both(u, g.Image(c.f), v, q.Image(c.f), c.P())
    modifies acc
    ensures acc.Valid(c.f)
    ensures acc.Image(c.f) == Both(2 * u + b1, g.Image(c.f), 2 * v + b2, q.Image(c.f), c.P())
  {
    hide Add, Jac.ToAffine, Elem, Val, OnCurve, Times, Associative, GoodPrime, Double, Both;
    ghost var p, b := c.P(), c.B();
    ghost var ga, qa := g.Image(c.f), q.Image(c.f);
    BothDouble(u, ga, v, qa, p, b);
    PtDouble(c, acc, acc);
    BothOnCurve(2 * u, ga, 2 * v, qa, p, b);
    BothAdd(2 * u, ga, 2 * v, qa, p, b);
    AddOnCurve(ga, qa, p, b);
    if b1 == 1 && b2 == 1 {
      PtAdd(c, acc, acc, gq);
    } else if b1 == 1 {
      PtAdd(c, acc, acc, g);
    } else if b2 == 1 {
      PtAdd(c, acc, acc, q);
    }
  }

  /** The one-pass loop of ecdsa_verify_der: acc = u1 * g + u2 * q. */
  method Shamir(c: CurveCtx, u1: seq<Limb>, u2: seq<Limb>, g: Point, q: Point) returns (acc: Point)
    requires c.Ready() && g.Valid(c.f) && q.Valid(c.f) && |u1| == |u2| == |c.f.m|
    requires OnCurve(c.P(), c.B(), g.Image(c.f)) && OnCurve(c.P(), c.B(), q.Image(c.f)) && Associative(c.P(), c.B())
    ensures acc.Valid(c.f) && fresh(acc)
    ensures acc.Image(c.f) == Both(Val(u1), g.Image(c.f), Val(u2), q.Image(c.f), c.P())
  {
    hide Add, Jac.ToAffine, Elem, Val, OnCurve, Times, Associative, GoodPrime, Double, Both, Pow, BitOf, LimbBit;
    var n := |c.f.m|;
    var gq := new Point(c.one, c.one, c.one);
    PtAdd(c, gq, g, q);
    acc := new Point(c.one, c.one, c.one);
    SetInfinity(c, acc);
    ValBound(u1);
    ValBound(u2);
    PowWord(n);
    ShiftAll(Val(u1), 32 * n);
    ShiftAll(Val(u2), 32 * n);
    BothZero(g.Image(c.f), q.Image(c.f), c.P());
    PowZero(2);
    var i := 32 * n;
    while i > 0
      invariant 0 <= i <= 32 * n && Pow(2, i) > 0
      invariant acc.Valid(c.f)
      invariant g.Valid(c.f) && q.Valid(c.f) && gq.Valid(c.f)
      invariant g.Image(c.f) == old(g.Image(c.f)) && q.Image(c.f) == old(q.Image(c.f))
      invariant gq.Image(c.f) == Add(g.Image(c.f), q.Image(c.f), c.P())
      invariant acc.Image(c.f)
        == Both(Val(u1) / Pow(2, i), g.Image(c.f), Val(u2) / Pow(2, i), q.Image(c.f), c.P())
    {
      i := i - 1;
      ShiftStep(Val(u1), i);
      ShiftStep(Val(u2), i);
      LimbBitIsBit(u1, i);
      LimbBitIsBit(u2, i);
      ShamirStep(c, acc, g, q, gq, LimbBit(u1, i), LimbBit(u2, i), Val(u1) / Pow(2, i + 1), Val(u2) / Pow(2, i + 1));
    }
  }

  // ---------- the signature equation ----------

  /** SEC 1 section 4.1.4 on numbers: e is the digest, (r, s) the signature,
      n the group order, g the base point, q the public key. */
  ghost predicate SignatureHolds(p: int, b: int, n: int, g: Affine, q: Affine, e: nat, r: nat, s: nat)
    requires p >= 2 && n >= 2
  {
    && 0 < r < n && 0 < s < n
    && OnCurve(p, b, q)
    && var w := Inv(s, n);
       var sum := Both((e * w) % n, g, (r * w) % n, q, p);
       sum.At? && sum.x % n == r
  }

  /** One conditional subtraction of the modulus, as the code reduces the digest
      and the final abscissa. */
  method ReduceOnceBy(a: seq<Limb>, m: seq<Limb>) returns (r: seq<Limb>)
    requires |a| == |m| && 0 < Val(m) && Val(a) < 2 * Val(m)
    ensures |r| == |a| && Val(r) == Val(a) % Val(m)
  {
    hide Val;
    var cmp := Compare(a, m);
    if cmp >= 0 {
      var x := new Limb[|a|];
      Copy(x, a);
      assert x[..|m|] == x[..];
      var borrow := SubRaw(x, x, m);
      assert 0 * WPow(|m|) == 0;
      r := x[..];
      DivModUnique(Val(a), Val(m), 1, Val(r));
    } else {
      r := a;
      ModSmall(Val(a), Val(m));
    }
  }

  /** A plain number times a Montgomery residue is the plain product. */
  lemma MixedProduct(f: Field, r: nat, a: nat, w: nat)
    requires f.Ready() && a < f.M() && IsMontProduct(f, r, a, w)
    ensures r == (a * Elem(f, w)) % f.M()
  {
    RInvInverts(f);
    Unscaled(r, f.R(), RInv(f), a * w, f.M());
    Reassociate(a, w, RInv(f));
    MulReduce(a, w * RInv(f), f.M());
  }

  lemma Unscaled(r: nat, scale: nat, inverse: nat, x: int, m: nat)
    requires r < m && (scale * inverse) % m == 1 && (r * scale) % m == x % m
    ensures r == (x * inverse) % m
  {
    MulCong(r * scale, x, inverse, inverse, m);
    Reassociate(r, scale, inverse);
    MulReduce(r, scale * inverse, m);
    assert r * 1 == r;
    ModSmall(r, m);
  }

  /** ecc_mm of a plain number and a Montgomery residue. */
  method MixedMul(f: Field, a: seq<Limb>, w: seq<Limb>) returns (r: seq<Limb>)
    requires f.Ready() && IsCoord(f, a) && IsCoord(f, w)
    ensures |r| == |a| && Val(r) == (Val(a) * E(f, w)) % f.M()
  {
    var x, y := new Limb[|a|], new Limb[|w|];
    Copy(x, a);
    Copy(y, w);
    MontMul(f, x, x, y);
    r := x[..];
    MixedProduct(f, Val(r), Val(a), Val(w));
  }

  /** w = s^-1 in Montgomery form modulo the order, with the 1 the code builds
      by converting a plain one. */
  method InverseModOrder(fn: Field, s: seq<Limb>) returns (wm: seq<Limb>)
    requires fn.Prepared() && IsCoord(fn, s)
    ensures IsCoord(fn, wm) && E(fn, wm) == Inv(Val(s), fn.M())
  {
    var one := new Limb[|s|](_ => 0);
    one[0] := 1;
    ValSingle(one[..]);
    EccField.ToMont(fn, one, one);
    assert 1 * fn.R() == fn.R();
    var sm := FMont(fn, s);
    var x := new Limb[|s|];
    Copy(x, sm);
    ModInv(fn, x, x, one[..]);
    wm := x[..];
    ModSmall(Val(s), fn.M());
  }

  /** kernel/ecc.h ecdsa_verify_der after the DER parse: r, s and the digest e as
      limbs, the public key as plain coordinates. */
  method VerifySignature(c: CurveCtx, fn: Field, g: Point, qx: seq<Limb>, qy: seq<Limb>,
                         e: seq<Limb>, r: seq<Limb>, s: seq<Limb>) returns (ok: bool)
    requires c.Ready() && fn.Prepared() && Prime(fn.M()) && |fn.m| == |c.f.m|
    requires c.P() < 2 * fn.M() && fn.R() <= 2 * fn.M()
    requires |qx| == |qy| == |e| == |r| == |s| == |fn.m|
    requires g.Valid(c.f) && OnCurve(c.P(), c.B(), g.Image(c.f)) && Associative(c.P(), c.B())
    ensures ok <==> SignatureHolds(c.P(), c.B(), fn.M(), g.Image(c.f), At(Val(qx), Val(qy)), Val(e), Val(r), Val(s))
  {
    hide Add, Jac.ToAffine, Elem, Val, OnCurve, Times, Associative, GoodPrime, Both, Inv;
    var n := |fn.m|;
    var zero := IsZero(r);
    var cmp := Compare(r, fn.m);
    if zero || cmp >= 0 { return false; }
    zero := IsZero(s);
    cmp := Compare(s, fn.m);
    if zero || cmp >= 0 { return false; }
    var okQ, q := LoadChecked(c, qx, qy);
    if !okQ { return false; }
    ValBound(e);
    var e1 := ReduceOnceBy(e, fn.m);
    var wm := InverseModOrder(fn, s);
    var u1 := MixedMul(fn, e1, wm);
    var u2 := MixedMul(fn, r, wm);
    MulReduce(Val(e), E(fn, wm), fn.M());
    var acc := Shamir(c, u1, u2, g, q);
    var finite, x, y := PtToAffine(c, acc);
    if !finite { return false; }
    TimesBounded(c, g.Image(c.f), q.Image(c.f), Val(u1), Val(u2));
    var x1 := ReduceOnceBy(x, fn.m);
    var same := Compare(x1, r);
    ok := same == 0;
  }

  /** The abscissa of the sum is below p. */
  lemma TimesBounded(c: CurveCtx, g: Affine, q: Affine, u: nat, v: nat)
    requires c.Ready() && OnCurve(c.P(), c.B(), g) && OnCurve(c.P(), c.B(), q)
    ensures var t := Both(u, g, v, q, c.P()); t.At? ==> 0 <= t.x < c.P()
  {
    BothOnCurve(u, g, v, q, c.P(), c.B());
  }
}
