/** The curve y^2 = x^3 - 3x + b over a prime field, as SEC 1 section 2.2.1
    defines its points and their chord-and-tangent sum.  This is the reference
    the Jacobian formulas of kernel/ecc.h are proved against. */
module Curve {
  import opened ModArith
  import opened Fermat

  datatype Affine = Infinity | At(x: int, y: int)

  ghost predicate GoodPrime(p: int) {
    Prime(p) && p > 3
  }

  /** y^2 - (x^3 - 3x + b), over the integers. */
  function Defect(b: int, x: int, y: int): int {
    y * y - (x * x * x - 3 * x + b)
  }

  ghost predicate OnCurve(p: int, b: int, a: Affine) {
    p > 0 && (a.At? ==> 0 <= a.x < p && 0 <= a.y < p && Divides(p, Defect(b, a.x, a.y)))
  }

  /** The inverse of a nonzero residue. */
  ghost function Inv(a: int, p: int): (r: nat)
    requires p >= 2
    ensures r < p
  {
    Pow(a % p, p - 2) % p
  }

  lemma InvWorks(a: int, p: int)
    requires Prime(p) && a % p != 0
    ensures (a * Inv(a, p)) % p == 1
  {
    ModMod(a, p);
    FermatInverse(a % p, p);
    MulReduce(a, Inv(a, p), p);
  }

  function Neg(a: Affine, p: int): Affine
    requires p > 0
  {
    if a.Infinity? then a else At(a.x, (-a.y) % p)
  }

  ghost function TangentSlope(a: Affine, p: int): nat
    requires a.At? && p >= 2
  {
    ((3 * a.x * a.x - 3) * Inv(2 * a.y, p)) % p
  }

  ghost function ChordSlope(a: Affine, c: Affine, p: int): nat
    requires a.At? && c.At? && p >= 2
  {
    ((c.y - a.y) * Inv(c.x - a.x, p)) % p
  }

  /** The third intersection of the line of slope s through a and c, mirrored. */
  ghost function Third(s: int, a: Affine, c: Affine, p: int): Affine
    requires a.At? && c.At? && p > 0
  {
    var x3 := (s * s - a.x - c.x) % p;
    At(x3, (s * (a.x - x3) - a.y) % p)
  }

  /** The group law. */
  ghost function Add(a: Affine, c: Affine, p: int): Affine
    requires p >= 2
  {
    if a.Infinity? then c
    else if c.Infinity? then a
    else if c == Neg(a, p) then Infinity
    else if a == c then Third(TangentSlope(a, p), a, a, p)
    else Third(ChordSlope(a, c, p), a, c, p)
  }

  ghost function Double(a: Affine, p: int): Affine
    requires p >= 2
  {
    Add(a, a, p)
  }

  // ---------- residues of integer expressions ----------

  /** a is the residue of the integer e. */
  predicate Rep(a: int, e: int, p: int)
    requires p > 0
  {
    a % p == e % p
  }

  lemma RepMul(a: int, e: int, c: int, g: int, p: int)
    requires p > 0 && Rep(a, e, p) && Rep(c, g, p)
    ensures Rep(a * c, e * g, p) && Rep((a * c) % p, e * g, p)
  {
    MulCong(a, e, c, g, p);
    ModMod(a * c, p);
  }

  lemma RepAdd(a: int, e: int, c: int, g: int, p: int)
    requires p > 0 && Rep(a, e, p) && Rep(c, g, p)
    ensures Rep(a + c, e + g, p) && Rep((a + c) % p, e + g, p)
    ensures Rep(a - c, e - g, p) && Rep((a - c) % p, e - g, p)
  {
    AddCong(a, e, c, g, p);
    ModMod(a + c, p);
    ModMod(a - c, p);
  }

  lemma RepSelf(a: int, p: int)
    requires p > 0
    ensures Rep(a, a, p) && Rep(a % p, a, p) && Rep(a, a % p, p)
  {
    ModMod(a, p);
  }

  lemma NonzeroProduct(p: int, a: int, c: int)
    requires Prime(p) && a % p != 0 && c % p != 0
    ensures (a * c) % p != 0
  {
    if (a * c) % p == 0 { Euclid(p, a, c); }
  }

  lemma SmallNonzero(p: int, a: int)
    requires 0 < a < p
    ensures a % p != 0
  {
    ModSmall(a, p);
  }

  // ---------- slopes ----------

  /** The tangent slope solves 2y * s = 3x^2 - 3. */
  lemma TangentSolves(a: Affine, p: int)
    requires GoodPrime(p) && a.At? && 0 < a.y < p
    ensures Rep(2 * a.y * TangentSlope(a, p), 3 * a.x * a.x - 3, p)
  {
    var d, n := 2 * a.y, 3 * a.x * a.x - 3;
    SmallNonzero(p, 2);
    SmallNonzero(p, a.y);
    NonzeroProduct(p, 2, a.y);
    SlopeSolves(d, n, p);
  }

  lemma SlopeSolves(d: int, n: int, p: int)
    requires Prime(p) && d % p != 0
    ensures Rep(d * ((n * Inv(d, p)) % p), n, p)
  {
    InvWorks(d, p);
    var i := Inv(d, p);
    MulReduce(d, n * i, p);
    MulRotate(d, n, i);
    MulReduce(n, d * i, p);
    assert n * 1 == n;
  }

  lemma MulRotate(a: int, b: int, c: int)
    ensures a * (b * c) == b * (a * c)
  {
  }

  lemma ChordSolves(a: Affine, c: Affine, p: int)
    requires GoodPrime(p) && a.At? && c.At? && 0 <= a.x < p && 0 <= c.x < p && a.x != c.x
    ensures Rep((c.x - a.x) * ChordSlope(a, c, p), c.y - a.y, p)
    ensures (c.x - a.x) % p != 0
  {
    if (c.x - a.x) % p == 0 { SmallMultipleIsZero(c.x - a.x, p); }
    SlopeSolves(c.x - a.x, c.y - a.y, p);
  }

  /** Points of the curve with the same abscissa are equal or opposite. */
  lemma SameAbscissa(a: Affine, c: Affine, p: int, b: int)
    requires Prime(p) && OnCurve(p, b, a) && OnCurve(p, b, c)
    requires a.At? && c.At? && a.x == c.x
    ensures c == a || c == Neg(a, p)
  {
    var u, v := a.y, c.y;
    DividesSum(p, Defect(b, a.x, v), Defect(b, a.x, u));
    assert Defect(b, a.x, v) - Defect(b, a.x, u) == (v - u) * (v + u);
    Euclid(p, v - u, v + u);
    if Divides(p, v - u) {
      SmallMultipleIsZero(v - u, p);
    } else {
      CongIffDivides(v, -u, p);
      ModSmall(v, p);
    }
  }

  /** A point is its own opposite exactly when its ordinate is zero. */
  lemma SelfOpposite(a: Affine, p: int)
    requires GoodPrime(p) && a.At? && 0 <= a.y < p
    ensures a == Neg(a, p) <==> a.y == 0
  {
    ModSmall(0, p);
    if a.y != 0 && a == Neg(a, p) {
      CongIffDivides(-a.y, a.y, p);
      ModSmall(a.y, p);
      Euclid(p, 2, a.y) by {
        DividesProduct(p, -a.y - a.y, -1);
      }
      ModSmall(2, p);
    }
  }

  // ---------- the sum stays on the curve ----------

  /** For the line of slope s through (x1, y1): the curve equation along the
      line is its value at x1 plus (x - x1) times this quadratic. */
  function LineQuotient(s: int, x1: int, y1: int, x: int): int {
    x * x + x * x1 + x1 * x1 - s * s * (x + x1) - 3 + 2 * (s * s) * x1 - 2 * (s * y1)
  }

  lemma DefectAlongLine(b: int, s: int, x1: int, y1: int, x: int)
    ensures Defect(b, x, s * (x1 - x) - y1) == Defect(b, x1, y1) - (x - x1) * LineQuotient(s, x1, y1, x)
  {
    var u := x - x1;
    assert s * (x1 - x) - y1 == -(s * u + y1);
    assert (s * u + y1) * (s * u + y1) == (s * s) * (u * u) + 2 * (s * y1) * u + y1 * y1 by {
      assert (s * u) * (s * u) == (s * s) * (u * u);
      assert (s * u) * y1 == (s * y1) * u;
    }
    assert x * x * x - x1 * x1 * x1 == u * (x * x + x * x1 + x1 * x1);
    assert u * (s * s * (x + x1) - 2 * (s * s) * x1) == (s * s) * (u * u) by {
      assert s * s * (x + x1) - 2 * (s * s) * x1 == (s * s) * u;
    }
    var q := x * x + x * x1 + x1 * x1;
    var t := s * s * (x + x1) - 2 * (s * s) * x1;
    assert LineQuotient(s, x1, y1, x) == q - t - 3 - 2 * (s * y1);
    assert u * (q - t - 3 - 2 * (s * y1)) == u * q - u * t - 3 * u - 2 * (s * y1) * u;
  }

  lemma LineQuotientAtThird(s: int, x1: int, y1: int, x2: int)
    ensures var x3 := s * s - x1 - x2;
      LineQuotient(s, x1, y1, x3) == LineQuotient(s, x1, y1, x2)
  {
    var x3 := s * s - x1 - x2;
    var d := x3 - x2;
    assert x3 * x3 - x2 * x2 == d * (x3 + x2);
    assert x3 * x1 - x2 * x1 == d * x1;
    assert s * s * (x3 + x1) - s * s * (x2 + x1) == d * (s * s);
    assert d * (x3 + x2) + d * x1 - d * (s * s) == d * (x3 + x2 + x1 - s * s);
  }

  lemma DefectCong(b: int, x: int, x': int, y: int, y': int, p: int)
    requires p > 0 && Rep(x, x', p) && Rep(y, y', p)
    ensures Rep(Defect(b, x, y), Defect(b, x', y'), p)
  {
    RepMul(y, y', y, y', p);
    RepMul(x, x', x, x', p);
    RepMul(x * x, x' * x', x, x', p);
    RepSelf(3, p);
    RepMul(3, 3, x, x', p);
    RepAdd(x * x * x, x' * x' * x', 3 * x, 3 * x', p);
    RepSelf(b, p);
    RepAdd(x * x * x - 3 * x, x' * x' * x' - 3 * x', b, b, p);
    RepAdd(y * y, y' * y', x * x * x - 3 * x + b, x' * x' * x' - 3 * x' + b, p);
  }

  /** Third is congruent to the unreduced intersection. */
  lemma ThirdRep(s: int, a: Affine, c: Affine, p: int)
    requires p > 0 && a.At? && c.At?
    ensures var x3 := s * s - a.x - c.x;
      var t := Third(s, a, c, p);
      0 <= t.x < p && 0 <= t.y < p && Rep(t.x, x3, p) && Rep(t.y, s * (a.x - x3) - a.y, p)
  {
    var x3 := s * s - a.x - c.x;
    var t := Third(s, a, c, p);
    RepSelf(x3, p);
    RepSelf(a.x, p);
    RepSelf(a.y, p);
    RepSelf(s, p);
    RepAdd(a.x, a.x, t.x, x3, p);
    RepMul(s, s, a.x - t.x, a.x - x3, p);
    RepAdd(s * (a.x - t.x), s * (a.x - x3), a.y, a.y, p);
  }

  lemma ThirdOnCurve(s: int, a: Affine, c: Affine, p: int, b: int)
    requires OnCurve(p, b, a) && a.At? && c.At?
    requires Divides(p, LineQuotient(s, a.x, a.y, c.x))
    ensures OnCurve(p, b, Third(s, a, c, p))
  {
    var x3 := s * s - a.x - c.x;
    DefectAlongLine(b, s, a.x, a.y, x3);
    LineQuotientAtThird(s, a.x, a.y, c.x);
    DividesProduct(p, LineQuotient(s, a.x, a.y, x3), x3 - a.x);
    DividesSum(p, Defect(b, a.x, a.y), (x3 - a.x) * LineQuotient(s, a.x, a.y, x3));
    ThirdRep(s, a, c, p);
    var t := Third(s, a, c, p);
    DefectCong(b, t.x, x3, t.y, s * (a.x - x3) - a.y, p);
  }

  lemma TangentOnCurve(a: Affine, p: int, b: int)
    requires GoodPrime(p) && OnCurve(p, b, a) && a.At? && a.y != 0
    ensures OnCurve(p, b, Third(TangentSlope(a, p), a, a, p))
  {
    var s := TangentSlope(a, p);
    TangentSolves(a, p);
    CongIffDivides(3 * a.x * a.x - 3, 2 * a.y * s, p);
    LineQuotientTangent(s, a.x, a.y);
    ThirdOnCurve(s, a, a, p, b);
  }

  lemma LineQuotientTangent(s: int, x: int, y: int)
    ensures LineQuotient(s, x, y, x) == 3 * x * x - 3 - 2 * y * s
  {
    assert s * s * (x + x) == 2 * (s * s) * x;
    assert 2 * (s * y) == 2 * y * s;
  }

  lemma ChordOnCurve(a: Affine, c: Affine, p: int, b: int)
    requires GoodPrime(p) && OnCurve(p, b, a) && OnCurve(p, b, c)
    requires a.At? && c.At? && a.x != c.x
    ensures OnCurve(p, b, Third(ChordSlope(a, c, p), a, c, p))
  {
    var s := ChordSlope(a, c, p);
    ChordSolves(a, c, p);
    var d, q := c.x - a.x, LineQuotient(s, a.x, a.y, c.x);
    // The line meets the curve in c too, so d * q vanishes; d does not.
    DefectAlongLine(b, s, a.x, a.y, c.x);
    var y := s * (a.x - c.x) - a.y;
    assert s * (a.x - c.x) == -(d * s);
    RepSelf(a.y, p);
    RepAdd(d * s, c.y - a.y, a.y, a.y, p);
    assert Rep(-y, c.y, p);
    RepSelf(c.x, p);
    DefectCong(b, c.x, c.x, -y, c.y, p);
    assert (-y) * (-y) == y * y;
    assert Divides(p, Defect(b, c.x, y));
    DividesSum(p, Defect(b, a.x, a.y), Defect(b, c.x, y));
    Euclid(p, d, q);
    ThirdOnCurve(s, a, c, p, b);
  }

  /** The curve is closed under the group law. */
  lemma AddOnCurve(a: Affine, c: Affine, p: int, b: int)
    requires GoodPrime(p) && OnCurve(p, b, a) && OnCurve(p, b, c)
    ensures OnCurve(p, b, Add(a, c, p))
  {
    if a.At? && c.At? && c != Neg(a, p) {
      if a == c {
        SelfOpposite(a, p);
        TangentOnCurve(a, p, b);
      } else {
        if a.x == c.x { SameAbscissa(a, c, p, b); }
        ChordOnCurve(a, c, p, b);
      }
    }
  }

  // ---------- the group laws that need no associativity ----------

  lemma NegInvolution(a: Affine, p: int)
    requires p > 0 && (a.At? ==> 0 <= a.y < p)
    ensures Neg(Neg(a, p), p) == a
  {
    if a.At? {
      RepSelf(-a.y, p);
      RepSelf(0, p);
      RepAdd(0, 0, (-a.y) % p, -a.y, p);
      ModSmall(a.y, p);
    }
  }

  lemma AddCommutes(a: Affine, c: Affine, p: int, b: int)
    requires GoodPrime(p) && OnCurve(p, b, a) && OnCurve(p, b, c)
    ensures Add(a, c, p) == Add(c, a, p)
  {
    NegInvolution(a, p);
    NegInvolution(c, p);
    if a.At? && c.At? && c != Neg(a, p) && a != c {
      if a.x == c.x { SameAbscissa(a, c, p, b); }
      ChordSymmetric(a, c, p);
    }
  }

  lemma LineOrdinates(s: int, a: Affine, c: Affine, x3: int)
    requires a.At? && c.At?
    ensures (s * (c.x - x3) - c.y) - (s * (a.x - x3) - a.y) == (c.x - a.x) * s - (c.y - a.y)
  {
  }

  lemma ChordSymmetric(a: Affine, c: Affine, p: int)
    requires GoodPrime(p) && a.At? && c.At? && a.x != c.x
    requires 0 <= a.x < p && 0 <= c.x < p
    ensures Third(ChordSlope(a, c, p), a, c, p) == Third(ChordSlope(c, a, p), c, a, p)
  {
    var s, s' := ChordSlope(a, c, p), ChordSlope(c, a, p);
    var d := c.x - a.x;
    ChordSolves(a, c, p);
    ChordSolves(c, a, p);
    // Both slopes solve the same equation.
    RepSelf(0, p);
    RepAdd(0, 0, (a.x - c.x) * s', a.y - c.y, p);
    assert (a.x - c.x) * s' == -(d * s');
    CancelFactor(p, d, s, s');
    ModSmall(s, p);
    ModSmall(s', p);
    assert s == s';
    ThirdRep(s, a, c, p);
    ThirdRep(s, c, a, p);
    var x3 := s * s - a.x - c.x;
    var t, t' := Third(s, a, c, p), Third(s, c, a, p);
    ModSmall(t.x, p);
    ModSmall(t'.x, p);
    assert t.x == t'.x;
    CongIffDivides(d * s, c.y - a.y, p);
    LineOrdinates(s, a, c, x3);
    CongIffDivides(s * (c.x - x3) - c.y, s * (a.x - x3) - a.y, p);
    ModSmall(t.y, p);
    ModSmall(t'.y, p);
  }
}
