/** Jacobian coordinates: (X, Y, Z) stands for the affine point
    (X / Z^2, Y / Z^3).  The doubling and addition formulas of kernel/ecc.h are
    shown to compute the chord-and-tangent sum of module Curve. */
module Jacobian {
  import opened ModArith
  import opened Fermat
  import opened Curve

  ghost function ToAffine(X: int, Y: int, Z: int, p: int): Affine
    requires p >= 2
  {
    if Z % p == 0 then Infinity
    else
      var i := Inv(Z, p);
      At((X * ((i * i) % p)) % p, (Y * ((((i * i) % p) * i) % p)) % p)
  }

  lemma InverseSquares(Z: int, p: int)
    requires Prime(p) && Z % p != 0
    ensures var i := Inv(Z, p);
      Rep(((i * i) % p) * (Z * Z), 1, p) && Rep(((((i * i) % p) * i) % p) * (Z * Z * Z), 1, p)
  {
    var i := Inv(Z, p);
    InvWorks(Z, p);
    ModSmall(1, p);
    RepMul(Z * i, 1, Z * i, 1, p);
    RepMul((Z * i) * (Z * i), 1, Z * i, 1, p);
    SquareShuffle(Z, i);
    RepSelf(i * i, p);
    RepSelf(Z * Z, p);
    RepMul((i * i) % p, i * i, Z * Z, Z * Z, p);
    RepSelf(i, p);
    RepMul((i * i) % p, i * i, i, i, p);
    RepSelf(Z * Z * Z, p);
    RepMul((((i * i) % p) * i) % p, i * i * i, Z * Z * Z, Z * Z * Z, p);
  }

  lemma SquareShuffle(z: int, i: int)
    ensures (z * i) * (z * i) == (i * i) * (z * z)
    ensures ((z * i) * (z * i)) * (z * i) == (i * i * i) * (z * z * z)
  {
    assert (z * i) * (z * i) == (i * i) * (z * z);
    assert ((i * i) * (z * z)) * (z * i) == (i * i * i) * (z * z * z);
  }

  /** The coordinates of a finite point are its affine image scaled by Z^2, Z^3. */
  lemma ScaledByZ(X: int, Y: int, Z: int, p: int)
    requires Prime(p) && Z % p != 0
    ensures var a := ToAffine(X, Y, Z, p);
      0 <= a.x < p && 0 <= a.y < p && Rep(X, a.x * (Z * Z), p) && Rep(Y, a.y * (Z * Z * Z), p)
  {
    InverseSquares(Z, p);
    var i := Inv(Z, p);
    CancelScale(X, (i * i) % p, Z * Z, p);
    CancelScale(Y, (((i * i) % p) * i) % p, Z * Z * Z, p);
  }

  lemma CancelScale(x: int, u: int, v: int, p: int)
    requires p > 0 && Rep(u * v, 1, p)
    ensures Rep(x, ((x * u) % p) * v, p)
  {
    RepSelf(x * u, p);
    RepSelf(v, p);
    RepMul((x * u) % p, x * u, v, v, p);
    RepSelf(x, p);
    RepMul(x, x, u * v, 1, p);
    MulAssoc(x, u, v);
    MulIs(x * u, v);
    MulIs(x, u * v);
    MulIs(x, u);
    MulIs(u, v);
  }

  /** Conversely, scaled coordinates name the affine point. */
  lemma FromScaled(X: int, Y: int, Z: int, x: int, y: int, w: int, p: int)
    requires Prime(p) && w % p != 0 && Rep(Z, w, p)
    requires Rep(X, x * (w * w), p) && Rep(Y, y * (w * w * w), p)
    requires 0 <= x < p && 0 <= y < p
    ensures ToAffine(X, Y, Z, p) == At(x, y)
  {
    assert Inv(Z, p) == Inv(w, p);
    InverseSquares(w, p);
    var i := Inv(w, p);
    Unscale(X, x, (i * i) % p, w * w, p);
    Unscale(Y, y, (((i * i) % p) * i) % p, w * w * w, p);
  }

  lemma Unscale(X: int, x: int, u: int, v: int, p: int)
    requires p > 0 && Rep(u * v, 1, p) && Rep(X, x * v, p) && 0 <= x < p
    ensures (X * u) % p == x
  {
    RepSelf(u, p);
    RepMul(X, x * v, u, u, p);
    RepSelf(x, p);
    RepMul(x, x, u * v, 1, p);
    MulAssoc(x, v, u);
    MulSwap(u, v);
    MulIs(x * v, u);
    MulIs(x, v);
    MulIs(v, u);
    MulIs(x, v * u);
    ModSmall(x, p);
  }

  // ---------- doubling ----------

  // With x, y the affine image, s its tangent slope and w = 2 y Z^4, every
  // intermediate value becomes a monomial in s, x, y, w:
  //   alpha = s w,  4 beta = x w^2,  8 gamma^2 = y w^3,  Z3 = w.

  function DoubleScale(y: int, z: int): int {
    2 * y * ((z * z) * (z * z))
  }

  lemma AlphaMonomial(x: int, z: int)
    ensures 3 * (((x - 1) * (z * z)) * ((x + 1) * (z * z))) == (3 * x * x - 3) * ((z * z) * (z * z))
  {
  }

  lemma BetaMonomial(x: int, y: int, z: int)
    ensures 4 * ((x * (z * z)) * ((y * (z * z * z)) * (y * (z * z * z))))
         == x * (DoubleScale(y, z) * DoubleScale(y, z))
  {
  }

  lemma GammaMonomial(y: int, z: int)
    ensures 8 * (((y * (z * z * z)) * (y * (z * z * z))) * ((y * (z * z * z)) * (y * (z * z * z))))
         == y * (DoubleScale(y, z) * DoubleScale(y, z) * DoubleScale(y, z))
  {
  }

  lemma ZMonomial(y: int, z: int)
    ensures 2 * ((y * (z * z * z)) * z) == DoubleScale(y, z)
  {
  }

  lemma AlphaFactors(x: int, q: int)
    ensures x * q - q == (x - 1) * q && x * q + q == (x + 1) * q
  {
  }

  lemma AlphaRep(p: int, X: int, x: int, y: int, z: int, s: int, delta: int, alpha: int)
    requires p > 0 && Rep(X, x * (z * z), p) && Rep(2 * y * s, 3 * x * x - 3, p)
    requires delta == (z * z) % p && Rep(alpha, 3 * ((X - delta) * (X + delta)), p)
    ensures Rep(alpha, s * DoubleScale(y, z), p)
  {
    var z2 := z * z;
    RepSelf(z2, p);
    RepAdd(X, x * z2, delta, z2, p);
    AlphaFactors(x, z2);
    RepMul(X - delta, (x - 1) * z2, X + delta, (x + 1) * z2, p);
    RepSelf(3, p);
    RepMul(3, 3, (X - delta) * (X + delta), ((x - 1) * z2) * ((x + 1) * z2), p);
    AlphaMonomial(x, z);
    RepSelf(z2 * z2, p);
    RepMul(2 * y * s, 3 * x * x - 3, z2 * z2, z2 * z2, p);
    SlopeScale(y, s, z2 * z2);
  }

  lemma SlopeScale(y: int, s: int, q: int)
    ensures (2 * y * s) * q == s * (2 * y * q)
  {
  }

  lemma GammaRep(p: int, Y: int, y: int, z: int, gamma: int)
    requires p > 0 && Rep(Y, y * (z * z * z), p) && gamma == (Y * Y) % p
    ensures Rep(gamma, (y * (z * z * z)) * (y * (z * z * z)), p)
    ensures Rep(8 * (gamma * gamma), y * (DoubleScale(y, z) * DoubleScale(y, z) * DoubleScale(y, z)), p)
  {
    var v := y * (z * z * z);
    RepMul(Y, v, Y, v, p);
    RepMul(gamma, v * v, gamma, v * v, p);
    RepSelf(8, p);
    RepMul(8, 8, gamma * gamma, (v * v) * (v * v), p);
    GammaMonomial(y, z);
  }

  lemma BetaRep(p: int, X: int, x: int, y: int, z: int, gamma: int, beta: int, beta4: int)
    requires p > 0 && Rep(X, x * (z * z), p)
    requires Rep(gamma, (y * (z * z * z)) * (y * (z * z * z)), p)
    requires beta == (X * gamma) % p && Rep(beta4, 4 * beta, p)
    ensures Rep(beta4, x * (DoubleScale(y, z) * DoubleScale(y, z)), p)
  {
    var v := y * (z * z * z);
    RepMul(X, x * (z * z), gamma, v * v, p);
    RepSelf(4, p);
    RepMul(4, 4, beta, (x * (z * z)) * (v * v), p);
    BetaMonomial(x, y, z);
  }

  lemma ZRep(p: int, Y: int, y: int, z: int, gamma: int, delta: int, Z3: int)
    requires p > 0 && Rep(Y, y * (z * z * z), p)
    requires delta == (z * z) % p && gamma == (Y * Y) % p
    requires Rep(Z3, (Y + z) * (Y + z) - gamma - delta, p)
    ensures Rep(Z3, DoubleScale(y, z), p)
  {
    RepSelf(Y * Y, p);
    RepSelf(z * z, p);
    RepSelf((Y + z) * (Y + z), p);
    RepAdd((Y + z) * (Y + z), (Y + z) * (Y + z), gamma, Y * Y, p);
    RepAdd((Y + z) * (Y + z) - gamma, (Y + z) * (Y + z) - Y * Y, delta, z * z, p);
    assert (Y + z) * (Y + z) - Y * Y - z * z == 2 * (Y * z);
    RepSelf(z, p);
    RepMul(Y, y * (z * z * z), z, z, p);
    RepSelf(2, p);
    RepMul(2, 2, Y * z, (y * (z * z * z)) * z, p);
    ZMonomial(y, z);
  }

  /** alpha^2 - 2 * 4beta for alpha = s w and 4beta = x w^2. */
  lemma XRep(p: int, s: int, x: int, w: int, alpha: int, beta4: int, X3: int, x3: int)
    requires p > 0 && Rep(alpha, s * w, p) && Rep(beta4, x * (w * w), p)
    requires Rep(X3, alpha * alpha - 2 * beta4, p) && Rep(x3, s * s - x - x, p)
    ensures Rep(X3, x3 * (w * w), p)
  {
    RepMul(alpha, s * w, alpha, s * w, p);
    RepSelf(2, p);
    RepMul(2, 2, beta4, x * (w * w), p);
    RepAdd(alpha * alpha, (s * w) * (s * w), 2 * beta4, 2 * (x * (w * w)), p);
    SquareScale(s, x, w);
    RepSelf(w * w, p);
    RepMul(x3, s * s - x - x, w * w, w * w, p);
  }

  lemma SquareScale(s: int, x: int, w: int)
    ensures (s * w) * (s * w) - 2 * (x * (w * w)) == (s * s - x - x) * (w * w)
  {
    assert (s * w) * (s * w) == (s * s) * (w * w);
  }

  /** r (v - X3) - g for r = s w, v = x w^2, X3 = x3 w^2 and g = y w^3. */
  lemma YRep(p: int, s: int, x: int, x3: int, y: int, w: int, r: int, v: int, X3: int, g: int, Y3: int, y3: int)
    requires p > 0 && Rep(r, s * w, p) && Rep(v, x * (w * w), p) && Rep(X3, x3 * (w * w), p)
    requires Rep(g, y * (w * w * w), p) && Rep(Y3, r * (v - X3) - g, p) && Rep(y3, s * (x - x3) - y, p)
    ensures Rep(Y3, y3 * (w * w * w), p)
  {
    RepAdd(v, x * (w * w), X3, x3 * (w * w), p);
    RepMul(r, s * w, v - X3, x * (w * w) - x3 * (w * w), p);
    RepAdd(r * (v - X3), (s * w) * (x * (w * w) - x3 * (w * w)), g, y * (w * w * w), p);
    CubeScale(s, x, x3, y, w);
    RepSelf(w * w * w, p);
    RepMul(y3, s * (x - x3) - y, w * w * w, w * w * w, p);
  }

  lemma CubeScale(s: int, x: int, x3: int, y: int, w: int)
    ensures (s * w) * (x * (w * w) - x3 * (w * w)) - y * (w * w * w) == (s * (x - x3) - y) * (w * w * w)
  {
    assert x * (w * w) - x3 * (w * w) == (x - x3) * (w * w);
    assert (s * w) * ((x - x3) * (w * w)) == (s * (x - x3)) * (w * w * w);
  }

  /** The doubling formula computes the tangent sum. */
  lemma DoublingCorrect(p: int, X: int, Y: int, Z: int, delta: int, gamma: int, beta: int, alpha: int,
                        beta4: int, X3: int, Y3: int, Z3: int)
    requires GoodPrime(p) && Z % p != 0 && Y % p != 0
    requires delta == (Z * Z) % p && gamma == (Y * Y) % p && beta == (X * gamma) % p
    requires Rep(alpha, 3 * ((X - delta) * (X + delta)), p) && Rep(beta4, 4 * beta, p)
    requires Rep(X3, alpha * alpha - 2 * beta4, p) && Rep(Z3, (Y + Z) * (Y + Z) - gamma - delta, p)
    requires Rep(Y3, alpha * (beta4 - X3) - 8 * (gamma * gamma), p)
    ensures ToAffine(X3, Y3, Z3, p) == Double(ToAffine(X, Y, Z, p), p)
  {
    hide Rep, DoubleScale;
    var a := ToAffine(X, Y, Z, p);
    var x, y := a.x, a.y;
    ScaledByZ(X, Y, Z, p);
    OrdinateNonzero(X, Y, Z, p);
    SelfOpposite(a, p);
    TangentSolves(a, p);
    var s := TangentSlope(a, p);
    ThirdRep(s, a, a, p);
    var t := Third(s, a, a, p);
    var w := DoubleScale(y, Z);
    AlphaRep(p, X, x, y, Z, s, delta, alpha);
    GammaRep(p, Y, y, Z, gamma);
    BetaRep(p, X, x, y, Z, gamma, beta, beta4);
    ZRep(p, Y, y, Z, gamma, delta, Z3);
    XRep(p, s, x, w, alpha, beta4, X3, t.x);
    RepSelf(s * (x - t.x) - y, p);
    YRep(p, s, x, t.x, y, w, alpha, beta4, X3, 8 * (gamma * gamma), Y3, t.y);
    ScaleNonzero(p, y, Z);
    FromScaled(X3, Y3, Z3, t.x, t.y, w, p);
  }

  lemma OrdinateNonzero(X: int, Y: int, Z: int, p: int)
    requires Prime(p) && Z % p != 0
    ensures ToAffine(X, Y, Z, p).y == 0 <==> Y % p == 0
  {
    ScaledByZ(X, Y, Z, p);
    var y := ToAffine(X, Y, Z, p).y;
    assert 0 * (Z * Z * Z) == 0;
    ModSmall(0, p);
    if Y % p == 0 {
      NonzeroProduct(p, Z, Z);
      NonzeroProduct(p, Z * Z, Z);
      Euclid(p, y, Z * Z * Z);
      ModSmall(y, p);
    }
  }

  lemma ScaleNonzero(p: int, y: int, z: int)
    requires GoodPrime(p) && 0 < y < p && z % p != 0
    ensures DoubleScale(y, z) % p != 0
  {
    SmallNonzero(p, 2);
    SmallNonzero(p, y);
    NonzeroProduct(p, 2, y);
    NonzeroProduct(p, z, z);
    NonzeroProduct(p, z * z, z * z);
    NonzeroProduct(p, 2 * y, (z * z) * (z * z));
  }

  // ---------- addition ----------

  /** The common part of ecc_pt_add: both inputs brought to the scale Z1 Z2. */
  ghost predicate CommonScale(p: int, X1: int, Y1: int, Z1: int, X2: int, Y2: int, Z2: int,
                        z1z1: int, z2z2: int, u1: int, u2: int, s1: int, s2: int, h: int, r0: int)
    requires p > 0
  {
    && z1z1 == (Z1 * Z1) % p
    && z2z2 == (Z2 * Z2) % p
    && u1 == (X1 * z2z2) % p
    && u2 == (X2 * z1z1) % p
    && s1 == (Y1 * ((Z2 * z2z2) % p)) % p
    && s2 == (Y2 * ((Z1 * z1z1) % p)) % p
    && h == (u2 - u1) % p
    && r0 == (s2 - s1) % p
  }

  lemma CrossX(p: int, X: int, x: int, z: int, Z: int, zz: int, u: int)
    requires p > 0 && Rep(X, x * (z * z), p) && zz == (Z * Z) % p && u == (X * zz) % p
    ensures Rep(u, x * ((z * Z) * (z * Z)), p)
  {
    RepSelf(Z * Z, p);
    RepMul(X, x * (z * z), zz, Z * Z, p);
    assert (x * (z * z)) * (Z * Z) == x * ((z * Z) * (z * Z));
  }

  lemma CrossY(p: int, Y: int, y: int, z: int, Z: int, zz: int, s: int)
    requires p > 0 && Rep(Y, y * (z * z * z), p) && zz == (Z * Z) % p && s == (Y * ((Z * zz) % p)) % p
    ensures Rep(s, y * ((z * Z) * (z * Z) * (z * Z)), p)
  {
    RepSelf(Z * Z, p);
    RepSelf(Z, p);
    RepMul(Z, Z, zz, Z * Z, p);
    RepMul(Y, y * (z * z * z), (Z * zz) % p, Z * (Z * Z), p);
    CubeCross(y, z, Z);
  }

  lemma CubeCross(y: int, z: int, Z: int)
    ensures (y * (z * z * z)) * (Z * (Z * Z)) == y * ((z * Z) * (z * Z) * (z * Z))
  {
    assert (z * z * z) * (Z * (Z * Z)) == (z * Z) * (z * Z) * (z * Z);
  }

  /** h vanishes exactly for equal abscissas, r0 for equal ordinates. */
  lemma SameScaleDifference(p: int, a: int, c: int, x1: int, x2: int, q: int, d: int)
    requires Prime(p) && q % p != 0 && 0 <= x1 < p && 0 <= x2 < p
    requires Rep(a, x1 * q, p) && Rep(c, x2 * q, p) && d == (c - a) % p
    ensures Rep(d, (x2 - x1) * q, p)
    ensures d == 0 <==> x1 == x2
  {
    RepAdd(c, x2 * q, a, x1 * q, p);
    assert x2 * q - x1 * q == (x2 - x1) * q;
    if d == 0 {
      Euclid(p, x2 - x1, q) by { ModSmall(0, p); }
      SmallMultipleIsZero(x2 - x1, p);
    }
    if x1 == x2 {
      assert 0 * q == 0;
      ModSmall(0, p);
      ModMod(c - a, p);
    }
  }

  function AddScale(d: int, z: int): int {
    2 * (z * (d * (z * z)))
  }

  lemma ChordMonomials(x: int, y: int, d: int, z: int)
    ensures var h, w := d * (z * z), AddScale(d, z);
      && (x * (z * z)) * ((2 * h) * (2 * h)) == x * (w * w)
      && h * ((2 * h) * (2 * h)) == d * (w * w)
  {
    var h, w := d * (z * z), AddScale(d, z);
    assert w * w == (z * z) * ((2 * h) * (2 * h));
    ScaledSquare(x, z, (2 * h) * (2 * h));
    ScaledSquare(d, z, (2 * h) * (2 * h));
  }

  lemma ScaledSquare(x: int, z: int, q: int)
    ensures (x * (z * z)) * q == x * ((z * z) * q)
  {
  }

  lemma CubeMonomial(y: int, d: int, z: int)
    ensures var h, w := d * (z * z), AddScale(d, z);
      2 * ((y * (z * z * z)) * (h * ((2 * h) * (2 * h)))) == y * (w * w * w)
  {
    var h, w := d * (z * z), AddScale(d, z);
    assert w == 2 * (z * h);
    assert w * w * w == 8 * ((z * z * z) * (h * h * h));
    assert h * ((2 * h) * (2 * h)) == 4 * (h * h * h);
    var q, c := z * z * z, h * h * h;
    assert 2 * ((y * q) * (4 * c)) == y * (8 * (q * c));
  }

  /** r = 2 r0 is the chord slope times w. */
  lemma SlopeRep(p: int, r0: int, r: int, dy: int, dx: int, s: int, z: int)
    requires p > 0 && Rep(r0, dy * (z * z * z), p) && Rep(r, 2 * r0, p) && Rep(dx * s, dy, p)
    ensures Rep(r, s * AddScale(dx, z), p)
  {
    var c := z * z * z;
    RepSelf(c, p);
    RepMul(dx * s, dy, c, c, p);
    RepSelf(2, p);
    RepMul(2, 2, r0, dy * c, p);
    RepMul(2, 2, (dx * s) * c, dy * c, p);
    SlopeMonomial(dx, s, z);
  }

  lemma SlopeMonomial(dx: int, s: int, z: int)
    ensures 2 * ((dx * s) * (z * z * z)) == s * AddScale(dx, z)
  {
    assert (dx * s) * (z * z * z) == s * (z * (dx * (z * z)));
  }

  lemma ChordReps(p: int, x1: int, y1: int, d: int, z: int, u1: int, s1: int, h: int, i2: int, j: int, v: int)
    requires p > 0 && Rep(u1, x1 * (z * z), p) && Rep(s1, y1 * (z * z * z), p) && Rep(h, d * (z * z), p)
    requires Rep(i2, (2 * h) * (2 * h), p) && j == (h * i2) % p && v == (u1 * i2) % p
    ensures var w := AddScale(d, z);
      Rep(v, x1 * (w * w), p) && Rep(j, d * (w * w), p) && Rep(2 * (s1 * j), y1 * (w * w * w), p)
  {
    var w, k := AddScale(d, z), d * (z * z);
    RepSelf(2, p);
    RepMul(2, 2, h, k, p);
    RepMul(2 * h, 2 * k, 2 * h, 2 * k, p);
    RepMul(h, k, i2, (2 * k) * (2 * k), p);
    RepMul(u1, x1 * (z * z), i2, (2 * k) * (2 * k), p);
    ChordMonomials(x1, y1, d, z);
    RepMul(s1, y1 * (z * z * z), j, k * ((2 * k) * (2 * k)), p);
    RepMul(2, 2, s1 * j, (y1 * (z * z * z)) * (k * ((2 * k) * (2 * k))), p);
    CubeMonomial(y1, d, z);
  }

  /** r^2 - j - 2v for r = s w, j = (x2 - x1) w^2, v = x1 w^2. */
  lemma ChordXRep(p: int, s: int, x1: int, x2: int, w: int, r: int, j: int, v: int, X3: int, x3: int)
    requires p > 0 && Rep(r, s * w, p) && Rep(j, (x2 - x1) * (w * w), p) && Rep(v, x1 * (w * w), p)
    requires Rep(X3, r * r - j - 2 * v, p) && Rep(x3, s * s - x1 - x2, p)
    ensures Rep(X3, x3 * (w * w), p)
  {
    var q := w * w;
    RepMul(r, s * w, r, s * w, p);
    assert (s * w) * (s * w) == (s * s) * q;
    RepAdd(r * r, (s * s) * q, j, (x2 - x1) * q, p);
    RepSelf(2, p);
    RepMul(2, 2, v, x1 * q, p);
    RepAdd(r * r - j, (s * s) * q - (x2 - x1) * q, 2 * v, 2 * (x1 * q), p);
    CollectChord(s * s, x1, x2, q);
    RepSelf(q, p);
    RepMul(x3, s * s - x1 - x2, q, q, p);
  }

  lemma CollectChord(ss: int, x1: int, x2: int, q: int)
    ensures ss * q - (x2 - x1) * q - 2 * (x1 * q) == (ss - x1 - x2) * q
  {
  }

  lemma ChordZRep(p: int, Z1: int, Z2: int, z1z1: int, z2z2: int, h: int, d: int, Z3: int)
    requires p > 0 && z1z1 == (Z1 * Z1) % p && z2z2 == (Z2 * Z2) % p
    requires Rep(h, d * ((Z1 * Z2) * (Z1 * Z2)), p)
    requires Rep(Z3, ((Z1 + Z2) * (Z1 + Z2) - z1z1 - z2z2) * h, p)
    ensures Rep(Z3, AddScale(d, Z1 * Z2), p)
  {
    var sq := (Z1 + Z2) * (Z1 + Z2);
    RepSelf(sq, p);
    RepSelf(Z1 * Z1, p);
    RepSelf(Z2 * Z2, p);
    RepAdd(sq, sq, z1z1, Z1 * Z1, p);
    RepAdd(sq - z1z1, sq - Z1 * Z1, z2z2, Z2 * Z2, p);
    assert sq - Z1 * Z1 - Z2 * Z2 == 2 * (Z1 * Z2);
    var z := Z1 * Z2;
    RepMul(sq - z1z1 - z2z2, 2 * z, h, d * (z * z), p);
    assert (2 * z) * (d * (z * z)) == AddScale(d, z);
  }

  lemma AddScaleNonzero(p: int, d: int, z: int)
    requires GoodPrime(p) && d % p != 0 && z % p != 0
    ensures AddScale(d, z) % p != 0
  {
    SmallNonzero(p, 2);
    NonzeroProduct(p, z, z);
    NonzeroProduct(p, d, z * z);
    NonzeroProduct(p, z, d * (z * z));
    NonzeroProduct(p, 2, z * (d * (z * z)));
  }

  /** What the two differences computed by ecc_pt_add decide. */
  lemma ComparisonCorrect(p: int, X1: int, Y1: int, Z1: int, X2: int, Y2: int, Z2: int,
                          z1z1: int, z2z2: int, u1: int, u2: int, s1: int, s2: int, h: int, r0: int)
    requires Prime(p) && Z1 % p != 0 && Z2 % p != 0
    requires CommonScale(p, X1, Y1, Z1, X2, Y2, Z2, z1z1, z2z2, u1, u2, s1, s2, h, r0)
    ensures var a, c := ToAffine(X1, Y1, Z1, p), ToAffine(X2, Y2, Z2, p);
      && (h == 0 <==> a.x == c.x) && (r0 == 0 <==> a.y == c.y)
      && var z := Z1 * Z2;
         Rep(u1, a.x * (z * z), p) && Rep(s1, a.y * (z * z * z), p)
         && Rep(h, (c.x - a.x) * (z * z), p) && Rep(r0, (c.y - a.y) * (z * z * z), p)
  {
    var a, c := ToAffine(X1, Y1, Z1, p), ToAffine(X2, Y2, Z2, p);
    var z := Z1 * Z2;
    ScaledByZ(X1, Y1, Z1, p);
    ScaledByZ(X2, Y2, Z2, p);
    assert Z2 * Z1 == z;
    CrossX(p, X1, a.x, Z1, Z2, z2z2, u1);
    CrossX(p, X2, c.x, Z2, Z1, z1z1, u2);
    CrossY(p, Y1, a.y, Z1, Z2, z2z2, s1);
    CrossY(p, Y2, c.y, Z2, Z1, z1z1, s2);
    NonzeroProduct(p, Z1, Z2);
    NonzeroProduct(p, z, z);
    NonzeroProduct(p, z * z, z);
    SameScaleDifference(p, u1, u2, a.x, c.x, z * z, h);
    SameScaleDifference(p, s1, s2, a.y, c.y, z * z * z, r0);
  }

  /** The addition formula computes the chord sum. */
  lemma AdditionCorrect(p: int, X1: int, Y1: int, Z1: int, X2: int, Y2: int, Z2: int,
                        z1z1: int, z2z2: int, u1: int, u2: int, s1: int, s2: int, h: int, r0: int,
                        r: int, i2: int, j: int, v: int, X3: int, Y3: int, Z3: int)
    requires GoodPrime(p) && Z1 % p != 0 && Z2 % p != 0 && h != 0
    requires CommonScale(p, X1, Y1, Z1, X2, Y2, Z2, z1z1, z2z2, u1, u2, s1, s2, h, r0)
    requires Rep(r, 2 * r0, p) && Rep(i2, (2 * h) * (2 * h), p) && j == (h * i2) % p && v == (u1 * i2) % p
    requires Rep(X3, r * r - j - 2 * v, p) && Rep(Y3, r * (v - X3) - 2 * (s1 * j), p)
    requires Rep(Z3, ((Z1 + Z2) * (Z1 + Z2) - z1z1 - z2z2) * h, p)
    ensures ToAffine(X3, Y3, Z3, p) == Add(ToAffine(X1, Y1, Z1, p), ToAffine(X2, Y2, Z2, p), p)
  {
    var a, c := ToAffine(X1, Y1, Z1, p), ToAffine(X2, Y2, Z2, p);
    var z, d := Z1 * Z2, c.x - a.x;
    var w := AddScale(d, z);
    ComparisonCorrect(p, X1, Y1, Z1, X2, Y2, Z2, z1z1, z2z2, u1, u2, s1, s2, h, r0);
    ScaledByZ(X1, Y1, Z1, p);
    ScaledByZ(X2, Y2, Z2, p);
    ChordSolves(a, c, p);
    var s := ChordSlope(a, c, p);
    ThirdRep(s, a, c, p);
    var t := Third(s, a, c, p);
    SlopeRep(p, r0, r, c.y - a.y, d, s, z);
    ChordReps(p, a.x, a.y, d, z, u1, s1, h, i2, j, v);
    ChordXRep(p, s, a.x, c.x, w, r, j, v, X3, t.x);
    RepSelf(s * (a.x - t.x) - a.y, p);
    YRep(p, s, a.x, t.x, a.y, w, r, v, X3, 2 * (s1 * j), Y3, t.y);
    ChordZRep(p, Z1, Z2, z1z1, z2z2, h, d, Z3);
    NonzeroProduct(p, Z1, Z2);
    AddScaleNonzero(p, d, z);
    FromScaled(X3, Y3, Z3, t.x, t.y, w, p);
  }

  // ---------- from single field operations to the formulas ----------

  /** (a + a) mod p. */
  lemma TwiceSteps(p: int, a: int, e: int, r: int)
    requires p > 0 && Rep(a, e, p) && r == (a + a) % p
    ensures Rep(r, 2 * e, p)
  {
    RepAdd(a, e, a, e, p);
  }

  lemma AlphaSteps(p: int, X: int, delta: int, t1: int, t2: int, a0: int, a2: int, alpha: int)
    requires p > 0 && t1 == (X - delta) % p && t2 == (X + delta) % p && a0 == (t1 * t2) % p
    requires a2 == (a0 + a0) % p && alpha == (a2 + a0) % p
    ensures Rep(alpha, 3 * ((X - delta) * (X + delta)), p)
  {
    RepSelf(X - delta, p);
    RepSelf(X + delta, p);
    RepMul(t1, X - delta, t2, X + delta, p);
    var e := (X - delta) * (X + delta);
    TwiceSteps(p, a0, e, a2);
    RepAdd(a2, 2 * e, a0, e, p);
    assert 2 * e + e == 3 * e;
  }

  lemma FourTimesSteps(p: int, b: int, e: int, b2: int, b4: int)
    requires p > 0 && Rep(b, e, p) && b2 == (b + b) % p && b4 == (b2 + b2) % p
    ensures Rep(b4, 4 * e, p)
  {
    TwiceSteps(p, b, e, b2);
    TwiceSteps(p, b2, 2 * e, b4);
    assert 2 * (2 * e) == 4 * e;
  }

  lemma DoubleXSteps(p: int, alpha: int, beta4: int, sq: int, b8: int, X3: int)
    requires p > 0 && sq == (alpha * alpha) % p && b8 == (beta4 + beta4) % p && X3 == (sq - b8) % p
    ensures Rep(X3, alpha * alpha - 2 * beta4, p)
  {
    RepSelf(alpha * alpha, p);
    RepSelf(beta4, p);
    TwiceSteps(p, beta4, beta4, b8);
    RepAdd(sq, alpha * alpha, b8, 2 * beta4, p);
  }

  /** (Y + Z)^2 minus two terms, as both formulas compute 2YZ. */
  lemma CrossTermSteps(p: int, Y: int, Z: int, g: int, d: int, t: int, sq: int, u: int, r: int)
    requires p > 0 && t == (Y + Z) % p && sq == (t * t) % p && u == (sq - g) % p && r == (u - d) % p
    ensures Rep(r, (Y + Z) * (Y + Z) - g - d, p)
  {
    RepSelf(Y + Z, p);
    RepSelf(g, p);
    RepSelf(d, p);
    RepMul(t, Y + Z, t, Y + Z, p);
    var e := (Y + Z) * (Y + Z);
    RepAdd(sq, e, g, g, p);
    RepAdd(u, e - g, d, d, p);
  }

  lemma DoubleYSteps(p: int, alpha: int, beta4: int, X3: int, gamma: int,
                     t: int, m: int, g: int, g2: int, g4: int, g8: int, Y3: int)
    requires p > 0 && t == (beta4 - X3) % p && m == (alpha * t) % p && g == (gamma * gamma) % p
    requires g2 == (g + g) % p && g4 == (g2 + g2) % p && g8 == (g4 + g4) % p && Y3 == (m - g8) % p
    ensures Rep(Y3, alpha * (beta4 - X3) - 8 * (gamma * gamma), p)
  {
    RepSelf(beta4 - X3, p);
    RepSelf(alpha, p);
    RepMul(alpha, alpha, t, beta4 - X3, p);
    RepSelf(gamma * gamma, p);
    var e := gamma * gamma;
    FourTimesSteps(p, g, e, g2, g4);
    TwiceSteps(p, g4, 4 * e, g8);
    assert 2 * (4 * e) == 8 * e;
    RepAdd(m, alpha * (beta4 - X3), g8, 8 * e, p);
  }

  lemma SquareOfTwiceSteps(p: int, h: int, t: int, i2: int)
    requires p > 0 && t == (h + h) % p && i2 == (t * t) % p
    ensures Rep(i2, (2 * h) * (2 * h), p)
  {
    RepSelf(h, p);
    TwiceSteps(p, h, h, t);
    RepMul(t, 2 * h, t, 2 * h, p);
  }

  lemma AddXSteps(p: int, r: int, j: int, v: int, sq: int, u: int, v2: int, X3: int)
    requires p > 0 && sq == (r * r) % p && u == (sq - j) % p && v2 == (v + v) % p && X3 == (u - v2) % p
    ensures Rep(X3, r * r - j - 2 * v, p)
  {
    RepSelf(r * r, p);
    RepSelf(j, p);
    RepSelf(v, p);
    RepAdd(sq, r * r, j, j, p);
    TwiceSteps(p, v, v, v2);
    RepAdd(u, r * r - j, v2, 2 * v, p);
  }

  lemma AddYSteps(p: int, r: int, v: int, X3: int, s1: int, j: int, t: int, m: int, g: int, g2: int, Y3: int)
    requires p > 0 && t == (v - X3) % p && m == (r * t) % p && g == (s1 * j) % p
    requires g2 == (g + g) % p && Y3 == (m - g2) % p
    ensures Rep(Y3, r * (v - X3) - 2 * (s1 * j), p)
  {
    RepSelf(v - X3, p);
    RepSelf(r, p);
    RepMul(r, r, t, v - X3, p);
    RepSelf(s1 * j, p);
    TwiceSteps(p, g, s1 * j, g2);
    RepAdd(m, r * (v - X3), g2, 2 * (s1 * j), p);
  }

  lemma AddZSteps(p: int, c: int, e: int, h: int, Z3: int)
    requires p > 0 && Rep(c, e, p) && Z3 == (c * h) % p
    ensures Rep(Z3, e * h, p)
  {
    RepSelf(h, p);
    RepMul(c, e, h, h, p);
  }
}
