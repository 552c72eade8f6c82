/** Arithmetic modulo m: uniqueness of quotient and remainder, the ring laws of
    residues, divisibility and powers.  Shared by the elliptic-curve and the
    bignum modules. */
module ModArith {

  // ---------- products ----------

  /** Multiplication under a name, so that proofs about limb sums can treat
      products as atoms. */
  function Mul(x: int, y: int): (r: int)
  {
    x * y
  }

  lemma MulIs(x: int, y: int)
    ensures Mul(x, y) == x * y && Mul(y, x) == x * y
  {
  }

  lemma MulAdd(x: int, y: int, p: int)
    ensures Mul(x + y, p) == Mul(x, p) + Mul(y, p)
    ensures Mul(x - y, p) == Mul(x, p) - Mul(y, p)
    ensures Mul(p, x + y) == Mul(p, x) + Mul(p, y)
    ensures Mul(p, x - y) == Mul(p, x) - Mul(p, y)
  {
  }

  lemma MulUnit(x: int)
    ensures Mul(x, 1) == x && Mul(1, x) == x && Mul(0, x) == 0 && Mul(x, 0) == 0
  {
  }

  lemma MulAssoc(x: int, y: int, z: int)
    ensures Mul(Mul(x, y), z) == Mul(x, Mul(y, z))
  {
    assert (x * y) * z == x * (y * z);
  }

  lemma MulSwap(x: int, y: int)
    ensures Mul(x, y) == Mul(y, x)
  {
  }

  lemma MulNat(x: nat, y: nat)
    ensures Mul(x, y) >= 0
  {
  }

  lemma MulMono(x: int, y: int, p: nat)
    requires x <= y
    ensures Mul(x, p) <= Mul(y, p)
  {
    assert (y - x) * p >= 0;
  }

  // ---------- quotient and remainder ----------

  /** A product of positive integers is at least each factor. */
  lemma MulGrows(m: int, k: int)
    requires m > 0 && k > 0
    ensures m * k >= m
  {
    assert m * k == m + m * (k - 1);
    assert m * (k - 1) >= 0;
  }

  lemma MulBound(x: int, y: int, xMax: int, yMax: int)
    requires 0 <= x <= xMax && 0 <= y <= yMax
    ensures 0 <= x * y <= xMax * yMax
  {
    assert (xMax - x) * y >= 0;
    assert xMax * (yMax - y) >= 0;
  }

  /** Quotient and remainder are the only pair of their kind. */
  lemma DivModUnique(x: int, m: int, q: int, r: int)
    requires m > 0 && 0 <= r < m && x == m * q + r
    ensures x / m == q && x % m == r
  {
    var d := x / m;
    var s := x % m;
    assert x == m * d + s;
    assert m * (q - d) == s - r;
    assert m * (d - q) == r - s;
    if q > d {
      MulGrows(m, q - d);
    } else if q < d {
      MulGrows(m, d - q);
    }
  }

  lemma DivModMul(x: int, m: int)
    requires m > 0
    ensures x == Mul(m, x / m) + x % m && 0 <= x % m < m
  {
  }

  lemma DivModUniqueMul(x: int, m: int, q: int, r: int)
    requires m > 0 && 0 <= r < m && x == Mul(m, q) + r
    ensures x / m == q && x % m == r
  {
    DivModUnique(x, m, q, r);
  }

  lemma ModAddMultiple(x: int, m: int, k: int)
    requires m > 0
    ensures (x + m * k) % m == x % m
    ensures (x - m * k) % m == x % m
  {
    assert x + m * k == m * (x / m + k) + x % m;
    DivModUnique(x + m * k, m, x / m + k, x % m);
    assert x - m * k == m * (x / m - k) + x % m;
    DivModUnique(x - m * k, m, x / m - k, x % m);
  }

  lemma ModSmall(x: int, m: int)
    requires 0 <= x < m
    ensures x % m == x && x / m == 0
  {
    DivModUnique(x, m, 0, x);
  }

  /** Two numbers are congruent exactly when they differ by a multiple of m. */
  lemma CongFromDiff(x: int, y: int, m: int, k: int)
    requires m > 0 && x == y + m * k
    ensures x % m == y % m
  {
    ModAddMultiple(y, m, k);
  }

  lemma DiffFromCong(x: int, y: int, m: int) returns (k: int)
    requires m > 0 && x % m == y % m
    ensures x == y + m * k
  {
    k := x / m - y / m;
    assert x == m * (x / m) + x % m;
    assert y == m * (y / m) + y % m;
    assert m * k == m * (x / m) - m * (y / m);
  }

  lemma AddCong(a: int, b: int, c: int, d: int, m: int)
    requires m > 0 && a % m == b % m && c % m == d % m
    ensures (a + c) % m == (b + d) % m
    ensures (a - c) % m == (b - d) % m
  {
    var k := DiffFromCong(a, b, m);
    var l := DiffFromCong(c, d, m);
    assert m * (k + l) == m * k + m * l;
    CongFromDiff(a + c, b + d, m, k + l);
    assert m * (k - l) == m * k - m * l;
    CongFromDiff(a - c, b - d, m, k - l);
  }

  lemma MulCong(a: int, b: int, c: int, d: int, m: int)
    requires m > 0 && a % m == b % m && c % m == d % m
    ensures (a * c) % m == (b * d) % m
  {
    var k := DiffFromCong(a, b, m);
    var l := DiffFromCong(c, d, m);
    calc {
      a * c;
      (b + m * k) * (d + m * l);
      b * d + b * (m * l) + (m * k) * d + (m * k) * (m * l);
      { assert b * (m * l) == m * (b * l); assert (m * k) * d == m * (k * d);
        assert (m * k) * (m * l) == m * (k * (m * l)); }
      b * d + m * (b * l) + m * (k * d) + m * (k * (m * l));
      b * d + m * (b * l + k * d + k * (m * l));
    }
    CongFromDiff(a * c, b * d, m, b * l + k * d + k * (m * l));
  }

  lemma ModMod(a: int, m: int)
    requires m > 0
    ensures (a % m) % m == a % m
  {
    ModSmall(a % m, m);
  }

  /** Reducing the factors first does not change a reduced product. */
  lemma MulReduce(a: int, b: int, m: int)
    requires m > 0
    ensures ((a % m) * b) % m == (a * b) % m
    ensures (a * (b % m)) % m == (a * b) % m
    ensures ((a % m) * (b % m)) % m == (a * b) % m
  {
    ModMod(a, m);
    ModMod(b, m);
    MulCong(a % m, a, b, b, m);
    MulCong(a, a, b % m, b, m);
    MulCong(a % m, a, b % m, b, m);
  }

  // ---------- divisibility ----------

  predicate Divides(d: int, x: int)
    requires d > 0
  {
    x % d == 0
  }

  lemma DividesWitness(d: int, x: int) returns (k: int)
    requires d > 0 && Divides(d, x)
    ensures x == d * k
  {
    k := x / d;
  }

  lemma DividesMultiple(d: int, k: int)
    requires d > 0
    ensures Divides(d, d * k)
  {
    assert d * k == d * k + 0;
    DivModUnique(d * k, d, k, 0);
  }

  lemma DividesSum(d: int, x: int, y: int)
    requires d > 0 && Divides(d, x) && Divides(d, y)
    ensures Divides(d, x + y) && Divides(d, x - y)
  {
    ModSmall(0, d);
    AddCong(x, 0, y, 0, d);
  }

  lemma DividesProduct(d: int, x: int, k: int)
    requires d > 0 && Divides(d, x)
    ensures Divides(d, x * k) && Divides(d, k * x)
  {
    var q := DividesWitness(d, x);
    assert x * k == d * (q * k);
    DividesMultiple(d, q * k);
    assert k * x == x * k;
  }

  lemma CongIffDivides(x: int, y: int, m: int)
    requires m > 0
    ensures x % m == y % m <==> Divides(m, x - y)
  {
    if x % m == y % m {
      var k := DiffFromCong(x, y, m);
      DividesMultiple(m, k);
      assert x - y == m * k;
    }
    if Divides(m, x - y) {
      var k := DividesWitness(m, x - y);
      CongFromDiff(x, y, m, k);
    }
  }

  /** A multiple of m that lies strictly between -m and m is zero. */
  lemma SmallMultipleIsZero(x: int, m: int)
    requires m > 0 && Divides(m, x) && -m < x < m
    ensures x == 0
  {
    var k := DividesWitness(m, x);
    assert m * (-k) == -(m * k);
    if k > 0 { MulGrows(m, k); }
    if k < 0 { MulGrows(m, -k); }
  }

  // ---------- powers ----------

  function Pow(b: int, e: nat): (r: int)
  {
    if e == 0 then 1 else b * Pow(b, e - 1)
  }

  lemma {:induction false} PowAdd(b: int, x: nat, y: nat)
    ensures Pow(b, x + y) == Pow(b, x) * Pow(b, y)
  {
    if x > 0 {
      PowAdd(b, x - 1, y);
      assert Pow(b, x + y) == b * Pow(b, (x - 1) + y);
      assert b * (Pow(b, x - 1) * Pow(b, y)) == (b * Pow(b, x - 1)) * Pow(b, y);
    }
  }

  lemma {:induction false} PowOne(e: nat)
    ensures Pow(1, e) == 1
  {
    if e > 0 { PowOne(e - 1); }
  }

  lemma MulShuffle(a: int, b: int, p: int, q: int)
    ensures (a * b) * (p * q) == (a * p) * (b * q)
  {
    assert (a * b) * (p * q) == a * (b * (p * q));
    assert b * (p * q) == p * (b * q);
    assert a * (p * (b * q)) == (a * p) * (b * q);
  }

  lemma {:induction false} PowMulBase(a: int, b: int, e: nat)
    ensures Pow(a * b, e) == Pow(a, e) * Pow(b, e)
  {
    if e > 0 {
      PowMulBase(a, b, e - 1);
      MulShuffle(a, b, Pow(a, e - 1), Pow(b, e - 1));
    }
  }

  lemma {:induction false} PowPos(b: int, e: nat)
    requires b > 0
    ensures Pow(b, e) > 0
  {
    if e > 0 {
      PowPos(b, e - 1);
      MulGrows(b, Pow(b, e - 1));
    }
  }

  lemma {:induction false} PowCong(a: int, b: int, e: nat, m: int)
    requires m > 0 && a % m == b % m
    ensures Pow(a, e) % m == Pow(b, e) % m
  {
    if e > 0 {
      PowCong(a, b, e - 1, m);
      MulCong(a, b, Pow(a, e - 1), Pow(b, e - 1), m);
    }
  }

  /** One step of left-to-right square-and-multiply on the exponent. */
  lemma PowDouble(b: int, e: nat)
    ensures Pow(b, 2 * e) == Pow(b, e) * Pow(b, e)
    ensures Pow(b, 2 * e + 1) == Pow(b, e) * Pow(b, e) * b
  {
    PowAdd(b, e, e);
    assert 2 * e == e + e;
    assert Pow(b, 2 * e + 1) == b * Pow(b, 2 * e);
  }

  // ---------- binary digits ----------

  /** Dividing twice is dividing by the product. */
  lemma DivDiv(x: int, a: int, b: int)
    requires a > 0 && b > 0
    ensures a * b > 0 && x / (a * b) == (x / a) / b
  {
    MulGrows(a, b);
    MulIs(a, b);
    var q, r := x / a, x % a;
    var q2, r2 := q / b, q % b;
    DivModMul(x, a);
    DivModMul(q, b);
    hide Mul;
    MulAdd(Mul(b, q2), r2, a);
    MulAssoc(a, b, q2);
    MulMono(r2 + 1, b, a);
    MulAdd(r2, 1, a);
    MulUnit(a);
    MulSwap(a, b);
    MulSwap(a, r2);
    DivModUniqueMul(x, Mul(a, b), q2, Mul(a, r2) + r);
  }

  /** Bit i of a natural number. */
  ghost function BitOf(x: nat, i: nat): (b: nat)
    ensures b <= 1
  {
    PowPos(2, i);
    (x / Pow(2, i)) % 2
  }

  /** Dropping one bit fewer brings bit i back in at the bottom. */
  lemma ShiftStep(x: nat, i: nat)
    ensures Pow(2, i) > 0 && Pow(2, i + 1) > 0
    ensures x / Pow(2, i) == 2 * (x / Pow(2, i + 1)) + BitOf(x, i)
  {
    PowPos(2, i);
    DivDiv(x, Pow(2, i), 2);
    assert Pow(2, i + 1) == Pow(2, i) * 2;
  }

  lemma ShiftAll(x: nat, n: nat)
    requires x < Pow(2, n)
    ensures Pow(2, n) > 0 && x / Pow(2, n) == 0 && x / Pow(2, 0) == x
  {
    ModSmall(x, Pow(2, n));
  }
}
