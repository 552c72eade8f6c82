/** The bitwise operators on natural numbers. */
module BitOps {
  import opened ModArith

  /** Bitwise and of natural numbers. */
  function BitAnd(x: nat, y: nat): (r: nat)
    decreases x
  {
    if x == 0 then 0 else 2 * BitAnd(x / 2, y / 2) + (if x % 2 == 1 && y % 2 == 1 then 1 else 0)
  }

  /** Bitwise or of natural numbers. */
  function BitOr(x: nat, y: nat): (r: nat)
    decreases x + y
  {
    if x == 0 && y == 0 then 0 else 2 * BitOr(x / 2, y / 2) + (if x % 2 == 1 || y % 2 == 1 then 1 else 0)
  }

  lemma {:induction false} AndOnes(x: nat, n: nat)
    requires x < Pow(2, n)
    ensures BitAnd(x, Pow(2, n) - 1) == x
    decreases x
  {
    if x > 0 {
      assert n > 0 && Pow(2, n) == 2 * Pow(2, n - 1);
      AndOnes(x / 2, n - 1);
      assert (Pow(2, n) - 1) / 2 == Pow(2, n - 1) - 1;
    }
  }

  lemma {:induction false} AndZero(x: nat)
    ensures BitAnd(x, 0) == 0
  {
    if x > 0 { AndZero(x / 2); }
  }

  lemma {:induction false} OrZero(x: nat)
    ensures BitOr(x, 0) == x && BitOr(0, x) == x
  {
    if x > 0 { OrZero(x / 2); }
  }

  /** What is left of x without its j low bits. */
  function Above(x: nat, j: nat): nat {
    PowPos(2, j);
    x / Pow(2, j)
  }

  /** And with a mask of ones above j zeros drops the low j bits. */
  lemma {:induction false} AndPrefix(x: nat, n: nat, j: nat)
    requires j <= n && x < Pow(2, n)
    ensures Pow(2, j) <= Pow(2, n) && Pow(2, j) > 0
    ensures BitAnd(x, Pow(2, n) - Pow(2, j)) == Mul(Above(x, j), Pow(2, j))
    decreases j
  {
    if j == 0 {
      AndOnes(x, n);
      MulUnit(x);
    } else {
      assert Pow(2, n) == 2 * Pow(2, n - 1) && Pow(2, j) == 2 * Pow(2, j - 1);
      AndPrefix(x / 2, n - 1, j - 1);
      var p, m := Pow(2, j - 1), Pow(2, n - 1) - Pow(2, j - 1);
      AndEven(x, m);
      HalfQuotient(x, p);
      MulTwice(x / (2 * p), p);
    }
  }

  lemma {:induction false} AndEven(x: nat, m: nat)
    ensures BitAnd(x, 2 * m) == 2 * BitAnd(x / 2, m)
  {
    assert 2 * m / 2 == m && 2 * m % 2 == 0;
  }

  lemma HalfQuotient(x: nat, p: nat)
    requires p > 0
    ensures x / 2 / p == x / (2 * p)
  {
    var q, r := x / 2 / p, x / 2 % p;
    assert x == 2 * (p * q + r) + x % 2;
    assert x == (2 * p) * q + (2 * r + x % 2);
    DivModUnique(x, 2 * p, q, 2 * r + x % 2);
  }

  lemma MulTwice(q: int, p: int)
    ensures 2 * Mul(q, p) == Mul(q, 2 * p)
  {
  }
}
