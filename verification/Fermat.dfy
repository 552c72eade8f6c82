/** Primes: Euclid's lemma and Fermat's little theorem, which the modular
    inverse by exponentiation rests on. */
module Fermat {
  import opened ModArith

  ghost predicate Prime(p: int) {
    p > 1 && forall d :: 1 < d < p ==> p % d != 0
  }

  /** A prime that divides a product of which it does not divide one factor
      divides the other. */
  lemma {:induction false} EuclidSmall(p: int, a: int, b: int)
    requires Prime(p) && 0 < a < p && Divides(p, a * b)
    ensures Divides(p, b)
    decreases a
  {
    if a == 1 {
      assert a * b == b;
    } else {
      var q, r := p / a, p % a;
      assert r != 0;
      assert r == p - a * q;
      DividesMultiple(p, b);
      DividesProduct(p, a * b, q);
      assert r * b == p * b - (a * b) * q by {
        assert (p - a * q) * b == p * b - (a * q) * b;
        assert (a * q) * b == (a * b) * q;
      }
      DividesSum(p, p * b, (a * b) * q);
      EuclidSmall(p, r, b);
    }
  }

  lemma Euclid(p: int, a: int, b: int)
    requires Prime(p) && Divides(p, a * b)
    ensures Divides(p, a) || Divides(p, b)
  {
    if !Divides(p, a) {
      MulReduce(a, b, p);
      EuclidSmall(p, a % p, b);
    }
  }

  /** Cancelling a factor that the prime does not divide. */
  lemma CancelFactor(p: int, a: int, x: int, y: int)
    requires Prime(p) && a % p != 0 && (a * x) % p == (a * y) % p
    ensures x % p == y % p
  {
    CongIffDivides(a * x, a * y, p);
    assert a * x - a * y == a * (x - y);
    Euclid(p, a, x - y);
    CongIffDivides(x, y, p);
  }

  // ---------- Fermat's little theorem ----------

  ghost function Multiples(a: int, p: int, k: nat): set<int>
    requires p > 0
  {
    if k == 0 then {} else Multiples(a, p, k - 1) + {(a * k) % p}
  }

  /** The product of the members of s among 1..n. */
  ghost function Product(s: set<int>, n: nat): int
  {
    if n == 0 then 1 else (if n in s then n else 1) * Product(s, n - 1)
  }

  ghost function Factorial(n: nat): int
  {
    if n == 0 then 1 else n * Factorial(n - 1)
  }

  ghost function UpTo(n: nat): set<int> {
    if n == 0 then {} else UpTo(n - 1) + {n}
  }

  lemma {:induction false} UpToSize(n: nat)
    ensures forall x :: x in UpTo(n) <==> 1 <= x <= n
    ensures |UpTo(n)| == n
  {
    if n > 0 {
      UpToSize(n - 1);
    }
  }

  lemma {:induction false} MultiplesMember(a: int, p: int, k: nat, x: int) returns (i: nat)
    requires p > 0 && x in Multiples(a, p, k)
    ensures 1 <= i <= k && x == (a * i) % p
  {
    if x == (a * k) % p {
      i := k;
    } else {
      i := MultiplesMember(a, p, k - 1, x);
    }
  }

  lemma {:induction false} MultiplesFresh(a: int, p: int, k: nat)
    requires Prime(p) && a % p != 0 && 1 <= k < p
    ensures (a * k) % p !in Multiples(a, p, k - 1)
    ensures 1 <= (a * k) % p < p
  {
    if (a * k) % p in Multiples(a, p, k - 1) {
      var i := MultiplesMember(a, p, k - 1, (a * k) % p);
      CancelFactor(p, a, k, i);
      ModSmall(k, p);
      ModSmall(i, p);
    }
    if (a * k) % p == 0 {
      Euclid(p, a, k);
      ModSmall(k, p);
    }
  }

  lemma {:induction false} ProductSkip(s: set<int>, x: int, n: nat)
    requires n < x
    ensures Product(s + {x}, n) == Product(s, n)
  {
    if n > 0 { ProductSkip(s, x, n - 1); }
  }

  lemma {:induction false} ProductInsert(s: set<int>, x: int, n: nat)
    requires 1 <= x <= n && x !in s
    ensures Product(s + {x}, n) == x * Product(s, n)
  {
    if n == x {
      ProductSkip(s, x, n - 1);
    } else {
      ProductInsert(s, x, n - 1);
      var f := if n in s then n else 1;
      assert f * (x * Product(s, n - 1)) == x * (f * Product(s, n - 1));
    }
  }

  lemma {:induction false} ProductEmpty(n: nat)
    ensures Product({}, n) == 1
  {
    if n > 0 { ProductEmpty(n - 1); }
  }

  lemma {:induction false} ProductAll(s: set<int>, n: nat)
    requires forall x :: 1 <= x <= n ==> x in s
    ensures Product(s, n) == Factorial(n)
  {
    if n > 0 { ProductAll(s, n - 1); }
  }

  /** The first k multiples of a have k distinct residues, whose product is
      a^k * k! modulo p. */
  lemma {:induction false} MultiplesProduct(a: int, p: int, k: nat)
    requires Prime(p) && a % p != 0 && k < p
    ensures Multiples(a, p, k) <= UpTo(p - 1) && |Multiples(a, p, k)| == k
    ensures Product(Multiples(a, p, k), p - 1) % p == (Pow(a, k) * Factorial(k)) % p
  {
    if k == 0 {
      ProductEmpty(p - 1);
    } else {
      MultiplesProduct(a, p, k - 1);
      MultiplesFresh(a, p, k);
      UpToSize(p - 1);
      var s, x := Multiples(a, p, k - 1), (a * k) % p;
      ProductInsert(s, x, p - 1);
      var before, target := Product(s, p - 1), Pow(a, k - 1) * Factorial(k - 1);
      MulReduce(a * k, before, p);
      MulCong(a * k, a * k, before, target, p);
      MulShuffle(a, k, Pow(a, k - 1), Factorial(k - 1));
    }
  }

  lemma {:induction false} FactorialNotDivisible(p: int, n: nat)
    requires Prime(p) && n < p
    ensures Factorial(n) % p != 0
  {
    if n > 0 {
      FactorialNotDivisible(p, n - 1);
      ModSmall(n, p);
      if Factorial(n) % p == 0 {
        Euclid(p, n, Factorial(n - 1));
      }
    } else {
      ModSmall(1, p);
    }
  }

  lemma SubsetOfSameSize(s: set<int>, n: nat)
    requires s <= UpTo(n) && |s| == n
    ensures s == UpTo(n)
  {
    UpToSize(n);
    var rest := UpTo(n) - s;
    assert UpTo(n) == s + rest;
    assert |rest| == 0;
  }

  /** Fermat's little theorem. */
  lemma LittleTheorem(a: int, p: int)
    requires Prime(p) && a % p != 0
    ensures Pow(a, p - 1) % p == 1
  {
    var n := p - 1;
    MultiplesProduct(a, p, n);
    var s := Multiples(a, p, n);
    SubsetOfSameSize(s, n);
    UpToSize(n);
    ProductAll(s, n);
    FactorialNotDivisible(p, n);
    var f := Factorial(n);
    assert (f * 1) % p == (f * Pow(a, n)) % p by { assert Pow(a, n) * f == f * Pow(a, n); }
    CancelFactor(p, f, 1, Pow(a, n));
    ModSmall(1, p);
  }

  /** a^(p-2) is the inverse of a. */
  lemma FermatInverse(a: int, p: int)
    requires Prime(p) && a % p != 0
    ensures (a * (Pow(a, p - 2) % p)) % p == 1
  {
    LittleTheorem(a, p);
    MulReduce(a, Pow(a, p - 2), p);
    assert Pow(a, p - 1) == a * Pow(a, p - 2);
  }
}
