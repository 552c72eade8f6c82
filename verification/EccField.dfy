/** kernel/ecc.h, the Montgomery field layer: CIOS multiplication, modular
    addition and subtraction, the context constants and the Fermat inverse. */
module EccField {
  import opened ModArith
  import opened Fermat
  import opened Limbs

  /** ecc_field_t: modulus, -m^-1 mod 2^32, and R^2 mod m with R = 2^(32n). */
  datatype Field = Field(m: seq<Limb>, m0: Limb, rr: seq<Limb>) {
    ghost function M(): nat { Val(m) }
    ghost function R(): nat { WPow(|m|) }

    /** What ecc_mm demands of its context. */
    ghost predicate Ready() {
      && |m| > 0
      && M() % 2 == 1 && M() > 1
      && (m[0] * m0 + 1) % 0x1_0000_0000 == 0
    }

    /** A context from ecc_curve_prepare. */
    ghost predicate Prepared() {
      && Ready()
      && |rr| == |m|
      && Val(rr) == (R() * R()) % M()
    }
  }

  // ---------- ecc_mm: the first inner loop ----------

  /** A multiply-accumulate fits 64 bits and its carry fits 32. */
  lemma MulAddFits(t: Limb, x: Limb, y: Limb, c: int)
    requires 0 <= c < 0x1_0000_0000
    ensures 0 <= (t + x * y + c) / 0x1_0000_0000 < 0x1_0000_0000
  {
    MulBound(x, y, 0xFFFF_FFFF, 0xFFFF_FFFF);
    CarryBound(t + x * y + c);
  }

  lemma CarryBound(s: int)
    requires 0 <= s < 0x1_0000_0000 * 0x1_0000_0000
    ensures 0 <= s / 0x1_0000_0000 < 0x1_0000_0000
  {
  }

  /** Column j of the accumulation t += a * y, at weight p. */
  lemma RowStep(t: int, x: int, y: int, c: int, p: int)
    ensures var s := t + x * y + c;
      Mul(t, p) + Mul(Mul(x, p), y) + Mul(c, p)
      == Mul(s % 0x1_0000_0000, p) + Mul(s / 0x1_0000_0000, 0x1_0000_0000 * p)
  {
    MulIs(x, y);
    hide Mul;
    var xy := Mul(x, y);
    MulAdd(t + xy, c, p);
    MulAdd(t, xy, p);
    MulSwap(x, y);
    MulAssoc(y, x, p);
    MulSwap(y, Mul(x, p));
    CarryStep(t + xy + c, p);
  }

  /** After |done| columns of t += a * y: finished limbs and pending carry. */
  ghost predicate RowInv(done: seq<Limb>, t: seq<Limb>, a: seq<Limb>, y: Limb, c: int)
    requires |done| <= |a| && |done| <= |t|
  {
    && 0 <= c < 0x1_0000_0000
    && Val(done) + Mul(c, WPow(|done|)) == Val(t[..|done|]) + Mul(Val(a[..|done|]), y)
  }

  lemma RowInvStep(done: seq<Limb>, t: seq<Limb>, a: seq<Limb>, y: Limb, c: int)
    requires |done| < |a| && |done| < |t|
    requires RowInv(done, t, a, y, c)
    ensures var s := t[|done|] + a[|done|] * y + c;
      RowInv(done + [s % 0x1_0000_0000], t, a, y, s / 0x1_0000_0000)
  {
    hide Mul, Val;
    var j := |done|;
    var p := WPow(j);
    var s := t[j] + a[j] * y + c;
    MulAddFits(t[j], a[j], y, c);
    RowStep(t[j], a[j], y, c, p);
    ValPrefix(t, j);
    ValPrefix(a, j);
    ValAppend(done, s % 0x1_0000_0000);
    MulAdd(Val(a[..j]), Mul(a[j], p), y);
  }

  lemma RowInvStart(t: seq<Limb>, a: seq<Limb>, y: Limb)
    ensures RowInv([], t, a, y, 0)
  {
  }

  /** The two limbs above the row take the last carry. */
  lemma RowTop(done: seq<Limb>, t: seq<Limb>, a: seq<Limb>, y: Limb, c: int)
    requires |t| == |a| + 2 && |done| == |a| && RowInv(done, t, a, y, c)
    ensures var s := t[|a|] + c;
      0 <= s / 0x1_0000_0000 <= 1 &&
      Val(done + [s % 0x1_0000_0000] + [s / 0x1_0000_0000]) == Val(t[..|a| + 1]) + Mul(Val(a), y)
  {
    hide Mul, Val;
    var n := |a|;
    var x: int := t[n];
    var s := x + c;
    var lo, hi := s % 0x1_0000_0000, s / 0x1_0000_0000;
    ValAppend(done, lo);
    ValAppend(done + [lo], hi);
    CarryStep(s, WPow(n));
    ValWhole(a);
    ValPrefix(t, n);
    MulAdd(x, c, WPow(n));
  }

  /** The first inner loop of ecc_mm: t += a * y, using the two limbs above. */
  method MulAddRow(t: array<Limb>, a: array<Limb>, y: Limb)
    requires t.Length == a.Length + 2 && t != a
    modifies t
    ensures Val(t[..]) == old(Val(t[..a.Length + 1])) + Mul(Val(a[..]), y)
  {
    hide *;
    var n := a.Length;
    ghost var s0, sa := t[..], a[..];
    var c: int := 0;
    RowInvStart(s0, sa, y);
    assert t[..0] == [];
    for j := 0 to n
      invariant 0 <= c < 0x1_0000_0000
      invariant t[j..] == s0[j..]
      invariant RowInv(t[..j], s0, sa, y, c)
    {
      assert t[j] == t[j..][0] == s0[j];
      ghost var done := t[..j];
      var s := t[j] + a[j] * y + c;
      RowInvStep(done, s0, sa, y, c);
      MulAddFits(t[j], a[j], y, c);
      t[j] := s % 0x1_0000_0000;
      c := s / 0x1_0000_0000;
      assert t[..j + 1] == done + [s % 0x1_0000_0000];
      assert t[j + 1..] == s0[j..][1..] == s0[j + 1..];
    }
    assert t[n] == t[n..][0] == s0[n];
    ghost var done := t[..n];
    var s := t[n] + c;
    RowTop(done, s0, sa, y, c);
    t[n] := s % 0x1_0000_0000;
    t[n + 1] := s / 0x1_0000_0000;
    assert t[..] == done + [s % 0x1_0000_0000] + [s / 0x1_0000_0000];
  }

  // ---------- ecc_mm: the second inner loop ----------

  /** The chosen quotient digit makes the low word vanish. */
  lemma LowWordVanishes(m: Limb, m0: Limb, t: Limb)
    requires (m * m0 + 1) % 0x1_0000_0000 == 0
    ensures var mq := (t * m0) % 0x1_0000_0000;
      (t + mq * m) % 0x1_0000_0000 == 0
  {
    var w := 0x1_0000_0000;
    var mq := (t * m0) % w;
    MulReduce(t * m0, m, w);
    assert (t * m0) * m == t * (m * m0);
    AddCong(t, t, mq * m, t * (m * m0), w);
    assert t + t * (m * m0) == t * (m * m0 + 1);
    DividesProduct(w, m * m0 + 1, t);
  }

  /** After j columns of t = (t + mq * m) / 2^32: j - 1 limbs are finished. */
  ghost predicate ReduceInv(done: seq<Limb>, t: seq<Limb>, m: seq<Limb>, mq: Limb, c: int)
    requires |done| + 1 <= |m| && |done| + 1 <= |t|
  {
    && 0 <= c < 0x1_0000_0000
    && 0x1_0000_0000 * Val(done) + Mul(c, WPow(|done| + 1))
       == Val(t[..|done| + 1]) + Mul(Val(m[..|done| + 1]), mq)
  }

  lemma ReduceInvStart(t: seq<Limb>, m: seq<Limb>, mq: Limb)
    requires |m| > 0 && |t| > 0 && (t[0] + mq * m[0]) % 0x1_0000_0000 == 0
    ensures ReduceInv([], t, m, mq, (t[0] + mq * m[0]) / 0x1_0000_0000)
  {
    var s := t[0] + mq * m[0];
    MulAddFits(t[0], mq, m[0], 0);
    assert t[..1] == [t[0]] && m[..1] == [m[0]];
    ValSingle([t[0]]);
    ValSingle([m[0]]);
    assert WPow(1) == 0x1_0000_0000 * WPow(0);
    MulIs(m[0], mq);
  }

  lemma ReduceInvStep(done: seq<Limb>, t: seq<Limb>, m: seq<Limb>, mq: Limb, c: int)
    requires |done| + 1 < |m| && |done| + 1 < |t|
    requires ReduceInv(done, t, m, mq, c)
    ensures var j := |done| + 1;
      var s := t[j] + mq * m[j] + c;
      ReduceInv(done + [s % 0x1_0000_0000], t, m, mq, s / 0x1_0000_0000)
  {
    MulIs(mq, m[|done| + 1]);
    hide Mul, Val;
    var j := |done| + 1;
    var p := WPow(j);
    var s := t[j] + mq * m[j] + c;
    MulSwap(mq, m[j]);
    MulAddFits(t[j], mq, m[j], c);
    RowStep(t[j], m[j], mq, c, p);
    ValPrefix(t, j);
    ValPrefix(m, j);
    ValAppend(done, s % 0x1_0000_0000);
    MulWord(s % 0x1_0000_0000, WPow(j - 1));
    MulAdd(Val(m[..j]), Mul(m[j], p), mq);
  }

  /** A number of n + 2 limbs by its two top limbs. */
  lemma TwoTopLimbs(t: seq<Limb>, n: nat)
    requires |t| == n + 2
    ensures Val(t) == Val(t[..n]) + Mul(t[n], WPow(n)) + 0x1_0000_0000 * Mul(t[n + 1], WPow(n))
  {
    hide Mul, Val, WPow;
    ValWhole(t);
    ValPrefix(t, n);
    ValPrefix(t, n + 1);
    WPowSucc(n);
    MulWord(t[n + 1], WPow(n));
  }

  /** Splitting a column sum into low word and carry, at weight p. */
  lemma SplitColumn(x: int, c: int, lo: int, hi: int, p: int)
    requires x + c == lo + 0x1_0000_0000 * hi
    ensures Mul(x, p) + Mul(c, p) == Mul(lo, p) + 0x1_0000_0000 * Mul(hi, p)
  {
    hide Mul;
    MulAdd(x, c, p);
    MulAdd(lo, 0x1_0000_0000 * hi, p);
    MulWord(p, hi);
  }

  /** A limb appended one place lower, scaled by the word base. */
  lemma AppendScaled(done: seq<Limb>, lo: Limb)
    ensures 0x1_0000_0000 * Val(done + [lo]) == 0x1_0000_0000 * Val(done) + Mul(lo, WPow(|done| + 1))
  {
    hide Mul, Val, WPow;
    WPowSucc(|done|);
    MulWord(lo, WPow(|done|));
    ValAppend(done, lo);
  }

  /** The two limbs above the row, taken together with the last carry c. */
  lemma ReduceTopSum(done: seq<Limb>, t: seq<Limb>, m: seq<Limb>, mq: Limb, c: int, lo: Limb, hi: int)
    requires 0 < |m| == |done| + 1 && |t| == |m| + 2
    requires ReduceInv(done, t, m, mq, c)
    requires t[|m|] + c == lo + 0x1_0000_0000 * hi
    ensures 0x1_0000_0000 * (Val(done + [lo]) + Mul(t[|m| + 1] + hi, WPow(|m|))) == Val(t) + Mul(Val(m), mq)
  {
    assert 0x1_0000_0000 * Val(done) + Mul(c, WPow(|m|)) == Val(t[..|m|]) + Mul(Val(m), mq) by {
      ValWhole(m);
    }
    hide *;
    TwoTopLimbs(t, |m|);
    SplitColumn(t[|m|], c, lo, hi, WPow(|m|));
    AppendScaled(done, lo);
    var y: int := t[|m| + 1];
    MulAdd(y, hi, WPow(|m|));
  }

  lemma SmallTop(v: nat, top: nat, p: nat, total: int)
    requires 0x1_0000_0000 * (v + Mul(top, p)) == total < 0x1_0000_0000 * (2 * p)
    ensures top <= 1
  {
    hide Mul;
    MulTwo(p);
    if top >= 2 {
      MulMono(2, top, p);
    }
  }

  lemma ReduceTop(done: seq<Limb>, t: seq<Limb>, m: seq<Limb>, mq: Limb, c: int, lo: Limb, hi: nat)
    requires 0 < |m| == |done| + 1 && |t| == |m| + 2
    requires ReduceInv(done, t, m, mq, c)
    requires t[|m|] + c == lo + 0x1_0000_0000 * hi
    requires Val(t) + Mul(Val(m), mq) < 0x1_0000_0000 * (2 * WPow(|m|))
    ensures t[|m| + 1] + hi <= 1
    ensures 0x1_0000_0000 * Val(done + [lo] + [t[|m| + 1] + hi]) == Val(t) + Mul(Val(m), mq)
  {
    hide *;
    var top := t[|m| + 1] + hi;
    var d := done + [lo];
    ReduceTopSum(done, t, m, mq, c, lo, hi);
    SmallTop(Val(d), top, WPow(|m|), Val(t) + Mul(Val(m), mq));
    ValAppend(d, top);
    assert |d| == |m|;
  }

  lemma MulTwo(p: int)
    ensures Mul(2, p) == 2 * p
  {
  }

  lemma WPowSucc(n: nat)
    ensures WPow(n + 1) == 0x1_0000_0000 * WPow(n)
  {
  }

  lemma ReadyMeans(f: Field)
    requires f.Ready()
    ensures f.M() > 2 && f.M() == Val(f.m) && f.R() == WPow(|f.m|) && |f.m| > 0
    ensures (f.m[0] * f.m0 + 1) % 0x1_0000_0000 == 0
  {
  }

  /** One Montgomery step: t = (t + mq * m) / 2^32 for the digit mq that makes
      the sum divisible. */
  method ReduceRow(f: Field, t: array<Limb>) returns (ghost mq: Limb)
    requires f.Ready() && t.Length == |f.m| + 2
    requires Val(t[..]) + Mul(f.M(), 0xFFFF_FFFF) < 0x1_0000_0000 * (2 * f.R())
    modifies t
    ensures 0x1_0000_0000 * Val(t[..|f.m| + 1]) == old(Val(t[..])) + Mul(f.M(), mq)
  {
    hide *;
    ReadyMeans(f);
    var n := |f.m|;
    ghost var s0 := t[..];
    var digit: Limb := (t[0] * f.m0) % 0x1_0000_0000;
    mq := digit;
    LowWordVanishes(f.m[0], f.m0, t[0]);
    MulAddFits(0, digit, f.m[0], t[0]);
    var c: int := (t[0] + digit * f.m[0]) / 0x1_0000_0000;
    ReduceInvStart(s0, f.m, digit);
    assert t[..0] == [];
    for j := 1 to n
      invariant 0 <= c < 0x1_0000_0000
      invariant t[j..] == s0[j..]
      invariant ReduceInv(t[..j - 1], s0, f.m, digit, c)
    {
      assert t[j] == t[j..][0] == s0[j];
      ghost var done := t[..j - 1];
      var s := t[j] + digit * f.m[j] + c;
      ReduceInvStep(done, s0, f.m, digit, c);
      MulAddFits(t[j], digit, f.m[j], c);
      t[j - 1] := s % 0x1_0000_0000;
      c := s / 0x1_0000_0000;
      assert t[..j] == done + [s % 0x1_0000_0000];
      assert t[j + 1..] == s0[j..][1..] == s0[j + 1..];
    }
    ghost var done := t[..n - 1];
    assert t[n] == t[n..][0] == s0[n] && t[n + 1] == t[n..][1] == s0[n + 1];
    MulSwap(f.M(), digit);
    MulSwap(f.M(), 0xFFFF_FFFF);
    MulMono(digit, 0xFFFF_FFFF, f.M());
    var s := t[n] + c;
    ReduceTop(done, s0, f.m, digit, c, s % 0x1_0000_0000, s / 0x1_0000_0000);
    StoreTop(t, n, s);
  }

  /** The two stores behind the second inner loop. */
  method StoreTop(t: array<Limb>, n: nat, s: nat)
    requires n > 0 && t.Length == n + 2 && t[n + 1] + s / 0x1_0000_0000 <= 1
    modifies t
    ensures t[..n + 1] == old(t[..n - 1]) + [s % 0x1_0000_0000] + [old(t[n + 1]) + s / 0x1_0000_0000]
  {
    t[n - 1] := s % 0x1_0000_0000;
    t[n] := (t[n + 1] + s / 0x1_0000_0000) % 0x1_0000_0000;
  }

  // ---------- ecc_mm: the whole multiplication ----------

  /** The accumulator after i outer steps: below 2m, and scaled by 2^(32i) it
      is a times the low limbs of b, up to a multiple q of m. */
  ghost predicate MontInv(f: Field, t: seq<Limb>, a: nat, b: seq<Limb>, i: nat, q: int)
    requires i <= |b|
  {
    && Val(t) < 2 * f.M()
    && Mul(Val(t), WPow(i)) == Mul(a, Val(b[..i])) + Mul(f.M(), q)
  }

  lemma MontInvStart(f: Field, t: seq<Limb>, a: nat, b: seq<Limb>)
    requires f.Ready() && forall i :: 0 <= i < |t| ==> t[i] == 0
    ensures MontInv(f, t, a, b, 0, 0)
  {
    ValZeros(t);
  }

  lemma MulMaxLimb(x: int)
    ensures Mul(0xFFFF_FFFF, x) == 0xFFFF_FFFF * x && Mul(x, 0xFFFF_FFFF) == 0xFFFF_FFFF * x
  {
  }

  /** Adding a * bi to an accumulator below 2m leaves room for the reduction. */
  lemma RowRoom(t: nat, a: nat, m: nat, y: Limb, r: nat)
    requires t < 2 * m && a < m < r
    ensures t + Mul(a, y) + Mul(m, 0xFFFF_FFFF) < 0x1_0000_0000 * (2 * m) < 0x1_0000_0000 * (2 * r)
  {
    hide Mul;
    MulMono(a, m - 1, y);
    MulSwap(m - 1, y);
    MulMono(y, 0xFFFF_FFFF, m - 1);
    MulMaxLimb(m - 1);
    MulMaxLimb(m);
  }

  /** The congruence of one outer step; p = 2^(32i), b2 extends b by the limb y. */
  lemma MontStepEq(t: nat, t2: nat, a: nat, b: nat, b2: nat, y: Limb, m: nat, q: int, mq: Limb, p: nat)
    requires Mul(t, p) == Mul(a, b) + Mul(m, q)
    requires b2 == b + Mul(y, p)
    requires 0x1_0000_0000 * t2 == t + Mul(a, y) + Mul(m, mq)
    ensures Mul(t2, 0x1_0000_0000 * p) == Mul(a, b2) + Mul(m, q + Mul(mq, p))
  {
    hide Mul;
    assert Mul(a, b2) == Mul(a, b) + Mul(Mul(a, y), p) by {
      MulAdd(b, Mul(y, p), a);
      MulAssoc(a, y, p);
    }
    assert Mul(m, q + Mul(mq, p)) == Mul(m, q) + Mul(Mul(m, mq), p) by {
      MulAdd(q, Mul(mq, p), m);
      MulAssoc(m, mq, p);
    }
    ScaledSum(t2, t, Mul(a, y), Mul(m, mq), p);
  }

  lemma MontInvStep(f: Field, t: seq<Limb>, a: nat, b: seq<Limb>, i: nat, q: int, t2: seq<Limb>, mq: Limb)
    requires i < |b| && a < f.M()
    requires MontInv(f, t, a, b, i, q)
    requires 0x1_0000_0000 * Val(t2) == Val(t) + Mul(a, b[i]) + Mul(f.M(), mq)
    ensures MontInv(f, t2, a, b, i + 1, q + Mul(mq, WPow(i)))
  {
    var m := f.M();
    hide Mul, Val, f.M;
    assert Val(t2) < 2 * m by {
      RowRoom(Val(t), a, m, b[i], m + 1);
      MulMono(mq, 0xFFFF_FFFF, m);
      MulSwap(mq, m);
      MulSwap(0xFFFF_FFFF, m);
    }
    ValPrefix(b, i);
    WPowSucc(i);
    MontStepEq(Val(t), Val(t2), a, Val(b[..i]), Val(b[..i + 1]), b[i], m, q, mq, WPow(i));
  }

  lemma ScaledSum(x: int, a: int, b: int, c: int, p: int)
    requires 0x1_0000_0000 * x == a + b + c
    ensures Mul(x, 0x1_0000_0000 * p) == Mul(a, p) + Mul(b, p) + Mul(c, p)
  {
    hide Mul;
    MulWord(x, p);
    MulAdd(a + b, c, p);
    MulAdd(a, b, p);
    MulWord(p, x);
    MulSwap(x, p);
    MulSwap(0x1_0000_0000 * x, p);
    MulSwap(a + b + c, p);
  }

  /** What ecc_mm computes: the reduced Montgomery product. */
  ghost predicate IsMontProduct(f: Field, r: nat, a: nat, b: nat) {
    r < f.M() && (r * f.R()) % f.M() == (a * b) % f.M()
  }

  /** The conditional subtraction on a value low + top * r below 2m, where d is
      low - m wrapped into n limbs. */
  lemma FinalSubtraction(low: nat, top: nat, m: nat, r: nat, borrow: nat, d: int)
    requires low + Mul(top, r) < 2 * m && m < r && low < r
    requires borrow <= 1 && (borrow == 1 <==> low < m)
    requires d == low - m + Mul(borrow, r)
    ensures top != 0 || borrow == 0 ==> 0 <= d == low + Mul(top, r) - m < m
    ensures top == 0 && borrow == 1 ==> low == low + Mul(top, r) < m
  {
    hide Mul;
    MulUnit(r);
    MulTwo(r);
    if top >= 2 { MulMono(2, top, r); }
  }

  lemma MontFinish(f: Field, t: seq<Limb>, a: nat, b: seq<Limb>, q: int, borrow: Limb, d: nat)
    requires |t| == |f.m| + 1 && |b| == |f.m| > 0
    requires MontInv(f, t, a, b, |b|, q)
    requires borrow <= 1 && (borrow == 1 <==> Val(t[..|b|]) < f.M())
    requires d == Val(t[..|b|]) - f.M() + borrow * f.R()
    ensures t[|b|] != 0 || borrow == 0 ==> IsMontProduct(f, d, a, Val(b))
    ensures t[|b|] == 0 && borrow == 1 ==> IsMontProduct(f, Val(t[..|b|]), a, Val(b))
  {
    hide Mul, Val, WPow;
    var n := |b|;
    var m, r := f.M(), f.R();
    assert m == Val(f.m) && r == WPow(n);
    MulIs(borrow, r);
    ValBound(f.m);
    ValBound(t[..n]);
    ValWhole(b);
    ValWhole(t);
    ValPrefix(t, n);
    assert m > 0;
    FinalSubtraction(Val(t[..n]), t[n], m, r, borrow, d);
    MontResidue(f, Val(t), a, Val(b), q);
  }

  lemma MontResidue(f: Field, t: nat, a: nat, b: nat, q: int)
    requires f.M() > 0 && Mul(t, f.R()) == Mul(a, b) + Mul(f.M(), q)
    ensures (t * f.R()) % f.M() == (a * b) % f.M()
    ensures ((t - f.M()) * f.R()) % f.M() == (a * b) % f.M()
  {
    CongFromDiff(t * f.R(), a * b, f.M(), q);
    assert (t - f.M()) * f.R() == t * f.R() - f.M() * f.R();
    ModAddMultiple(t * f.R(), f.M(), f.R());
  }

  /** kernel/ecc.h ecc_mm: r = a * b * R^-1 mod m, CIOS form.  r may alias a or b. */
  method MontMul(f: Field, r: array<Limb>, a: array<Limb>, b: array<Limb>)
    requires f.Ready()
    requires r.Length == a.Length == b.Length == |f.m|
    requires Val(a[..]) < f.M() && Val(b[..]) < f.M()
    modifies r
    ensures IsMontProduct(f, Val(r[..]), old(Val(a[..])), old(Val(b[..])))
  {
    hide *;
    ReadyMeans(f);
    ValBound(f.m);
    var n := |f.m|;
    var t := new Limb[n + 2](_ => 0);
    ghost var va, sb := Val(a[..]), b[..];
    ghost var q := 0;
    MontInvStart(f, t[..n + 1], va, sb);
    for i := 0 to n
      invariant MontInv(f, t[..n + 1], va, sb, i, q)
      invariant a[..] == old(a[..]) && b[..] == sb
    {
      ghost var before := t[..n + 1];
      MontInvMeans(f, before, va, sb, i, q);
      MulAddRow(t, a, b[i]);
      RowRoom(Val(before), va, f.M(), b[i], f.R());
      ghost var mq := ReduceRow(f, t);
      MontInvStep(f, before, va, sb, i, q, t[..n + 1], mq);
      q := q + Mul(mq, WPow(i));
    }
    var tmp := new Limb[n];
    assert t[..n + 1][..n] == t[..n];
    ghost var low := t[..n + 1];
    var borrow := SubRaw(tmp, t, f.m);
    assert t[..n + 1] == low;
    MontFinish(f, low, va, sb, q, borrow, Val(tmp[..]));
    assert t[n] == low[n];
    if t[n] != 0 || borrow == 0 {
      Copy(r, tmp[..]);
    } else {
      Copy(r, t[..n]);
    }
  }

  lemma MontInvMeans(f: Field, t: seq<Limb>, a: nat, b: seq<Limb>, i: nat, q: int)
    requires i <= |b| && MontInv(f, t, a, b, i, q)
    ensures Val(t) < 2 * f.M()
  {
  }

  // ---------- ecc_ma, ecc_ms ----------

  /** The conditional subtraction after a carry-out addition or doubling. */
  lemma ReduceOnce(sum: nat, low: nat, carry: nat, m: nat, r: nat, borrow: nat, d: int)
    requires sum < 2 * m && m < r && low < r && carry <= 1 && borrow <= 1
    requires low + carry * r == sum
    requires (borrow == 1 <==> low < m) && d == low - m + borrow * r
    ensures carry != 0 || borrow == 0 ==> 0 <= d < m && d == sum % m
    ensures carry == 0 && borrow == 1 ==> low < m && low == sum % m
  {
    MulIs(carry, r);
    MulIs(borrow, r);
    hide Mul;
    FinalSubtraction(low, carry, m, r, borrow, d);
    if carry != 0 || borrow == 0 {
      DivModUnique(sum, m, 1, d);
    } else {
      MulUnit(r);
      ModSmall(sum, m);
    }
  }

  /** kernel/ecc.h ecc_ma: r = (a + b) mod m.  r may alias a or b. */
  method ModAdd(f: Field, r: array<Limb>, a: array<Limb>, b: array<Limb>)
    requires f.Ready()
    requires r.Length == a.Length == b.Length == |f.m|
    requires Val(a[..]) < f.M() && Val(b[..]) < f.M()
    modifies r
    ensures Val(r[..]) < f.M()
    ensures Val(r[..]) == (old(Val(a[..])) + old(Val(b[..]))) % f.M()
  {
    hide *;
    ReadyMeans(f);
    ValBound(f.m);
    var t := new Limb[|f.m|];
    var carry := AddRaw(t, a, b);
    var u := new Limb[|f.m|];
    assert t[..|f.m|] == t[..];
    var borrow := SubRaw(u, t, f.m);
    ValBound(t[..]);
    ReduceOnce(Val(a[..]) + Val(b[..]), Val(t[..]), carry, f.M(), f.R(), borrow, Val(u[..]));
    if carry != 0 || borrow == 0 {
      Copy(r, u[..]);
    } else {
      Copy(r, t[..]);
    }
  }

  /** The wrapped result of a subtraction that borrowed and then added m back. */
  lemma BorrowedSum(a: nat, b: nat, m: nat, r: nat, t: nat, carry: nat, t2: nat)
    requires a < m && b < m && m < r && a < b && t2 < r && carry <= 1
    requires t == a - b + 1 * r && t2 + carry * r == t + m
    ensures t2 == (a - b) % m && t2 < m
  {
    assert carry == 0 ==> carry * r == 0;
    assert carry == 1 ==> carry * r == r;
    DivModUnique(a - b, m, -1, t2);
  }

  /** kernel/ecc.h ecc_ms: r = (a - b) mod m.  r may alias a or b. */
  method ModSub(f: Field, r: array<Limb>, a: array<Limb>, b: array<Limb>)
    requires f.Ready()
    requires r.Length == a.Length == b.Length == |f.m|
    requires Val(a[..]) < f.M() && Val(b[..]) < f.M()
    modifies r
    ensures Val(r[..]) < f.M()
    ensures Val(r[..]) == (old(Val(a[..])) - old(Val(b[..]))) % f.M()
  {
    hide *;
    ReadyMeans(f);
    ValBound(f.m);
    ghost var va, vb := Val(a[..]), Val(b[..]);
    var t := new Limb[|f.m|];
    assert a[..|f.m|] == a[..];
    var borrow := SubRaw(t, a, b[..]);
    if borrow != 0 {
      ghost var v := Val(t[..]);
      var carry := AddWords(t, t, f.m);
      ValBound(t[..]);
      BorrowedSum(va, vb, f.M(), f.R(), v, carry, Val(t[..]));
    } else {
      assert 0 * f.R() == 0;
      ModSmall(va - vb, f.M());
    }
    Copy(r, t[..]);
  }

  // ---------- the context: ecc_neg_inv32 and ecc_compute_rr ----------

  /** Squaring the error of a Newton step: if p divides the error, the square of
      p divides the next one, as far as the word size allows. */
  lemma NewtonStep(m0: int, x: int, p: int, p2: int)
    requires p > 0 && p2 > 0 && Divides(p2, p * p) && Divides(p2, 0x1_0000_0000)
    requires Divides(p, 1 - m0 * x)
    ensures Divides(p2, 1 - m0 * ((x * (2 - m0 * x)) % 0x1_0000_0000))
  {
    var w := 0x1_0000_0000;
    var e := 1 - m0 * x;
    var y := x * (2 - m0 * x);
    var x2 := y % w;
    var k := DividesWitness(p, e);
    assert e * e == (p * p) * (k * k) by { assert (p * k) * (p * k) == (p * p) * (k * k); }
    DividesProduct(p2, p * p, k * k);
    assert 1 - m0 * y == e * e by {
      var z := m0 * x;
      assert m0 * y == z * (2 - z);
      assert (1 - z) * (1 - z) == 1 - z * (2 - z);
    }
    assert x2 == y - w * (y / w);
    assert m0 * x2 == m0 * y - m0 * (w * (y / w)) by {
      assert m0 * (y - w * (y / w)) == m0 * y - m0 * (w * (y / w));
    }
    assert m0 * (w * (y / w)) == w * (m0 * (y / w));
    DividesProduct(p2, w, m0 * (y / w));
    DividesSum(p2, e * e, w * (m0 * (y / w)));
  }

  /** An odd number is its own inverse modulo 8. */
  lemma OddSquare(x: int)
    requires x % 2 == 1
    ensures Divides(8, 1 - x * x)
  {
    var k := x / 2;
    assert x == 2 * k + 1;
    assert x * x == 4 * (k * (k + 1)) + 1;
    var h := k / 2;
    if k % 2 == 0 {
      assert k == 2 * h && k * (k + 1) == 2 * (h * (k + 1));
      DividesMultiple(8, -(h * (k + 1)));
    } else {
      assert k + 1 == 2 * (h + 1) && k * (k + 1) == 2 * (k * (h + 1));
      DividesMultiple(8, -(k * (h + 1)));
    }
  }

  /** 8, 64, 2^12, 2^24, 2^32, 2^32: what is correct after i Newton steps. */
  ghost function CorrectBits(i: nat): (p: int)
    requires i <= 5
    ensures p > 0 && Divides(p, 0x1_0000_0000)
  {
    if i == 0 then 8 else if i == 1 then 64 else if i == 2 then 0x1000 else if i == 3 then 0x100_0000 else 0x1_0000_0000
  }

  lemma CorrectBitsSquare(i: nat)
    requires i < 5
    ensures Divides(CorrectBits(i + 1), CorrectBits(i) * CorrectBits(i))
  {
  }

  /** kernel/ecc.h ecc_neg_inv32: -m0^-1 mod 2^32 by Newton iteration. */
  method NegInv32(m0: Limb) returns (r: Limb)
    requires m0 % 2 == 1
    ensures (m0 * r + 1) % 0x1_0000_0000 == 0
  {
    var x: int := m0;
    OddSquare(m0);
    for i := 0 to 5
      invariant 0 <= x < 0x1_0000_0000
      invariant Divides(CorrectBits(i), 1 - m0 * x)
    {
      CorrectBitsSquare(i);
      NewtonStep(m0, x, CorrectBits(i), CorrectBits(i + 1));
      x := (x * (2 - m0 * x)) % 0x1_0000_0000;
    }
    r := (0 - x) % 0x1_0000_0000;
    NegatedInverse(m0, x);
  }

  lemma NegatedInverse(m0: int, x: int)
    requires Divides(0x1_0000_0000, 1 - m0 * x)
    ensures (m0 * ((0 - x) % 0x1_0000_0000) + 1) % 0x1_0000_0000 == 0
  {
    var w := 0x1_0000_0000;
    MulReduce(m0, -x, w);
    assert m0 * (-x) == -(m0 * x);
    AddCong(m0 * ((-x) % w), -(m0 * x), 1, 1, w);
  }

  /** Doubling a residue of a power of two. */
  lemma DoublePower(x: nat, i: nat, m: nat)
    requires m > 0 && x == Pow(2, i) % m
    ensures (x + x) % m == Pow(2, i + 1) % m
  {
    MulReduce(2, Pow(2, i), m);
    assert x + x == 2 * x;
  }

  /** The loop body of ecc_compute_rr: x = 2x mod m, in place. */
  method DoubleMod(m: seq<Limb>, x: array<Limb>)
    requires x.Length == |m| && Val(x[..]) < Val(m)
    modifies x
    ensures Val(x[..]) == (old(Val(x[..])) + old(Val(x[..]))) % Val(m)
  {
    hide *;
    ghost var v := Val(x[..]);
    ValBound(m);
    var carry := AddRaw(x, x, x);
    var t := new Limb[|m|];
    assert x[..|m|] == x[..];
    var borrow := SubRaw(t, x, m);
    ValBound(x[..]);
    ReduceOnce(v + v, Val(x[..]), carry, Val(m), WPow(|m|), borrow, Val(t[..]));
    if carry != 0 || borrow == 0 {
      Copy(x, t[..]);
    }
  }

  /** kernel/ecc.h ecc_compute_rr: R^2 mod m and, halfway, R mod m, by doubling. */
  method ComputeRR(m: seq<Limb>) returns (rr: array<Limb>, rModM: array<Limb>)
    requires |m| > 0 && Val(m) > 1
    ensures fresh(rr) && rr.Length == |m| && Val(rr[..]) == (WPow(|m|) * WPow(|m|)) % Val(m)
    ensures fresh(rModM) && rModM.Length == |m| && Val(rModM[..]) == WPow(|m|) % Val(m)
  {
    hide *;
    var n := |m|;
    var x := new Limb[n](_ => 0);
    x[0] := 1;
    ValSingle(x[..]);
    ExponentStart(2, Val(m));
    PowZero(2);
    rModM := new Limb[n](_ => 0);
    rr := new Limb[n](_ => 0);
    for i := 0 to 64 * n
      invariant Val(x[..]) == Pow(2, i) % Val(m)
      invariant i >= 32 * n ==> Val(rModM[..]) == Pow(2, 32 * n) % Val(m)
    {
      ResidueBound(Pow(2, i), Val(m));
      DoublePower(Val(x[..]), i, Val(m));
      DoubleMod(m, x);
      if i == 32 * n - 1 {
        Copy(rModM, x[..]);
      }
    }
    Copy(rr, x[..]);
    PowWord(n);
    PowAdd(2, 32 * n, 32 * n);
    assert 32 * n + 32 * n == 64 * n;
  }

  lemma PowZero(b: int)
    ensures Pow(b, 0) == 1
  {
  }

  lemma ResidueBound(x: int, m: int)
    requires m > 0
    ensures 0 <= x % m < m
  {
  }

  /** kernel/ecc.h ecc_curve_prepare for one modulus, with ecc_fp / ecc_fn. */
  method PrepareField(m: seq<Limb>) returns (f: Field, one: seq<Limb>)
    requires |m| > 0 && Val(m) % 2 == 1 && Val(m) > 1
    ensures f.m == m && f.Prepared()
    ensures |one| == |m| && Val(one) == f.R() % f.M()
  {
    assert m[0] % 2 == 1;
    var m0 := NegInv32(m[0]);
    var rr, r1 := ComputeRR(m);
    f := Field(m, m0, rr[..]);
    one := r1[..];
  }

  // ---------- the value a Montgomery residue stands for ----------

  /** R^-1 mod m: the residue of ((m + 1) / 2)^(32n). */
  ghost function RInv(f: Field): nat
    requires f.Ready()
  {
    Pow((f.M() + 1) / 2, 32 * |f.m|) % f.M()
  }

  lemma RInvInverts(f: Field)
    requires f.Ready()
    ensures (f.R() * RInv(f)) % f.M() == 1
  {
    var m, h, k := f.M(), (f.M() + 1) / 2, 32 * |f.m|;
    PowWord(|f.m|);
    PowMulBase(2, h, k);
    assert 2 * h == m + 1;
    CongFromDiff(m + 1, 1, m, 1);
    PowCong(m + 1, 1, k, m);
    PowOne(k);
    MulReduce(f.R(), Pow(h, k), m);
    ModSmall(1, m);
  }

  /** The field element that the limbs with number v represent in Montgomery form. */
  ghost function Elem(f: Field, v: nat): (e: nat)
    requires f.Ready()
    ensures e < f.M()
  {
    (v * RInv(f)) % f.M()
  }

  /** Multiplying the element by R gives the representation back. */
  lemma ElemTimesR(f: Field, v: nat)
    requires f.Ready()
    ensures (Elem(f, v) * f.R()) % f.M() == v % f.M()
  {
    RInvInverts(f);
    TimesInverse(v, f.R(), RInv(f), f.M());
  }

  lemma TimesInverse(v: int, r: int, ri: int, m: int)
    requires m > 1 && (r * ri) % m == 1
    ensures (((v * ri) % m) * r) % m == v % m
  {
    MulReduce(v * ri, r, m);
    SwapLast(v, ri, r);
    MulReduce(v, r * ri, m);
  }

  lemma SwapLast(a: int, b: int, c: int)
    ensures (a * b) * c == a * (c * b)
  {
  }

  lemma ElemInjective(f: Field, v: nat, w: nat)
    requires f.Ready() && v < f.M() && w < f.M() && Elem(f, v) == Elem(f, w)
    ensures v == w
  {
    ElemTimesR(f, v);
    ElemTimesR(f, w);
    ModSmall(v, f.M());
    ModSmall(w, f.M());
  }

  lemma ElemZero(f: Field, v: nat)
    requires f.Ready() && v < f.M()
    ensures Elem(f, v) == 0 <==> v == 0
  {
    assert 0 * RInv(f) == 0;
    ModSmall(0, f.M());
    if Elem(f, v) == 0 { ElemInjective(f, v, 0); }
  }

  lemma ElemOne(f: Field, v: nat)
    requires f.Ready() && v == f.R() % f.M()
    ensures Elem(f, v) == 1
  {
    RInvInverts(f);
    MulReduce(f.R(), RInv(f), f.M());
  }

  /** ecc_mm multiplies the represented elements. */
  lemma ElemMul(f: Field, r: nat, a: nat, b: nat)
    requires f.Ready() && IsMontProduct(f, r, a, b)
    ensures Elem(f, r) == (Elem(f, a) * Elem(f, b)) % f.M()
  {
    var m, rr, ri := f.M(), f.R(), RInv(f);
    RInvInverts(f);
    MulCong(r * rr, a * b, ri * ri, ri * ri, m);
    MulShuffle(a, b, ri, ri);
    MulReduce(a * ri, b * ri, m);
    assert (r * rr) * (ri * ri) == (r * ri) * (rr * ri) by { MulShuffle(r, rr, ri, ri); }
    MulCong(r * ri, r * ri, rr * ri, 1, m) by { ModSmall(1, m); }
    assert (r * ri) * 1 == r * ri;
  }

  lemma ElemAdd(f: Field, r: nat, a: nat, b: nat)
    requires f.Ready() && r == (a + b) % f.M()
    ensures Elem(f, r) == (Elem(f, a) + Elem(f, b)) % f.M()
  {
    var m, ri := f.M(), RInv(f);
    MulReduce(a + b, ri, m);
    assert (a + b) * ri == a * ri + b * ri;
    ModMod(a * ri, m);
    ModMod(b * ri, m);
    AddCong(Elem(f, a), a * ri, Elem(f, b), b * ri, m);
  }

  lemma ElemSub(f: Field, r: nat, a: nat, b: nat)
    requires f.Ready() && r == (a - b) % f.M()
    ensures Elem(f, r) == (Elem(f, a) - Elem(f, b)) % f.M()
  {
    var m, ri := f.M(), RInv(f);
    MulReduce(a - b, ri, m);
    assert (a - b) * ri == a * ri - b * ri;
    ModMod(a * ri, m);
    ModMod(b * ri, m);
    AddCong(Elem(f, a), a * ri, Elem(f, b), b * ri, m);
  }

  // ---------- conversions ----------

  /** kernel/ecc.h ecc_to_mont: r represents the plain number a. */
  method ToMont(f: Field, r: array<Limb>, a: array<Limb>)
    requires f.Prepared() && r.Length == a.Length == |f.m| && Val(a[..]) < f.M()
    modifies r
    ensures Val(r[..]) < f.M() && Elem(f, Val(r[..])) == old(Val(a[..]))
    ensures Val(r[..]) == (old(Val(a[..])) * f.R()) % f.M()
  {
    var rr := new Limb[|f.m|];
    Copy(rr, f.rr);
    ghost var va := Val(a[..]);
    ResidueBound(f.R() * f.R(), f.M());
    MontMul(f, r, a, rr);
    ToMontMeans(f, Val(r[..]), va);
  }

  lemma ToMontMeans(f: Field, r: nat, a: nat)
    requires f.Ready() && a < f.M() && IsMontProduct(f, r, a, (f.R() * f.R()) % f.M())
    ensures Elem(f, r) == a && r == (a * f.R()) % f.M()
  {
    ElemMul(f, r, a, (f.R() * f.R()) % f.M());
    ElemOfSquare(f);
    MulReduce(Elem(f, a), f.R(), f.M());
    ElemTimesR(f, a);
    ModSmall(a, f.M());
    ElemTimesR(f, r);
    ModSmall(r, f.M());
  }

  /** R^2 represents R. */
  lemma ElemOfSquare(f: Field)
    requires f.Ready()
    ensures Elem(f, (f.R() * f.R()) % f.M()) == f.R() % f.M()
  {
    var m, rr, ri := f.M(), f.R(), RInv(f);
    ElemScale(f, rr * rr);
    RInvInverts(f);
    Reassociate(rr, rr, ri);
    MulReduce(rr, rr * ri, m);
    assert rr * 1 == rr;
  }

  lemma Reassociate(a: int, w: int, i: int)
    ensures (a * w) * i == a * (w * i)
  {
  }

  lemma ElemScale(f: Field, v: nat)
    requires f.Ready()
    ensures Elem(f, v % f.M()) == (v * RInv(f)) % f.M()
  {
    MulReduce(v, RInv(f), f.M());
  }

  /** kernel/ecc.h ecc_from_mont: r is the plain number that a represents. */
  method FromMont(f: Field, r: array<Limb>, a: array<Limb>)
    requires f.Ready() && r.Length == a.Length == |f.m| && Val(a[..]) < f.M()
    modifies r
    ensures Val(r[..]) == Elem(f, old(Val(a[..])))
  {
    var one := new Limb[|f.m|](_ => 0);
    one[0] := 1;
    ValSingle(one[..]);
    ghost var va := Val(a[..]);
    MontMul(f, r, a, one);
    FromMontMeans(f, Val(r[..]), va);
  }

  lemma FromMontMeans(f: Field, r: nat, a: nat)
    requires f.Ready() && IsMontProduct(f, r, a, 1)
    ensures r == Elem(f, a)
  {
    RInvInverts(f);
    DividedByR(r, f.R(), RInv(f), a, f.M());
  }

  lemma DividedByR(r: nat, rr: int, ri: int, a: int, m: int)
    requires m > 1 && r < m && (rr * ri) % m == 1 && (r * rr) % m == (a * 1) % m
    ensures r == (a * ri) % m
  {
    MulCong(r * rr, a, ri, ri, m);
    SwapLast(r, rr, ri);
    MulReduce(r, ri * rr, m);
    ModSmall(r, m);
  }

  /** ecc_to_mont and ecc_from_mont undo each other below m. */
  lemma ConversionsUndo(f: Field, a: nat)
    requires f.Ready() && a < f.M()
    ensures Elem(f, (a * f.R()) % f.M()) == a
    ensures (Elem(f, a) * f.R()) % f.M() == a
  {
    ElemScale(f, a * f.R());
    RInvInverts(f);
    assert (a * f.R()) * RInv(f) == a * (f.R() * RInv(f));
    MulReduce(a, f.R() * RInv(f), f.M());
    ModSmall(a, f.M());
    ElemTimesR(f, a);
  }

  // ---------- ecc_minv ----------

  /** One step of left-to-right square-and-multiply, on field elements. */
  lemma PowerStep(x: nat, e: nat, m: nat, y: nat)
    requires m > 0 && y == Pow(x, e) % m
    ensures (y * y) % m == Pow(x, 2 * e) % m
    ensures (((y * y) % m) * x) % m == Pow(x, 2 * e + 1) % m
  {
    PowDouble(x, e);
    MulReduce(Pow(x, e), Pow(x, e), m);
    MulReduce(y * y, x, m);
    MulReduce(Pow(x, 2 * e), x, m);
  }

  /** ecc_mm seen on the represented elements. */
  method MulElem(f: Field, r: array<Limb>, a: array<Limb>, b: array<Limb>)
    requires f.Ready()
    requires r.Length == a.Length == b.Length == |f.m|
    requires Val(a[..]) < f.M() && Val(b[..]) < f.M()
    modifies r
    ensures Val(r[..]) < f.M()
    ensures Elem(f, Val(r[..])) == (Elem(f, old(Val(a[..]))) * Elem(f, old(Val(b[..])))) % f.M()
  {
    hide *;
    ghost var va, vb := Val(a[..]), Val(b[..]);
    MontMul(f, r, a, b);
    ElemMul(f, Val(r[..]), va, vb);
    MontBound(f, Val(r[..]), va, vb);
  }

  /** The exponent m - 2. */
  method MinusTwo(m: seq<Limb>) returns (e: seq<Limb>)
    requires |m| > 0 && Val(m) >= 2
    ensures |e| == |m| && Val(e) == Val(m) - 2
  {
    hide *;
    var d, two := new Limb[|m|], new Limb[|m|](_ => 0);
    two[0] := 2;
    ValSingle(two[..]);
    Copy(d, m);
    assert d[..|m|] == d[..];
    var borrow := SubRaw(d, d, two[..]);
    assert 0 * WPow(|m|) == 0;
    e := d[..];
  }

  /** kernel/ecc.h ecc_minv: r represents a^(m-2), by Fermat the inverse. */
  method ModInv(f: Field, r: array<Limb>, a: array<Limb>, one: seq<Limb>)
    requires f.Ready() && r.Length == a.Length == |one| == |f.m|
    requires Val(a[..]) < f.M() && Val(one) == f.R() % f.M()
    modifies r
    ensures Val(r[..]) < f.M()
    ensures Elem(f, Val(r[..])) == Pow(Elem(f, old(Val(a[..]))), f.M() - 2) % f.M()
  {
    hide *;
    ReadyMeans(f);
    var n := |f.m|;
    var e := MinusTwo(f.m);
    ghost var exp := Val(e);
    var acc := new Limb[n];
    Copy(acc, one);
    ResidueBound(f.R(), f.M());
    ElemOne(f, Val(one));
    ghost var x := Elem(f, Val(a[..]));
    ValBound(e);
    PowWord(n);
    ShiftAll(exp, 32 * n);
    ExponentStart(x, f.M());
    PowZero(2);
    var i := 32 * n;
    while i > 0
      invariant 0 <= i <= 32 * n
      invariant Val(acc[..]) < f.M() && Pow(2, i) > 0
      invariant Elem(f, Val(acc[..])) == Pow(x, exp / Pow(2, i)) % f.M()
      invariant a[..] == old(a[..])
    {
      i := i - 1;
      ShiftStep(exp, i);
      LimbBitIsBit(e, i);
      PowerStep(x, exp / Pow(2, i + 1), f.M(), Elem(f, Val(acc[..])));
      MulElem(f, acc, acc, acc);
      if LimbBit(e, i) == 1 {
        MulElem(f, acc, acc, a);
      }
    }
    Copy(r, acc[..]);
  }

  lemma MontBound(f: Field, r: nat, a: nat, b: nat)
    requires IsMontProduct(f, r, a, b)
    ensures r < f.M()
  {
  }

  lemma ExponentStart(x: nat, m: nat)
    requires m > 1
    ensures Pow(x, 0) % m == 1 && 1 % m == 1
  {
    ModSmall(1, m);
  }

  /** For a prime modulus, what ecc_minv returns is the inverse of a nonzero a. */
  lemma InverseWorks(f: Field, a: nat)
    requires f.Ready() && Prime(f.M()) && 0 < a < f.M()
    ensures (Elem(f, a) * (Pow(Elem(f, a), f.M() - 2) % f.M())) % f.M() == 1
  {
    ElemZero(f, a);
    ModSmall(Elem(f, a), f.M());
    FermatInverse(Elem(f, a), f.M());
  }
}
