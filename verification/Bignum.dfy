/** kernel/bignum.h:38-355: numbers of 130 limbs.  The schoolbook product, binary long
    division with a narrowed working width, and square-and-multiply. */
module Bignum {
  import opened ModArith
  import opened Limbs

  /** BIGNUM_LIMBS. */
  const LIMBS := 130

  // ---------- values of limb sequences ----------

  /** Changing one limb. */
  lemma ValUpdate(s: seq<Limb>, p: nat, x: Limb)
    requires p < |s|
    ensures Val(s[p := x]) == Val(s) + Mul(x - s[p], WPow(p))
  {
    hide Mul, Val, WPow;
    var t := s[p := x];
    ValSplit(s, p + 1);
    ValSplit(t, p + 1);
    assert t[p + 1..] == s[p + 1..];
    ValPrefix(s, p);
    ValPrefix(t, p);
    assert t[..p] == s[..p];
    var y: int, z: int := x, s[p];
    MulAdd(y, z, WPow(p));
  }

  lemma {:induction false} WPowAdd(m: nat, n: nat)
    ensures WPow(m + n) == Mul(WPow(m), WPow(n))
  {
    hide Mul;
    if m == 0 {
      MulUnit(WPow(n));
    } else {
      WPowAdd(m - 1, n);
      MulWord(WPow(n), WPow(m - 1));
    }
  }

  lemma {:induction false} WPowMono(m: nat, n: nat)
    requires m <= n
    ensures WPow(m) <= WPow(n) && (m < n ==> 0x1_0000_0000 * WPow(m) <= WPow(n))
  {
    if m < n {
      WPowMono(m, n - 1);
    }
  }

  /** A limb's place gives a lower bound. */
  lemma LimbBelow(s: seq<Limb>, k: nat)
    requires k < |s|
    ensures Mul(s[k], WPow(k)) <= Val(s)
  {
    hide Mul, WPow;
    ValSplit(s, k);
    assert Val(s[k..]) == s[k] + 0x1_0000_0000 * Val(s[k..][1..]);
    hide Val;
    var x: int := s[k];
    MulMono(x, Val(s[k..]), WPow(k));
    MulSwap(WPow(k), Val(s[k..]));
  }

  /** Below 2^(32n) the limbs from n on are zero. */
  lemma HighZero(s: seq<Limb>, n: nat, k: nat)
    requires Val(s) < WPow(n) && n <= k < |s|
    ensures s[k] == 0
  {
    hide Mul, Val, WPow;
    LimbBelow(s, k);
    WPowMono(n, k);
    if s[k] > 0 {
      MulMono(1, s[k], WPow(k));
      MulUnit(WPow(k));
    }
  }

  /** Limbs that are zero do not count. */
  lemma ValLow(s: seq<Limb>, n: nat)
    requires n <= |s| && forall k :: n <= k < |s| ==> s[k] == 0
    ensures Val(s) == Val(s[..n]) < WPow(n)
  {
    hide Mul;
    ValSplit(s, n);
    ValZeros(s[n..]);
    MulUnit(WPow(n));
    ValBound(s[..n]);
  }

  // ---------- the small helpers ----------

  /** kernel/bignum.h bn_used_limbs. */
  method UsedLimbs(a: seq<Limb>) returns (u: nat)
    ensures u <= |a| && (forall k :: u <= k < |a| ==> a[k] == 0) && (u > 0 ==> a[u - 1] != 0)
  {
    u := |a|;
    while u > 0
      invariant u <= |a| && forall k :: u <= k < |a| ==> a[k] == 0
    {
      if a[u - 1] != 0 { return; }
      u := u - 1;
    }
  }

  lemma ColumnIs(x: Limb, y: Limb, br: int)
    requires 0 <= br <= 1
    ensures var d := Column(x, y, br); var e := x - y - br;
      && d % 0x1_0000_0000 == (if e < 0 then e + 0x1_0000_0000 else e)
      && (d / 0x1_0000_0000) % 2 == (if e < 0 then 1 else 0)
  {
    hide Column;
  }

  /** kernel/bignum.h bn_sub; result may alias a or b. */
  method Sub(result: array<Limb>, a: array<Limb>, b: array<Limb>)
    requires result.Length == a.Length == b.Length && Val(a[..]) >= Val(b[..])
    modifies result
    ensures Val(result[..]) == old(Val(a[..])) - old(Val(b[..]))
  {
    hide *;
    ghost var sa, sb := a[..], b[..];
    var borrow: int := 0;
    DiffInvEnds(sa, sb, [], 0);
    assert result[..0] == [];
    for i := 0 to result.Length
      invariant 0 <= borrow <= 1
      invariant forall k :: i <= k < result.Length ==> a[k] == sa[k] && b[k] == sb[k]
      invariant DiffInv(result[..i], sa, sb, borrow)
    {
      ghost var done := result[..i];
      ColumnIs(a[i], b[i], borrow);
      DiffInvStep(done, sa, sb, borrow);
      var diff := a[i] - b[i] - borrow;
      if diff < 0 {
        diff := diff + 0x1_0000_0000;
        borrow := 1;
      } else {
        borrow := 0;
      }
      result[i] := diff;
      assert result[..i + 1] == done + [diff];
    }
    assert result[..result.Length] == result[..];
    DiffInvEnds(sa, sb, result[..], borrow);
  }

  /** kernel/bignum.h bn_add: the carry out of the last limb is lost. */
  method Add(result: array<Limb>, a: array<Limb>, b: array<Limb>)
    requires result.Length == a.Length == b.Length
    modifies result
    ensures Val(result[..]) == (old(Val(a[..])) + old(Val(b[..]))) % WPow(result.Length)
  {
    var carry := AddRaw(result, a, b);
    ValBound(result[..]);
    DivModUnique(old(Val(a[..])) + old(Val(b[..])), WPow(result.Length), carry, Val(result[..]));
  }

  // ---------- bn_mul_wide ----------

  /** The row loop: the limbs of b taken so far, times x, have been added in at place i. */
  ghost predicate RowInv(r: seq<Limb>, r0: seq<Limb>, x: Limb, b: seq<Limb>, i: nat, j: nat, carry: int)
    requires j <= |b|
  {
    && |r| == |r0| && 0 <= carry < 0x1_0000_0000
    && Val(r) + Mul(carry, WPow(i + j)) == Val(r0) + Mul(Mul(x, Val(b[..j])), WPow(i))
  }

  lemma RowStart(r: seq<Limb>, x: Limb, b: seq<Limb>, i: nat)
    ensures RowInv(r, r, x, b, i, 0, 0)
  {
    hide WPow;
    assert b[..0] == [];
    MulUnit(x);
    MulUnit(WPow(i));
  }

  lemma ProductFits(x: Limb, y: Limb, r: Limb, c: int)
    requires 0 <= c < 0x1_0000_0000
    ensures 0 <= x * y + r + c < 0x1_0000_0000_0000_0000
  {
    MulBound(x, y, 0xFFFF_FFFF, 0xFFFF_FFFF);
  }

  lemma RowStep(r: seq<Limb>, r0: seq<Limb>, x: Limb, b: seq<Limb>, i: nat, j: nat, carry: int)
    requires j < |b| && i + j < |r| && RowInv(r, r0, x, b, i, j, carry)
    ensures var prod := Mul(x, b[j]) + r[i + j] + carry;
      && 0 <= prod < 0x1_0000_0000_0000_0000
      && RowInv(r[i + j := prod % 0x1_0000_0000], r0, x, b, i, j + 1, prod / 0x1_0000_0000)
  {
    ProductFits(x, b[j], r[i + j], carry);
    MulIs(x, b[j]);
    hide Mul, Val, WPow;
    var p := WPow(i + j);
    var y: int, z: int := b[j], r[i + j];
    var prod := Mul(x, y) + z + carry;
    var lo, hi := prod % 0x1_0000_0000, prod / 0x1_0000_0000;
    ValUpdate(r, i + j, lo);
    CarryStep(prod, p);
    assert 0x1_0000_0000 * p == WPow(i + j + 1) by { WPowNext(i + j); }
    MulAdd(lo, z, p);
    MulAdd(Mul(x, y) + z, carry, p);
    MulAdd(Mul(x, y), z, p);
    RowColumn(x, b, i, j);
  }

  lemma WPowNext(n: nat)
    ensures WPow(n + 1) == 0x1_0000_0000 * WPow(n)
  {
  }

  /** One more limb of b under x. */
  lemma RowColumn(x: Limb, b: seq<Limb>, i: nat, j: nat)
    requires j < |b|
    ensures Mul(Mul(x, Val(b[..j + 1])), WPow(i)) == Mul(Mul(x, Val(b[..j])), WPow(i)) + Mul(Mul(x, b[j]), WPow(i + j))
  {
    hide Mul, Val, WPow;
    var y: int := b[j];
    ValPrefix(b, j);
    MulAdd(Val(b[..j]), Mul(y, WPow(j)), x);
    MulAdd(Mul(x, Val(b[..j])), Mul(x, Mul(y, WPow(j))), WPow(i));
    MulAssoc(x, y, WPow(j));
    MulAssoc(Mul(x, y), WPow(j), WPow(i));
    WPowAdd(i, j);
    MulSwap(WPow(i), WPow(j));
  }

  /** One row of the product: r += x * b * 2^(32i).  Every carry stays inside the buffer. */
  method AddRow(r: array<Limb>, x: Limb, b: seq<Limb>, i: nat, blen: nat)
    requires blen <= |b| && (forall k :: blen <= k < |b| ==> b[k] == 0) && i + blen < r.Length
    requires Val(r[..]) < WPow(i + blen)
    modifies r
    ensures Val(r[..]) == old(Val(r[..])) + Mul(Mul(x, Val(b)), WPow(i))
  {
    hide *;
    ghost var r0 := r[..];
    var bs := b[..blen];
    ValLow(b, blen);
    var carry: int := 0;
    RowStart(r0, x, bs, i);
    var j := 0;
    while j < blen
      invariant j <= blen && RowInv(r[..], r0, x, bs, i, j, carry) && 0 <= carry < 0x1_0000_0000
      invariant r[i + blen..] == r0[i + blen..]
    {
      ghost var s := r[..];
      RowStep(s, r0, x, bs, i, j, carry);
      var prod := Mul(x, b[j]) + r[i + j] + carry;
      r[i + j] := prod % 0x1_0000_0000;
      carry := prod / 0x1_0000_0000;
      assert r[..] == s[i + j := prod % 0x1_0000_0000];
      j := j + 1;
    }
    HighZero(r0, i + blen, i + blen);
    assert r[i + blen] == r[i + blen..][0] == r0[i + blen..][0] == 0;
    var k := i + blen;
    ghost var s := r[..];
    ghost var c: Limb := carry;
    while carry != 0
      invariant 0 <= carry < 0x1_0000_0000
      invariant k == i + blen ==> r[..] == s && carry == c
      invariant k != i + blen ==> k == i + blen + 1 && carry == 0 && r[..] == s[i + blen := c]
      decreases carry
    {
      var sum := r[k] + carry;
      CarryFits(carry);
      r[k] := sum % 0x1_0000_0000;
      carry := sum / 0x1_0000_0000;
      k := k + 1;
      assert r[..] == s[i + blen := c];
    }
    RowEnds(s, r0, x, bs, i, c);
  }

  lemma CarryFits(c: int)
    requires 0 <= c < 0x1_0000_0000
    ensures c % 0x1_0000_0000 == c && c / 0x1_0000_0000 == 0
  {
  }

  lemma RowEnds(s: seq<Limb>, r0: seq<Limb>, x: Limb, b: seq<Limb>, i: nat, c: Limb)
    requires i + |b| < |s| && s[i + |b|] == 0 && RowInv(s, r0, x, b, i, |b|, c)
    ensures Val(s[i + |b| := c]) == Val(r0) + Mul(Mul(x, Val(b)), WPow(i))
    ensures c == 0 ==> s[i + |b| := c] == s
  {
    hide Mul, Val, WPow;
    ValUpdate(s, i + |b|, c);
    assert b[..|b|] == b;
  }

  /** The product after the rows of the first i limbs of a. */
  ghost predicate WideInv(r: seq<Limb>, a: seq<Limb>, b: seq<Limb>, i: nat)
    requires i <= |a|
  {
    Val(r) == Mul(Val(a[..i]), Val(b))
  }

  lemma WideStart(r: seq<Limb>, a: seq<Limb>, b: seq<Limb>)
    requires forall k :: 0 <= k < |r| ==> r[k] == 0
    ensures WideInv(r, a, b, 0)
  {
    hide Mul;
    ValZeros(r);
    assert a[..0] == [];
    MulUnit(Val(b));
  }

  /** Before row i everything above limb i + blen is still zero. */
  lemma WideBound(r: seq<Limb>, a: seq<Limb>, b: seq<Limb>, i: nat, blen: nat)
    requires i <= |a| && WideInv(r, a, b, i)
    requires blen <= |b| && forall k :: blen <= k < |b| ==> b[k] == 0
    ensures Val(r) < WPow(i + blen)
  {
    hide Mul, Val, WPow;
    ValLow(b, blen);
    ValBound(a[..i]);
    WPowAdd(i, blen);
    ProductBelow(Val(a[..i]), Val(b), WPow(i), WPow(blen));
  }

  lemma ProductBelow(x: nat, y: nat, p: nat, q: nat)
    requires x < p && y < q
    ensures Mul(x, y) < Mul(p, q)
  {
    assert x * y <= x * q;
    assert x * q <= (p - 1) * q;
    assert (p - 1) * q == p * q - q;
  }

  lemma WideStep(r: seq<Limb>, r': seq<Limb>, a: seq<Limb>, b: seq<Limb>, i: nat)
    requires i < |a| && WideInv(r, a, b, i)
    requires Val(r') == Val(r) + Mul(Mul(a[i], Val(b)), WPow(i))
    ensures WideInv(r', a, b, i + 1)
  {
    hide Mul, Val, WPow;
    var x: int := a[i];
    ValPrefix(a, i);
    MulAdd(Val(a[..i]), Mul(x, WPow(i)), Val(b));
    MulAssoc(x, Val(b), WPow(i));
    MulAssoc(x, WPow(i), Val(b));
    MulSwap(Val(b), WPow(i));
  }

  /** kernel/bignum.h bn_mul_wide: the exact product, every carry inside the wide buffer. */
  method MulWide(result: array<Limb>, a: seq<Limb>, b: seq<Limb>)
    requires |a| == |b| == LIMBS && result.Length == 2 * LIMBS
    modifies result
    ensures Val(result[..]) == Val(a) * Val(b)
  {
    hide Mul, Val, WPow, WideInv;
    for i := 0 to 2 * LIMBS
      invariant forall k :: 0 <= k < i ==> result[k] == 0
    {
      result[i] := 0;
    }
    var alen := UsedLimbs(a);
    var blen := UsedLimbs(b);
    WideStart(result[..], a, b);
    for i := 0 to alen
      invariant WideInv(result[..], a, b, i)
    {
      ghost var r := result[..];
      WideBound(r, a, b, i, blen);
      if a[i] == 0 {
        ZeroRow(a, b, i);
      } else {
        AddRow(result, a[i], b, i, blen);
      }
      WideStep(r, result[..], a, b, i);
    }
    WideEnds(result[..], a, b, alen);
  }

  lemma ZeroRow(a: seq<Limb>, b: seq<Limb>, i: nat)
    requires i < |a| && a[i] == 0
    ensures Mul(Mul(a[i], Val(b)), WPow(i)) == 0
  {
    hide Mul;
    MulUnit(Val(b));
    MulUnit(WPow(i));
  }

  lemma WideEnds(r: seq<Limb>, a: seq<Limb>, b: seq<Limb>, alen: nat)
    requires alen <= |a| && (forall k :: alen <= k < |a| ==> a[k] == 0) && WideInv(r, a, b, alen)
    ensures Val(r) == Val(a) * Val(b)
  {
    ValLow(a, alen);
  }

  // ---------- bit lengths ----------

  lemma TopWord(x: nat, bit: nat)
    requires x < Pow(2, bit + 1) && BitOf(x, bit) == 0
    ensures x < Pow(2, bit)
  {
    ShiftStep(x, bit);
    ShiftAll(x, bit + 1);
    PowPos(2, bit);
    DivModMul(x, Pow(2, bit));
    MulUnit(Pow(2, bit));
  }

  /** The highest set bit of a nonzero word. */
  method HighestBit(x: Limb) returns (bit: nat)
    requires x != 0
    ensures bit < 32 && x < Pow(2, bit + 1) && BitOf(x, bit) == 1
  {
    hide *;
    PowWordOne();
    bit := 31;
    while WordBit(x, bit) == 0
      invariant bit < 32 && x < Pow(2, bit + 1)
      decreases bit
    {
      WordBitIs(x, bit);
      TopWord(x, bit);
      BitZero(x);
      bit := bit - 1;
    }
    WordBitIs(x, bit);
  }

  /** x & (1 << bit), as 0 or 1. */
  function WordBit(x: Limb, bit: nat): (b: nat)
    ensures b <= 1
  {
    PowPos(2, bit);
    (x / Pow(2, bit)) % 2
  }

  lemma WordBitIs(x: Limb, bit: nat)
    ensures WordBit(x, bit) == BitOf(x, bit)
  {
  }

  lemma BitZero(x: Limb)
    ensures Pow(2, 0) == 1 && Pow(2, 1) == 2
    ensures x != 0 && x < 2 ==> WordBit(x, 0) == 1
  {
  }

  /** The bit length of a number from its highest nonzero limb. */
  lemma TopLimb(s: seq<Limb>, limb: nat, bit: nat)
    requires limb < |s| && (forall k :: limb < k < |s| ==> s[k] == 0) && bit < 32 && s[limb] < Pow(2, bit + 1)
    ensures Val(s) < Pow(2, 32 * limb + bit + 1)
  {
    hide Mul, Val, WPow, Pow;
    ValLow(s, limb + 1);
    ValPrefix(s, limb);
    ValBound(s[..limb]);
    PowAdd(2, 32 * limb, bit + 1);
    PowWord(limb);
    var x: int := s[limb];
    MulAdd(x, 1, WPow(limb));
    MulUnit(WPow(limb));
    MulMono(x + 1, Pow(2, bit + 1), WPow(limb));
    MulIs(Pow(2, bit + 1), WPow(limb));
  }

  /** kernel/bignum.h bn_wide_bit_length: the highest set bit, or -1. */
  method WideBitLength(wide: seq<Limb>) returns (top: int)
    ensures -1 <= top < 32 * |wide| && Val(wide) < Pow(2, top + 1)
    ensures top >= 0 ==> BitOf(Val(wide), top) == 1
  {
    hide *;
    var limb := |wide|;
    while limb > 0
      invariant 0 <= limb <= |wide| && forall k :: limb <= k < |wide| ==> wide[k] == 0
    {
      limb := limb - 1;
      if wide[limb] != 0 {
        var bit := HighestBit(wide[limb]);
        TopLimb(wide, limb, bit);
        top := limb * 32 + bit;
        BitThere(wide, limb, bit);
        return;
      }
    }
    ValZeros(wide);
    PowZero();
    top := -1;
  }

  lemma PowZero()
    ensures Pow(2, 0) == 1
  {
  }

  lemma BitThere(s: seq<Limb>, limb: nat, bit: nat)
    requires limb < |s| && bit < 32
    ensures BitOf(Val(s), limb * 32 + bit) == BitOf(s[limb], bit)
  {
    LimbBitIsBit(s, limb * 32 + bit);
    assert (limb * 32 + bit) / 32 == limb && (limb * 32 + bit) % 32 == bit;
  }

  /** kernel/bignum.h bn_bit_length. */
  method BitLength(a: seq<Limb>) returns (len: nat)
    ensures len <= 32 * |a| && Val(a) < Pow(2, len)
    ensures len > 0 ==> BitOf(Val(a), len - 1) == 1
  {
    hide *;
    var used := UsedLimbs(a);
    if used == 0 {
      ValZeros(a);
      PowZero();
      return 0;
    }
    var bit := HighestBit(a[used - 1]);
    TopLimb(a, used - 1, bit);
    BitThere(a, used - 1, bit);
    len := (used - 1) * 32 + bit + 1;
  }

  // ---------- bn_mod_wide ----------

  /** The shift loop: the low limbs done hold twice the low limbs of rem, and the carry. */
  ghost predicate DoubleInv(done: seq<Limb>, s: seq<Limb>, carry: int, first: int)
    requires |done| <= |s|
  {
    0 <= carry <= 1 && Val(done) + Mul(carry, WPow(|done|)) == 2 * Val(s[..|done|]) + first
  }

  lemma DoubleStart(s: seq<Limb>, first: int)
    requires 0 <= first <= 1
    ensures DoubleInv([], s, first, first)
  {
    assert s[..0] == [];
    assert WPow(0) == 1;
  }

  lemma DoubleStep(done: seq<Limb>, s: seq<Limb>, carry: int, first: int)
    requires |done| < |s| && DoubleInv(done, s, carry, first)
    ensures var d := 2 * s[|done|] + carry;
      && d % 0x1_0000_0000 == (s[|done|] * 2) % 0x1_0000_0000 + carry && d / 0x1_0000_0000 == s[|done|] / 0x8000_0000
      && DoubleInv(done + [d % 0x1_0000_0000], s, d / 0x1_0000_0000, first)
  {
    hide Mul, Val;
    var j, x: int := |done|, s[|done|];
    var d := 2 * x + carry;
    ValPrefix(s, j);
    ValAppend(done, d % 0x1_0000_0000);
    CarryStep(d, WPow(j));
    MulAdd(2 * x, carry, WPow(j));
    MulAdd(x, x, WPow(j));
    assert (done + [d % 0x1_0000_0000])[..j] == done;
  }

  /** rem = 2 * rem + inBit within `work` limbs; the limbs above stay zero. */
  method ShiftIn(rem: array<Limb>, work: nat, inBit: nat)
    requires inBit <= 1 && 1 <= work <= rem.Length && 2 * Val(rem[..]) + 1 < WPow(work)
    modifies rem
    ensures Val(rem[..]) == 2 * old(Val(rem[..])) + inBit
  {
    hide *;
    ghost var s := rem[..];
    BelowHalf(s, work);
    var carry: int := 0;
    DoubleStart(s, 0);
    assert rem[..0] == [];
    for i := 0 to work
      invariant DoubleInv(rem[..i], s, carry, 0) && 0 <= carry <= 1
      invariant rem[i..] == s[i..]
    {
      ghost var done := rem[..i];
      assert rem[i] == rem[i..][0] == s[i..][0] == s[i];
      DoubleStep(done, s, carry, 0);
      var newCarry := rem[i] / 0x8000_0000;
      rem[i] := (rem[i] * 2) % 0x1_0000_0000 + carry;
      carry := newCarry;
      assert rem[..i + 1] == done + [rem[i]];
    }
    DoubleEnds(rem[..], s, work, carry);
    ghost var t := rem[..];
    EvenLow(t, s);
    rem[0] := rem[0] + inBit;
    assert rem[..] == t[0 := t[0] + inBit];
    AddLow(t, inBit);
  }

  lemma BelowHalf(s: seq<Limb>, work: nat)
    requires work <= |s| && 2 * Val(s) + 1 < WPow(work)
    ensures forall k :: work <= k < |s| ==> s[k] == 0
    ensures Val(s[..work]) == Val(s)
  {
    forall k | work <= k < |s| ensures s[k] == 0 {
      HighZero(s, work, k);
    }
    ValLow(s, work);
  }

  lemma DoubleEnds(t: seq<Limb>, s: seq<Limb>, work: nat, carry: int)
    requires work <= |s| == |t| && (forall k :: work <= k < |s| ==> s[k] == 0) && t[work..] == s[work..]
    requires DoubleInv(t[..work], s, carry, 0) && 2 * Val(s) + 1 < WPow(work)
    ensures Val(t) == 2 * Val(s)
  {
    hide Mul;
    ValLow(s, work);
    forall k | work <= k < |t| ensures t[k] == 0 {
      assert t[k] == t[work..][k - work] == s[work..][k - work] == s[k];
    }
    ValLow(t, work);
    if carry == 1 { MulUnit(WPow(work)); }
    if carry == 0 { MulUnit(WPow(work)); }
  }

  /** After the shift the low bit is clear, so that or-ing a bit in adds it. */
  lemma EvenLow(t: seq<Limb>, s: seq<Limb>)
    requires |t| > 0 && Val(t) == 2 * Val(s)
    ensures t[0] % 2 == 0
  {
  }

  lemma AddLow(t: seq<Limb>, bit: nat)
    requires |t| > 0 && t[0] % 2 == 0 && bit <= 1
    ensures t[0] + bit < 0x1_0000_0000 && Val(t[0 := t[0] + bit]) == Val(t) + bit
  {
    assert t[0 := t[0] + bit][1..] == t[1..];
  }

  /** The remainder after one more bit of the dividend. */
  lemma DivisionStep(x: nat, bit: nat, m: nat, rem: nat)
    requires m > 0
    ensures Pow(2, bit) > 0 && Pow(2, bit + 1) > 0
    ensures rem == (x / Pow(2, bit + 1)) % m ==>
      var d := 2 * rem + BitOf(x, bit);
      d < 2 * m && (x / Pow(2, bit)) % m == if d >= m then d - m else d
  {
    ShiftStep(x, bit);
    var q := x / Pow(2, bit + 1);
    if rem == q % m {
      var d := 2 * rem + BitOf(x, bit);
      DivModMul(q, m);
      var k := q / m;
      assert 2 * Mul(m, k) == Mul(m, 2 * k) by { MulAdd(k, k, m); }
      if d >= m {
        MulAdd(2 * k, 1, m);
        MulUnit(m);
        DivModUniqueMul(x / Pow(2, bit), m, 2 * k + 1, d - m);
      } else {
        DivModUniqueMul(x / Pow(2, bit), m, 2 * k, d);
      }
    }
  }

  /** The working width of bn_mod_wide holds twice the remainder and one more bit: one guard
      limb where there is room for it, and moduli up to 2^4159 where there is not. */
  lemma WorkingWidth(m: seq<Limb>, used: nat, rem: nat)
    requires |m| == LIMBS && used <= LIMBS && (forall k :: used <= k < LIMBS ==> m[k] == 0)
    requires rem < Val(m) && 2 * Val(m) <= WPow(LIMBS)
    ensures var work := if used + 1 > LIMBS then LIMBS else used + 1; 2 * rem + 1 < WPow(work)
  {
    hide WPow, Val;
    ValLow(m, used);
    WPowNext(used);
  }

  /** The dividend's bits above `bit` have been divided. */
  ghost predicate DivInv(rem: nat, x: nat, bit: int, m: nat)
    requires m > 0 && bit >= -1
  {
    Pow(2, bit + 1) > 0 && rem == (x / Pow(2, bit + 1)) % m
  }

  /** One round of the division loop. */
  method DivideBit(rem: array<Limb>, wide: seq<Limb>, mod: array<Limb>, work: nat, bit: nat)
    requires rem != mod && rem.Length == mod.Length == LIMBS && bit < 32 * |wide| && 1 <= work <= LIMBS
    requires Val(mod[..]) > 0 && DivInv(Val(rem[..]), Val(wide), bit, Val(mod[..]))
    requires 2 * Val(rem[..]) + 1 < WPow(work)
    modifies rem
    ensures DivInv(Val(rem[..]), Val(wide), bit - 1, Val(mod[..]))
  {
    hide *;
    ghost var r0 := Val(rem[..]);
    DivisionStep(Val(wide), bit, Val(mod[..]), r0);
    DivInvIs(r0, Val(wide), bit, Val(mod[..]));
    LimbBitIsBit(wide, bit);
    var inBit := LimbBit(wide, bit);
    ShiftIn(rem, work, inBit);
    var c := Compare(rem[..], mod[..]);
    if c >= 0 {
      Sub(rem, rem, mod);
    }
    DivInvNext(Val(rem[..]), Val(wide), bit, Val(mod[..]));
  }

  lemma DivInvIs(rem: nat, x: nat, bit: int, m: nat)
    requires m > 0 && bit >= -1 && DivInv(rem, x, bit, m)
    ensures Pow(2, bit + 1) > 0 && rem == (x / Pow(2, bit + 1)) % m && rem < m
  {
  }

  lemma DivInvNext(r: nat, x: nat, bit: nat, m: nat)
    requires m > 0 && Pow(2, bit) > 0 && r == (x / Pow(2, bit)) % m
    ensures DivInv(r, x, bit - 1, m)
  {
  }

  lemma DivInvStart(x: nat, top: int, m: nat)
    requires m > 0 && top >= -1 && x < Pow(2, top + 1)
    ensures DivInv(0, x, top, m)
  {
    ShiftAll(x, top + 1);
  }

  lemma DivInvEnds(rem: nat, x: nat, m: nat)
    requires m > 0 && DivInv(rem, x, -1, m)
    ensures rem == x % m
  {
    assert Pow(2, 0) == 1;
  }

  /** kernel/bignum.h bn_mod_wide; result may alias mod. */
  method ModWide(result: array<Limb>, wide: seq<Limb>, mod: array<Limb>)
    requires result.Length == mod.Length == LIMBS
    requires 0 < Val(mod[..]) && 2 * Val(mod[..]) <= WPow(LIMBS)
    modifies result
    ensures Val(result[..]) == Val(wide) % old(Val(mod[..]))
  {
    hide Val, WPow, Pow, DivInv;
    var rem := new Limb[LIMBS](_ => 0);
    ValZeros(rem[..]);
    var top := WideBitLength(wide);
    var used := UsedLimbs(mod[..]);
    var work := if used + 1 > LIMBS then LIMBS else used + 1;
    DivInvStart(Val(wide), top, Val(mod[..]));
    var bit := top;
    while bit >= 0
      invariant -1 <= bit <= top && mod[..] == old(mod[..])
      invariant DivInv(Val(rem[..]), Val(wide), bit, Val(mod[..]))
    {
      DivInvIs(Val(rem[..]), Val(wide), bit, Val(mod[..]));
      WorkingWidth(mod[..], used, Val(rem[..]));
      DivideBit(rem, wide, mod, work, bit);
      bit := bit - 1;
    }
    DivInvEnds(Val(rem[..]), Val(wide), Val(mod[..]));
    Copy(result, rem[..]);
  }

  /** kernel/bignum.h bn_mulmod. */
  method MulMod(result: array<Limb>, a: seq<Limb>, b: seq<Limb>, m: array<Limb>)
    requires result.Length == m.Length == LIMBS == |a| == |b|
    requires 0 < Val(m[..]) && 2 * Val(m[..]) <= WPow(LIMBS)
    modifies result
    ensures Val(result[..]) == (Val(a) * Val(b)) % old(Val(m[..]))
  {
    hide Val, WPow;
    var wide := new Limb[2 * LIMBS];
    MulWide(wide, a, b);
    ModWide(result, wide[..], m);
  }

  // ---------- square and multiply ----------

  /** acc is the power for the exponent bits above `bit`, reduced once a round has been made. */
  ghost predicate PowInv(acc: nat, base: nat, e: nat, bit: int, started: bool, m: nat)
    requires m > 0 && bit >= -1
  {
    Pow(2, bit + 1) > 0 && acc % m == Pow(base, e / Pow(2, bit + 1)) % m && (if started then acc < m else acc == 1)
  }

  lemma PowStart(base: nat, e: nat, top: int, m: nat)
    requires m > 0 && top >= -1 && e < Pow(2, top + 1)
    ensures PowInv(1, base, e, top, false, m)
  {
    ShiftAll(e, top + 1);
  }

  /** One round: a squaring, and a multiplication by the reduced base if the bit is set. */
  lemma PowStep(acc: nat, base: nat, b: nat, e: nat, bit: nat, started: bool, m: nat)
    requires m > 0 && PowInv(acc, base, e, bit, started, m) && b % m == base % m
    ensures var sq := (acc * acc) % m;
      PowInv(if BitOf(e, bit) == 1 then (sq * b) % m else sq, base, e, bit - 1, true, m)
  {
    ShiftStep(e, bit);
    var q := e / Pow(2, bit + 1);
    PowDouble(base, q);
    var p := Pow(base, q);
    MulCong(acc, p, acc, p, m);
    ModMod(acc * acc, m);
    var sq := (acc * acc) % m;
    MulCong(sq, p * p, b, base, m);
    ModMod(sq * b, m);
  }

  lemma PowEnds(acc: nat, base: nat, e: nat, started: bool, m: nat)
    requires m > 0 && PowInv(acc, base, e, -1, started, m)
    ensures acc == if started then Pow(base, e) % m else 1
    ensures Pow(base, 0) == 1
  {
    assert Pow(2, 0) == 1;
    if started { ModSmall(acc, m); }
  }

  /** The base, reduced first if it is not below m. */
  method ReduceBase(base: seq<Limb>, m: array<Limb>) returns (b: array<Limb>)
    requires |base| == m.Length == LIMBS && 0 < Val(m[..]) && 2 * Val(m[..]) <= WPow(LIMBS)
    ensures fresh(b) && b.Length == LIMBS && Val(b[..]) == Val(base) % Val(m[..])
  {
    hide Val, WPow;
    b := new Limb[LIMBS];
    Copy(b, base);
    var c := Compare(b[..], m[..]);
    if c >= 0 {
      var wide := base + seq(LIMBS, _ => 0 as Limb);
      WideCopy(base, wide);
      ModWide(b, wide, m);
    } else {
      ModSmall(Val(base), Val(m[..]));
    }
  }

  lemma WideCopy(a: seq<Limb>, wide: seq<Limb>)
    requires |a| <= |wide| && wide[..|a|] == a && forall k :: |a| <= k < |wide| ==> wide[k] == 0
    ensures Val(wide) == Val(a)
  {
    hide Val;
    ValLow(wide, |a|);
  }

  /** One round of square-and-multiply on the accumulator. */
  method PowRound(acc: array<Limb>, b: array<Limb>, m: array<Limb>, bitSet: bool, ghost base: nat, ghost e: nat, ghost bit: nat,
                  ghost started: bool)
    requires acc.Length == b.Length == m.Length == LIMBS && acc != b && acc != m
    requires 0 < Val(m[..]) && 2 * Val(m[..]) <= WPow(LIMBS) && Val(b[..]) % Val(m[..]) == base % Val(m[..])
    requires bitSet <==> BitOf(e, bit) == 1
    requires PowInv(Val(acc[..]), base, e, bit, started, Val(m[..]))
    modifies acc
    ensures PowInv(Val(acc[..]), base, e, bit - 1, true, Val(m[..]))
  {
    hide Val, WPow, PowInv, BitOf;
    PowStep(Val(acc[..]), base, Val(b[..]), e, bit, started, Val(m[..]));
    var sq := new Limb[LIMBS];
    MulMod(sq, acc[..], acc[..], m);
    Copy(acc, sq[..]);
    if bitSet {
      var mul := new Limb[LIMBS];
      MulMod(mul, acc[..], b[..], m);
      Copy(acc, mul[..]);
    }
  }

  method One() returns (acc: array<Limb>)
    ensures fresh(acc) && acc.Length == LIMBS && Val(acc[..]) == 1
  {
    acc := new Limb[LIMBS](_ => 0);
    acc[0] := 1;
    ValSingle(acc[..]);
  }

  /** kernel/bignum.h bn_modpow: any exponent of the type. */
  method ModPow(result: array<Limb>, base: seq<Limb>, exp: seq<Limb>, m: array<Limb>)
    requires result.Length == m.Length == |base| == |exp| == LIMBS
    requires 0 < Val(m[..]) && 2 * Val(m[..]) <= WPow(LIMBS)
    modifies result
    ensures Val(result[..]) == PowerOrOne(Val(base), Val(exp), old(Val(m[..])))
  {
    hide Val, WPow, PowInv, Pow, BitOf;
    ghost var mv := Val(m[..]);
    var acc := One();
    var b := ReduceBase(base, m);
    ModMod(Val(base), mv);
    var len: int := BitLength(exp);
    var i: int := len - 1;
    PowStart(Val(base), Val(exp), i, mv);
    while i >= 0
      invariant -1 <= i < len && m[..] == old(m[..]) && Val(b[..]) % mv == Val(base) % mv
      invariant PowInv(Val(acc[..]), Val(base), Val(exp), i, i < len - 1, mv)
    {
      LimbBitIsBit(exp, i);
      PowRound(acc, b, m, LimbBit(exp, i) == 1, Val(base), Val(exp), i, i < len - 1);
      i := i - 1;
    }
    PowEnds(Val(acc[..]), Val(base), Val(exp), len > 0, mv);
    Exponent(Val(exp), len, len > 0);
    Copy(result, acc[..]);
  }

  /** No bits at all means exponent zero; a top bit means it is not zero. */
  lemma Exponent(e: nat, len: nat, some: bool)
    requires some == (len > 0) && (len == 0 ==> e < Pow(2, 0)) && (len > 0 ==> BitOf(e, len - 1) == 1)
    ensures some <==> e > 0
  {
    if len > 0 { ZeroBit(len - 1); }
  }

  lemma ZeroBit(i: nat)
    ensures BitOf(0, i) == 0
  {
    PowPos(2, i);
    ModSmall(0, Pow(2, i));
  }

  /** What both routines compute: the accumulator that is never touched stays 1. */
  function PowerOrOne(base: nat, e: nat, m: nat): nat
    requires m > 0
  {
    if e == 0 then 1 else Pow(base, e) % m
  }

  /** That is the power modulo m exactly when m is not 1 or the exponent is not 0. */
  lemma PowerExactlyWhen(base: nat, e: nat, m: nat)
    requires m > 0
    ensures PowerOrOne(base, e, m) == Pow(base, e) % m <==> m > 1 || e > 0
  {
    if e == 0 && m > 1 { ModSmall(1, m); }
  }

  /** With modulus 1 and exponent 0 the routines answer 1, which is not reduced. */
  lemma UnreducedOne()
    ensures PowerOrOne(5, 0, 1) == 1 && Pow(5, 0) % 1 == 0
  {
  }

  /** kernel/bignum.h bn_modpow_u32exp: an exponent of one word. */
  method ModPow32(result: array<Limb>, base: seq<Limb>, exp: Limb, m: array<Limb>)
    requires result.Length == m.Length == |base| == LIMBS
    requires 0 < Val(m[..]) && 2 * Val(m[..]) <= WPow(LIMBS)
    modifies result
    ensures Val(result[..]) == PowerOrOne(Val(base), exp, old(Val(m[..])))
  {
    hide Val, WPow, PowInv, Pow, BitOf, WordBit;
    ghost var mv := Val(m[..]);
    var acc := One();
    var b := ReduceBase(base, m);
    ModMod(Val(base), mv);
    var top := TopBit(exp);
    var i: int := top;
    PowStart(Val(base), exp, i, mv);
    while i >= 0
      invariant -1 <= i <= top && m[..] == old(m[..]) && Val(b[..]) % mv == Val(base) % mv
      invariant PowInv(Val(acc[..]), Val(base), exp, i, i < top, mv)
    {
      WordBitIs(exp, i);
      PowRound(acc, b, m, WordBit(exp, i) == 1, Val(base), exp, i, i < top);
      i := i - 1;
    }
    PowEnds(Val(acc[..]), Val(base), exp, top >= 0, mv);
    Exponent(exp, top + 1, top >= 0);
    Copy(result, acc[..]);
  }

  /** The highest set bit of the exponent word, or -1. */
  method TopBit(exp: Limb) returns (top: int)
    ensures -1 <= top < 32 && exp < Pow(2, top + 1) && (top >= 0 ==> BitOf(exp, top) == 1)
  {
    hide *;
    PowWordOne();
    var i: int := 31;
    while i >= 0
      invariant -1 <= i <= 31 && exp < Pow(2, i + 1)
    {
      WordBitIs(exp, i);
      if WordBit(exp, i) == 1 { return i; }
      TopWord(exp, i);
      i := i - 1;
    }
    top := -1;
  }

  /** The two routines run side by side on an exponent of one word: they leave the same limbs. */
  method RoutinesAgree(base: seq<Limb>, exp: seq<Limb>, m: array<Limb>) returns (full: array<Limb>, word: array<Limb>)
    requires m.Length == |base| == |exp| == LIMBS && forall k :: 1 <= k < LIMBS ==> exp[k] == 0
    requires 0 < Val(m[..]) && 2 * Val(m[..]) <= WPow(LIMBS)
    ensures full[..] == word[..] && Val(full[..]) == PowerOrOne(Val(base), Val(exp), Val(m[..]))
  {
    hide Val, WPow, PowerOrOne;
    ghost var mod := m[..];
    full, word := new Limb[LIMBS](_ => 0), new Limb[LIMBS](_ => 0);
    ModPow(full, base, exp, m);
    assert m[..] == mod;
    ModPow32(word, base, exp[0], m);
    ValSingle(exp);
    ValInjective(full[..], word[..]);
  }

  // ---------- addition and subtraction of residues ----------

  /** kernel/bignum.h bn_addmod. */
  method AddMod(result: array<Limb>, a: array<Limb>, b: array<Limb>, m: array<Limb>)
    requires result.Length == a.Length == b.Length == m.Length == LIMBS
    requires Val(a[..]) < Val(m[..]) && Val(b[..]) < Val(m[..]) && 2 * Val(m[..]) <= WPow(LIMBS)
    modifies result
    ensures Val(result[..]) == (old(Val(a[..])) + old(Val(b[..]))) % old(Val(m[..]))
  {
    hide Val, WPow;
    ghost var x, y, z := Val(a[..]), Val(b[..]), Val(m[..]);
    var sum := new Limb[LIMBS];
    Add(sum, a, b);
    ModSmall(x + y, WPow(LIMBS));
    var c := Compare(sum[..], m[..]);
    if c >= 0 {
      var reduced := new Limb[LIMBS];
      Sub(reduced, sum, m);
      DivModUnique(x + y, z, 1, x + y - z);
      Copy(result, reduced[..]);
    } else {
      ModSmall(x + y, z);
      Copy(result, sum[..]);
    }
  }

  /** kernel/bignum.h bn_submod. */
  method SubMod(result: array<Limb>, a: array<Limb>, b: array<Limb>, m: array<Limb>)
    requires result.Length == a.Length == b.Length == m.Length == LIMBS
    requires Val(a[..]) < Val(m[..]) && Val(b[..]) < Val(m[..])
    modifies result
    ensures Val(result[..]) == (old(Val(a[..])) - old(Val(b[..]))) % old(Val(m[..]))
  {
    hide Val;
    ghost var x: int, y: int, z: int := Val(a[..]), Val(b[..]), Val(m[..]);
    var c := Compare(a[..], b[..]);
    if c >= 0 {
      Sub(result, a, b);
      ModSmall(x - y, z);
    } else {
      var diff := new Limb[LIMBS];
      Sub(diff, b, a);
      Sub(result, m, diff);
      DivModUnique(x - y, z, -1, x - y + z);
    }
  }
}
