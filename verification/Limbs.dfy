/** Multi-limb integers: little-endian sequences of 32-bit limbs, and the plain
    helpers of kernel/ecc.h on them.  Arrays play the part of the C limb
    buffers and are changed in place; results may alias operands. */
module Limbs {
  import opened ModArith

  type Limb = x: int | 0 <= x < 0x1_0000_0000

  /** The number a little-endian limb sequence denotes. */
  function Val(s: seq<Limb>): (v: nat)
    decreases |s|
  {
    if |s| == 0 then 0 else s[0] + 0x1_0000_0000 * Val(s[1..])
  }

  /** 2^(32n). */
  function WPow(n: nat): (r: nat)
    ensures r > 0
  {
    if n == 0 then 1 else 0x1_0000_0000 * WPow(n - 1)
  }

  /** Pulling the word base out of a product. */
  lemma MulWord(x: int, p: int)
    ensures Mul(x, 0x1_0000_0000 * p) == 0x1_0000_0000 * Mul(x, p)
    ensures Mul(0x1_0000_0000 * p, x) == 0x1_0000_0000 * Mul(p, x)
  {
  }

  lemma {:induction false} ValAppend(s: seq<Limb>, x: Limb)
    ensures Val(s + [x]) == Val(s) + Mul(x, WPow(|s|))
    decreases |s|
  {
    hide Mul;
    if |s| == 0 {
      assert (s + [x])[1..] == [];
      MulUnit(x);
    } else {
      ValAppend(s[1..], x);
      assert (s + [x])[1..] == s[1..] + [x];
      MulWord(x, WPow(|s| - 1));
    }
  }

  /** Extending a prefix by one limb. */
  lemma ValPrefix(s: seq<Limb>, j: nat)
    requires j < |s|
    ensures Val(s[..j + 1]) == Val(s[..j]) + Mul(s[j], WPow(j))
  {
    hide *;
    assert s[..j + 1] == s[..j] + [s[j]];
    ValAppend(s[..j], s[j]);
  }

  lemma ValWhole(s: seq<Limb>)
    ensures Val(s[..|s|]) == Val(s)
  {
    assert s[..|s|] == s;
  }

  lemma {:induction false} ValBound(s: seq<Limb>)
    ensures Val(s) < WPow(|s|)
    decreases |s|
  {
    if |s| > 0 { ValBound(s[1..]); }
  }

  lemma {:induction false} ValSplit(s: seq<Limb>, k: nat)
    requires k <= |s|
    ensures Val(s) == Val(s[..k]) + Mul(WPow(k), Val(s[k..]))
    decreases |s|
  {
    hide Mul;
    if k == 0 {
      assert s[..0] == [] && s[0..] == s;
      MulUnit(Val(s));
    } else {
      ValSplit(s[1..], k - 1);
      assert s[1..][..k - 1] == s[..k][1..];
      assert s[1..][k - 1..] == s[k..];
      MulWord(Val(s[k..]), WPow(k - 1));
    }
  }

  lemma {:induction false} ValInjective(s: seq<Limb>, t: seq<Limb>)
    requires |s| == |t| && Val(s) == Val(t)
    ensures s == t
    decreases |s|
  {
    if |s| > 0 {
      assert s[0] == t[0] && Val(s[1..]) == Val(t[1..]);
      ValInjective(s[1..], t[1..]);
      assert s == [s[0]] + s[1..];
      assert t == [t[0]] + t[1..];
    }
  }

  lemma {:induction false} ValZeros(s: seq<Limb>)
    requires forall i :: 0 <= i < |s| ==> s[i] == 0
    ensures Val(s) == 0
    decreases |s|
  {
    if |s| > 0 { ValZeros(s[1..]); }
  }

  /** A number whose limbs above the first are zero is its first limb. */
  lemma ValSingle(s: seq<Limb>)
    requires |s| > 0 && forall i :: 1 <= i < |s| ==> s[i] == 0
    ensures Val(s) == s[0]
  {
    ValZeros(s[1..]);
  }

  /** A nonzero limb makes the number nonzero. */
  lemma ValNonzero(s: seq<Limb>, k: nat)
    requires k < |s| && s[k] != 0
    ensures Val(s) > 0
  {
    ValSplit(s, k);
    assert Val(s[k..]) == s[k] + 0x1_0000_0000 * Val(s[k..][1..]);
    MulGrows(WPow(k), Val(s[k..]));
    MulIs(WPow(k), Val(s[k..]));
  }

  /** The highest differing limb decides a comparison. */
  lemma ValTopLimb(s: seq<Limb>, t: seq<Limb>, i: nat)
    requires |s| == |t| && i < |s| && s[i] < t[i]
    requires forall k :: i < k < |s| ==> s[k] == t[k]
    ensures Val(s) < Val(t)
  {
    hide Mul, Val, WPow;
    ValSplit(s, i + 1);
    ValSplit(t, i + 1);
    assert s[i + 1..] == t[i + 1..];
    ValPrefix(s, i);
    ValPrefix(t, i);
    ValBound(s[..i]);
    MulMono(s[i] + 1, t[i], WPow(i));
    MulAdd(s[i], 1, WPow(i));
    MulUnit(WPow(i));
  }

  /** One column of a carry chain: digit sum x is stored as low word and carry. */
  lemma CarryStep(x: int, p: int)
    ensures Mul(x, p) == Mul(x % 0x1_0000_0000, p) + Mul(x / 0x1_0000_0000, 0x1_0000_0000 * p)
  {
    hide Mul;
    var q, r := x / 0x1_0000_0000, x % 0x1_0000_0000;
    assert x == r + 0x1_0000_0000 * q;
    MulAdd(r, 0x1_0000_0000 * q, p);
    MulWord(p, q);
    MulWord(q, p);
  }

  // ---------- bits ----------

  /** Bit i of a limb sequence, as the C code extracts it. */
  function LimbBit(s: seq<Limb>, i: nat): (b: nat)
    requires i < 32 * |s|
    ensures b <= 1
  {
    PowPos(2, i % 32);
    (s[i / 32] / Pow(2, i % 32)) % 2
  }

  lemma {:induction false} PowWord(n: nat)
    ensures Pow(2, 32 * n) == WPow(n)
  {
    if n > 0 {
      PowWord(n - 1);
      PowAdd(2, 32, 32 * (n - 1));
      PowWordOne();
    }
  }

  lemma PowWordOne()
    ensures Pow(2, 32) == 0x1_0000_0000
  {
    PowAdd(2, 16, 16);
    PowAdd(2, 8, 8);
    PowAdd(2, 4, 4);
    assert Pow(2, 4) == 16;
  }

  /** A bit of the lowest limb. */
  lemma LowLimbBit(x: Limb, rest: nat, i: nat)
    requires i < 32
    ensures BitOf(x + 0x1_0000_0000 * rest, i) == BitOf(x, i)
  {
    hide Mul, Pow;
    PowPos(2, i);
    var p, h := Pow(2, i), Pow(2, 31 - i);
    WordOfPowers(i);
    var q, r := x / p, x % p;
    var z := Mul(h, rest);
    DivModMul(x, p);
    MulAssoc(p, 2 * h, rest);
    TwiceTimes(h, rest);
    MulAdd(q, 2 * z, p);
    WordTimes(rest);
    DivModUniqueMul(x + 0x1_0000_0000 * rest, p, q + 2 * z, r);
    ModAddMultiple(q, 2, z);
  }

  lemma WordOfPowers(i: nat)
    requires i < 32
    ensures Mul(Pow(2, i), 2 * Pow(2, 31 - i)) == 0x1_0000_0000
  {
    PowAdd(2, i, 32 - i);
    PowWordOne();
    assert Pow(2, 32 - i) == 2 * Pow(2, 31 - i);
  }

  lemma WordTimes(x: int)
    ensures Mul(0x1_0000_0000, x) == 0x1_0000_0000 * x
  {
  }

  lemma TwiceTimes(h: int, x: int)
    ensures Mul(2 * h, x) == 2 * Mul(h, x)
  {
  }

  /** The extracted bits are the bits of the number. */
  lemma {:induction false} LimbBitIsBit(s: seq<Limb>, i: nat)
    requires i < 32 * |s|
    ensures LimbBit(s, i) == BitOf(Val(s), i)
    decreases |s|
  {
    if i < 32 {
      LowLimbBit(s[0], Val(s[1..]), i);
    } else {
      LimbBitIsBit(s[1..], i - 32);
      assert s[1..][(i - 32) / 32] == s[i / 32];
      PowPos(2, i - 32);
      PowAdd(2, 32, i - 32);
      PowWordOne();
      DivDiv(Val(s), 0x1_0000_0000, Pow(2, i - 32));
    }
  }

  // ---------- the plain helpers ----------

  /** kernel/ecc.h ecc_is_zero. */
  method IsZero(a: seq<Limb>) returns (z: bool)
    ensures z <==> Val(a) == 0
  {
    z := true;
    for i := 0 to |a|
      invariant z <==> forall k :: 0 <= k < i ==> a[k] == 0
    {
      if a[i] != 0 { z := false; }
    }
    if z {
      ValZeros(a);
    } else {
      var k :| 0 <= k < |a| && a[k] != 0;
      ValNonzero(a, k);
    }
  }

  /** kernel/ecc.h ecc_cmp: -1, 0 or 1. */
  method Compare(a: seq<Limb>, b: seq<Limb>) returns (c: int)
    requires |a| == |b|
    ensures c == if Val(a) < Val(b) then -1 else if Val(a) == Val(b) then 0 else 1
  {
    var i := |a|;
    while i > 0
      invariant 0 <= i <= |a|
      invariant a[i..] == b[i..]
    {
      i := i - 1;
      if a[i] != b[i] {
        assert forall k :: i < k < |a| ==> a[k] == a[i + 1..][k - i - 1] == b[k];
        if a[i] < b[i] {
          ValTopLimb(a, b, i);
          return -1;
        } else {
          ValTopLimb(b, a, i);
          return 1;
        }
      }
    }
    assert a == a[0..] == b[0..] == b;
    return 0;
  }

  /** kernel/ecc.h ecc_copy. */
  method Copy(r: array<Limb>, a: seq<Limb>)
    requires r.Length == |a|
    modifies r
    ensures r[..] == a
  {
    for i := 0 to r.Length
      invariant r[..i] == a[..i]
    {
      r[i] := a[i];
    }
  }

  /** The carry loop after |done| limbs: finished limbs and pending carry hold
      the sum of the operands' low limbs. */
  ghost predicate SumInv(done: seq<Limb>, a: seq<Limb>, b: seq<Limb>, c: int)
    requires |done| <= |a| == |b|
  {
    && 0 <= c <= 1
    && Val(done) + Mul(c, WPow(|done|)) == Val(a[..|done|]) + Val(b[..|done|])
  }

  lemma SumInvStep(done: seq<Limb>, a: seq<Limb>, b: seq<Limb>, c: int)
    requires |done| < |a| == |b| && SumInv(done, a, b, c)
    ensures var s := a[|done|] + b[|done|] + c;
      SumInv(done + [s % 0x1_0000_0000], a, b, s / 0x1_0000_0000)
  {
    hide Mul, Val;
    var j := |done|;
    var s := a[j] + b[j] + c;
    ValPrefix(a, j);
    ValPrefix(b, j);
    ValAppend(done, s % 0x1_0000_0000);
    CarryStep(s, WPow(j));
    var x: int, y: int := a[j], b[j];
    MulAdd(x + y, c, WPow(j));
    MulAdd(x, y, WPow(j));
    assert (done + [s % 0x1_0000_0000])[..j] == done;
  }

  lemma SumInvEnds(a: seq<Limb>, b: seq<Limb>, done: seq<Limb>, c: int)
    requires |a| == |b|
    ensures SumInv([], a, b, 0)
    ensures |done| == |a| && SumInv(done, a, b, c) ==> Val(done) + c * WPow(|a|) == Val(a) + Val(b)
  {
    assert a[..|a|] == a && b[..|b|] == b;
  }

  /** kernel/ecc.h ecc_add_raw: r = a + b with the carry out; r may alias a or b. */
  method AddRaw(r: array<Limb>, a: array<Limb>, b: array<Limb>) returns (carry: Limb)
    requires r.Length == a.Length == b.Length
    modifies r
    ensures carry <= 1
    ensures Val(r[..]) + carry * WPow(r.Length) == old(Val(a[..])) + old(Val(b[..]))
  {
    hide *;
    ghost var sa, sb := a[..], b[..];
    var c: int := 0;
    SumInvEnds(sa, sb, [], 0);
    assert r[..0] == [];
    for i := 0 to r.Length
      invariant 0 <= c <= 1
      invariant forall k :: i <= k < r.Length ==> a[k] == sa[k] && b[k] == sb[k]
      invariant SumInv(r[..i], sa, sb, c)
    {
      ghost var done := r[..i];
      var s := a[i] + b[i] + c;
      SumInvStep(done, sa, sb, c);
      r[i] := s % 0x1_0000_0000;
      c := s / 0x1_0000_0000;
      assert r[..i + 1] == done + [s % 0x1_0000_0000];
    }
    carry := c;
    assert r[..r.Length] == r[..];
    SumInvEnds(sa, sb, r[..], c);
  }

  /** kernel/ecc.h ecc_add_raw with a constant second operand; r may alias a. */
  method AddWords(r: array<Limb>, a: array<Limb>, b: seq<Limb>) returns (carry: Limb)
    requires r.Length == a.Length == |b|
    modifies r
    ensures carry <= 1
    ensures Val(r[..]) + carry * WPow(r.Length) == old(Val(a[..])) + Val(b)
  {
    hide *;
    ghost var sa := a[..];
    var c: int := 0;
    SumInvEnds(sa, b, [], 0);
    assert r[..0] == [];
    for i := 0 to r.Length
      invariant 0 <= c <= 1
      invariant forall k :: i <= k < r.Length ==> a[k] == sa[k]
      invariant SumInv(r[..i], sa, b, c)
    {
      ghost var done := r[..i];
      var s := a[i] + b[i] + c;
      SumInvStep(done, sa, b, c);
      r[i] := s % 0x1_0000_0000;
      c := s / 0x1_0000_0000;
      assert r[..i + 1] == done + [s % 0x1_0000_0000];
    }
    carry := c;
    assert r[..r.Length] == r[..];
    SumInvEnds(sa, b, r[..], c);
  }

  /** The borrow loop after |done| limbs. */
  ghost predicate DiffInv(done: seq<Limb>, a: seq<Limb>, b: seq<Limb>, br: int)
    requires |done| <= |a| == |b|
  {
    && 0 <= br <= 1
    && Val(done) == Val(a[..|done|]) - Val(b[..|done|]) + Mul(br, WPow(|done|))
  }

  /** The unsigned 64-bit difference of one column; its bit 32 is the borrow. */
  function Column(x: Limb, y: Limb, br: int): (d: int)
    requires 0 <= br <= 1
    ensures 0 <= (d / 0x1_0000_0000) % 2 <= 1
    ensures x - y - br == d % 0x1_0000_0000 - 0x1_0000_0000 * ((d / 0x1_0000_0000) % 2)
  {
    var e := x - y - br;
    var d := e % 0x1_0000_0000_0000_0000;
    assert d == if e < 0 then e + 0x1_0000_0000_0000_0000 else e;
    d
  }

  lemma DiffInvStep(done: seq<Limb>, a: seq<Limb>, b: seq<Limb>, br: int)
    requires |done| < |a| == |b| && DiffInv(done, a, b, br)
    ensures var d := Column(a[|done|], b[|done|], br);
      DiffInv(done + [d % 0x1_0000_0000], a, b, (d / 0x1_0000_0000) % 2)
  {
    hide Mul, Val, Column;
    var j := |done|;
    var p := WPow(j);
    var x: int, y: int := a[j], b[j];
    var d := Column(a[j], b[j], br);
    var lo, out := d % 0x1_0000_0000, (d / 0x1_0000_0000) % 2;
    ValPrefix(a, j);
    ValPrefix(b, j);
    ValAppend(done, lo);
    MulAdd(x - y, br, p);
    MulAdd(x, y, p);
    MulAdd(lo, 0x1_0000_0000 * out, p);
    MulWord(p, out);
    MulWord(out, p);
    assert (done + [lo])[..j] == done;
  }

  lemma DiffInvEnds(a: seq<Limb>, b: seq<Limb>, done: seq<Limb>, br: int)
    requires |a| == |b|
    ensures DiffInv([], a, b, 0)
    ensures |done| == |a| && DiffInv(done, a, b, br) ==>
      Val(done) == Val(a) - Val(b) + br * WPow(|a|) && (br == 1 <==> Val(a) < Val(b))
  {
    assert a[..|a|] == a && b[..|b|] == b;
    ValBound(done);
    ValBound(a);
    if br == 0 { MulUnit(WPow(|a|)); }
    if br == 1 { MulUnit(WPow(|a|)); }
  }

  /** kernel/ecc.h ecc_sub_raw: r = a - b with the borrow out, on the low
      r.Length limbs of a; r may alias a. */
  method SubRaw(r: array<Limb>, a: array<Limb>, b: seq<Limb>) returns (borrow: Limb)
    requires r.Length == |b| <= a.Length
    modifies r
    ensures borrow <= 1
    ensures Val(r[..]) == old(Val(a[..|b|])) - Val(b) + borrow * WPow(|b|)
    ensures borrow == 1 <==> old(Val(a[..|b|])) < Val(b)
  {
    hide *;
    ghost var n := |b|;
    ghost var sa := a[..n];
    var br: int := 0;
    DiffInvEnds(sa, b, [], 0);
    assert r[..0] == [];
    for i := 0 to r.Length
      invariant 0 <= br <= 1
      invariant forall k :: i <= k < n ==> a[k] == sa[k]
      invariant DiffInv(r[..i], sa, b, br)
    {
      ghost var done := r[..i];
      var d := Column(a[i], b[i], br);
      DiffInvStep(done, sa, b, br);
      r[i] := d % 0x1_0000_0000;
      br := (d / 0x1_0000_0000) % 2;
      assert r[..i + 1] == done + [d % 0x1_0000_0000];
    }
    borrow := br;
    assert r[..n] == r[..];
    DiffInvEnds(sa, b, r[..], br);
  }
}
