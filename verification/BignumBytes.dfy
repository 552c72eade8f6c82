/** kernel/bignum.h:51-74: numbers from and to big-endian bytes. */
module BignumBytes {
  import opened Octets
  import opened ModArith
  import opened Limbs
  import opened Bignum

  /** 256^n. */
  function Pow256(n: nat): (r: nat)
    ensures r > 0
  {
    if n == 0 then 1 else 256 * Pow256(n - 1)
  }

  /** The number a big-endian byte string denotes. */
  function BeVal(d: seq<Byte>): nat {
    if |d| == 0 then 0 else Mul(d[0], Pow256(|d| - 1)) + BeVal(d[1..])
  }

  lemma {:induction false} BeBound(d: seq<Byte>)
    ensures BeVal(d) < Pow256(|d|)
    decreases |d|
  {
    hide Mul;
    if |d| > 0 {
      BeBound(d[1..]);
      MulMono(d[0], 255, Pow256(|d| - 1));
      Mul255(Pow256(|d| - 1));
    }
  }

  lemma Mul255(x: int)
    ensures Mul(255, x) == 255 * x
  {
  }

  lemma Mul256(x: int, y: int)
    ensures Mul(256 * x, y) == 256 * Mul(x, y) && Mul(x, 256 * y) == 256 * Mul(x, y)
  {
  }

  lemma {:induction false} Pow256Add(m: nat, n: nat)
    ensures Pow256(m + n) == Mul(Pow256(m), Pow256(n))
  {
    hide Mul;
    if m == 0 {
      MulUnit(Pow256(n));
    } else {
      Pow256Add(m - 1, n);
      Mul256(Pow256(m - 1), Pow256(n));
    }
  }

  lemma {:induction false} Pow256Word(n: nat)
    ensures Pow256(4 * n) == WPow(n)
  {
    if n > 0 {
      Pow256Word(n - 1);
      assert Pow256(4 * n) == 256 * Pow256(4 * n - 1);
      assert Pow256(4 * n - 1) == 256 * Pow256(4 * n - 2);
      assert Pow256(4 * n - 2) == 256 * Pow256(4 * n - 3);
      assert Pow256(4 * n - 3) == 256 * Pow256(4 * (n - 1));
    }
  }

  lemma SmallPowers()
    ensures Pow256(0) == 1 && Pow256(1) == 256 && Pow256(2) == 0x1_0000 && Pow256(3) == 0x100_0000
  {
  }

  lemma {:induction false} BeInjective(c: seq<Byte>, d: seq<Byte>)
    requires |c| == |d| && BeVal(c) == BeVal(d)
    ensures c == d
    decreases |c|
  {
    hide Mul;
    if |c| > 0 {
      var p := Pow256(|c| - 1);
      BeBound(c[1..]);
      BeBound(d[1..]);
      MulSwap(c[0], p);
      MulSwap(d[0], p);
      DivModUniqueMul(BeVal(c), p, c[0], BeVal(c[1..]));
      DivModUniqueMul(BeVal(d), p, d[0], BeVal(d[1..]));
      BeInjective(c[1..], d[1..]);
      assert c == [c[0]] + c[1..] && d == [d[0]] + d[1..];
    }
  }

  // ---------- bn_from_bytes_be ----------

  /** What a limb holds while byte i is being put in: the bits at its place are clear. */
  lemma RoomForByte(a: seq<Limb>, i: nat)
    requires i / 4 < |a| && Val(a) < Pow256(i)
    ensures a[i / 4] < Pow256(i % 4)
  {
    hide Mul, Val, WPow;
    var k, r := i / 4, i % 4;
    Pow256Word(k);
    assert i == 4 * k + r;
    Pow256Add(4 * k, r);
    hide Pow256;
    LimbBelow(a, k);
    MulSwap(WPow(k), Pow256(r));
    if a[k] >= Pow256(r) { MulMono(Pow256(r), a[k], WPow(k)); }
  }

  lemma PutByte(a: seq<Limb>, i: nat, x: Byte, rest: nat)
    requires i / 4 < |a| && Val(a) == rest < Pow256(i)
    ensures 0 <= a[i / 4] + Mul(x, Pow256(i % 4)) < 0x1_0000_0000
    ensures Val(a[i / 4 := a[i / 4] + Mul(x, Pow256(i % 4))]) == Mul(x, Pow256(i)) + rest
  {
    hide Mul, Val, WPow;
    var k, r := i / 4, i % 4;
    RoomForByte(a, i);
    ByteFits(a[k], x, r);
    ValUpdate(a, k, a[k] + Mul(x, Pow256(r)));
    Pow256Word(k);
    assert i == 4 * k + r;
    Pow256Add(4 * k, r);
    MulAssoc(x, Pow256(r), WPow(k));
    MulSwap(WPow(k), Pow256(r));
  }

  lemma ByteFits(y: int, x: Byte, r: nat)
    requires r < 4 && 0 <= y < Pow256(r)
    ensures 0 <= y + Mul(x, Pow256(r)) < 0x1_0000_0000
  {
    SmallPowers();
    hide Mul, Pow256;
    MulMono(x, 255, Pow256(r));
    Mul255(Pow256(r));
    MulNat(x, Pow256(r));
  }

  /** The last bytes of data that fit the type. */
  function Kept(data: seq<Byte>): seq<Byte> {
    if |data| <= 4 * LIMBS then data else data[|data| - 4 * LIMBS..]
  }

  lemma TailByte(data: seq<Byte>, i: nat)
    requires i < |data|
    ensures BeVal(data[|data| - i - 1..]) == Mul(data[|data| - i - 1], Pow256(i)) + BeVal(data[|data| - i..])
    ensures BeVal(data[|data| - i..]) < Pow256(i)
  {
    hide Mul;
    BeBound(data[|data| - i..]);
    assert data[|data| - i - 1..][1..] == data[|data| - i..];
  }

  /** kernel/bignum.h bn_from_bytes_be: bytes beyond the 520 that fit are ignored. */
  method FromBytes(a: array<Limb>, data: seq<Byte>)
    requires a.Length == LIMBS
    modifies a
    ensures Val(a[..]) == BeVal(Kept(data))
  {
    hide Val, WPow, BeVal, Pow256, Mul;
    for i := 0 to LIMBS
      invariant forall k :: 0 <= k < i ==> a[k] == 0
    {
      a[i] := 0;
    }
    ValZeros(a[..]);
    BeNothing(data);
    for i := 0 to |data|
      invariant Val(a[..]) == BeVal(data[|data| - (if i <= 4 * LIMBS then i else 4 * LIMBS)..])
    {
      var byteIndex := |data| - 1 - i;
      if i / 4 < LIMBS {
        ghost var s := a[..];
        TailByte(data, i);
        PutByte(s, i, data[byteIndex], BeVal(data[|data| - i..]));
        a[i / 4] := a[i / 4] + Mul(data[byteIndex], Pow256(i % 4));
        assert a[..] == s[i / 4 := s[i / 4] + Mul(data[byteIndex], Pow256(i % 4))];
      }
    }
    assert data[0..] == data;
  }

  lemma BeNothing(data: seq<Byte>)
    ensures BeVal(data[|data|..]) == 0
  {
    assert data[|data|..] == [];
  }

  // ---------- bn_to_bytes_be ----------

  /** Byte i of a number, counted from the least significant. */
  function ByteAt(v: nat, i: nat): (b: Byte)
  {
    (v / Pow256(i)) % 256
  }

  lemma LowLimbByte(x: Limb, rest: nat, i: nat)
    requires i < 4
    ensures ByteAt(x + 0x1_0000_0000 * rest, i) == ByteAt(x, i)
  {
    hide Mul, Pow256;
    var p, h := Pow256(i), Pow256(3 - i);
    WordOfPowers(i);
    var q, r := x / p, x % p;
    var z := Mul(h, rest);
    DivModMul(x, p);
    MulAssoc(p, 256 * h, rest);
    Mul256(h, rest);
    MulAdd(q, 256 * z, p);
    WordTimes(rest);
    DivModUniqueMul(x + 0x1_0000_0000 * rest, p, q + 256 * z, r);
    ModAddMultiple(q, 256, z);
  }

  lemma WordOfPowers(i: nat)
    requires i < 4
    ensures Mul(Pow256(i), 256 * Pow256(3 - i)) == 0x1_0000_0000
  {
    SmallPowers();
  }

  lemma {:induction false} LimbByteIs(s: seq<Limb>, i: nat)
    requires i < 4 * |s|
    ensures ByteAt(s[i / 4], i % 4) == ByteAt(Val(s), i)
    decreases |s|
  {
    if i < 4 {
      LowLimbByte(s[0], Val(s[1..]), i);
    } else {
      LimbByteIs(s[1..], i - 4);
      assert s[1..][(i - 4) / 4] == s[i / 4];
      FourBytesDown(s, i);
    }
  }

  lemma FourBytesDown(s: seq<Limb>, i: nat)
    requires |s| > 0 && i >= 4
    ensures ByteAt(Val(s[1..]), i - 4) == ByteAt(Val(s), i)
  {
    hide Val, Pow256, Mul;
    Upper(s);
    WordPower(i);
    DivDiv(Val(s), 0x1_0000_0000, Pow256(i - 4));
  }

  lemma Upper(s: seq<Limb>)
    requires |s| > 0
    ensures Val(s) / 0x1_0000_0000 == Val(s[1..])
  {
  }

  lemma WordPower(i: nat)
    requires i >= 4
    ensures Pow256(i) == 0x1_0000_0000 * Pow256(i - 4)
  {
    assert Pow256(i) == 256 * Pow256(i - 1);
    assert Pow256(i - 1) == 256 * Pow256(i - 2);
    assert Pow256(i - 2) == 256 * Pow256(i - 3);
  }

  lemma {:induction false} Pow256Mono(m: nat, n: nat)
    requires m <= n
    ensures Pow256(m) <= Pow256(n)
  {
    if m < n { Pow256Mono(m, n - 1); }
  }

  lemma NoHighByte(s: seq<Limb>, i: nat)
    requires i >= 4 * |s|
    ensures ByteAt(Val(s), i) == 0
  {
    ValBound(s);
    Pow256Word(|s|);
    Pow256Mono(4 * |s|, i);
    hide Val, WPow, Pow256;
    ModSmall(Val(s), Pow256(i));
  }

  /** One more byte of a residue. */
  lemma ResidueByte(v: nat, n: nat)
    ensures v % Pow256(n + 1) == Mul(ByteAt(v, n), Pow256(n)) + v % Pow256(n)
  {
    var p := Pow256(n);
    var q := v / p;
    DivModMul(v, p);
    DivModMul(q, 256);
    assert Pow256(n + 1) == 256 * p;
    hide Mul, Pow256;
    var b := q % 256;
    MulAdd(Mul(256, q / 256), b, p);
    MulAssoc(p, 256, q / 256);
    Mul256(1, p);
    MulUnit(p);
    MulSwap(p, b);
    MulMono(b, 255, p);
    Mul255(p);
    MulNat(b, p);
    DivModUniqueMul(v, 256 * p, q / 256, Mul(b, p) + v % p);
  }

  /** The bytes written are the residue modulo 256^n. */
  lemma {:induction false} BytesAreResidue(v: nat, out: seq<Byte>)
    requires forall i :: 0 <= i < |out| ==> out[|out| - 1 - i] == ByteAt(v, i)
    ensures BeVal(out) == v % Pow256(|out|)
    decreases |out|
  {
    hide Mul, ByteAt;
    if |out| > 0 {
      var rest, n := out[1..], |out| - 1;
      assert out[0] == out[|out| - 1 - n] == ByteAt(v, n);
      forall i | 0 <= i < |rest| ensures rest[|rest| - 1 - i] == ByteAt(v, i) {
        assert rest[|rest| - 1 - i] == out[|out| - 1 - i];
      }
      BytesAreResidue(v, rest);
      ResidueByte(v, n);
    }
  }

  /** kernel/bignum.h bn_to_bytes_be: exactly out.Length bytes, zero-padded or cut on the left. */
  method ToBytes(a: seq<Limb>, out: array<Byte>)
    requires |a| == LIMBS
    modifies out
    ensures BeVal(out[..]) == Val(a) % Pow256(out.Length)
  {
    hide Val, BeVal, Pow256, ByteAt;
    for i := 0 to out.Length
      invariant forall k :: 0 <= k < i ==> out[out.Length - 1 - k] == ByteAt(Val(a), k)
    {
      var byteIndex := out.Length - 1 - i;
      if i / 4 < LIMBS { LimbByteIs(a, i); } else { NoHighByte(a, i); }
      out[byteIndex] := if i / 4 < LIMBS then ByteAt(a[i / 4], i % 4) else 0;
    }
    BytesAreResidue(Val(a), out[..]);
  }

  /** Writing back what was read gives the bytes again, up to the capacity of the type. */
  lemma BytesRoundTrip(data: seq<Byte>, a: seq<Limb>, out: seq<Byte>)
    requires |data| <= 4 * LIMBS && Val(a) == BeVal(Kept(data))
    requires |out| == |data| && BeVal(out) == Val(a) % Pow256(|out|)
    ensures out == data
  {
    hide Val, BeVal, Pow256;
    BeBound(data);
    ModSmall(Val(a), Pow256(|out|));
    BeInjective(out, data);
  }
}
