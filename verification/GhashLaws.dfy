/** kernel/gcm.h:59-153: what GHASH computes, said without its loops: the coefficients of a
    product with x, and the hash as a polynomial in the hash key (NIST SP 800-38D section 6.4). */
module GhashLaws {
  import Aes
  import opened Blocks
  import opened Ghash

  // ---------- coefficients ----------

  /** The coefficients of an element, that of x^0 first: the bits of its block in order. */
  function Coefs(e: Elem): (c: seq<bool>)
    ensures |c| == 128
  {
    BlockBits(BytesOf(e))
  }

  function LowBit(b: Byte): bool {
    b & 1 == 1
  }

  function Shifted(b: Byte, carry: bool): Byte {
    if carry then (b >> 1) | 0x80 else b >> 1
  }

  /** Bytes moved one bit towards the end. */
  function ShiftBytes(s: Bytes, carry: bool): (r: Bytes)
    ensures |r| == |s|
  {
    if |s| == 0 then [] else [Shifted(s[0], carry)] + ShiftBytes(s[1..], LowBit(s[0]))
  }

  /** Bit i of a byte, the most significant first. */
  predicate BitAt(b: Byte, i: nat) {
    if i == 0 then b & 0x80 == 0x80 else if i == 1 then b & 0x40 == 0x40 else if i == 2 then b & 0x20 == 0x20
    else if i == 3 then b & 0x10 == 0x10 else if i == 4 then b & 8 == 8 else if i == 5 then b & 4 == 4
    else if i == 6 then b & 2 == 2 else b & 1 == 1
  }

  lemma ByteBitsAt(b: Byte, i: nat)
    requires i < 8
    ensures ByteBits(b)[i] == BitAt(b, i)
  {
  }

  lemma ShiftedBit(b: Byte, carry: bool, i: nat)
    requires i < 8
    ensures BitAt(Shifted(b, carry), i) == if i == 0 then carry else BitAt(b, i - 1)
  {
  }

  lemma LastBit(b: Byte)
    ensures ByteBits(b)[7] == LowBit(b)
  {
  }

  lemma ShiftedBits(b: Byte, carry: bool)
    ensures ByteBits(Shifted(b, carry)) == [carry] + ByteBits(b)[..7] && ByteBits(b)[7] == LowBit(b)
  {
    hide ByteBits, Shifted, BitAt, LowBit;
    LastBit(b);
    var t := Shifted(b, carry);
    forall i | 0 <= i < 8
      ensures ByteBits(t)[i] == if i == 0 then carry else ByteBits(b)[i - 1]
    {
      ByteBitsAt(t, i);
      ShiftedBit(b, carry, i);
      if i > 0 { ByteBitsAt(b, i - 1); }
    }
  }

  lemma {:induction false} ShiftBytesBits(s: Bytes, carry: bool)
    ensures BlockBits(ShiftBytes(s, carry)) == ([carry] + BlockBits(s))[..8 * |s|]
    ensures |s| > 0 ==> BlockBits(s)[8 * |s| - 1] == LowBit(s[|s| - 1])
    decreases |s|
  {
    hide ByteBits, Shifted, LowBit;
    if |s| > 0 {
      var c := LowBit(s[0]);
      ShiftBytesBits(s[1..], c);
      ShiftedBits(s[0], carry);
      BitsOfMore(Shifted(s[0], carry), ShiftBytes(s[1..], c));
      BitsOfMore(s[0], s[1..]);
      assert [s[0]] + s[1..] == s;
      Rejoined(carry, ByteBits(s[0]), BlockBits(s[1..]), c);
    }
  }

  lemma BitsOfMore(b: Byte, s: Bytes)
    ensures BlockBits([b] + s) == ByteBits(b) + BlockBits(s)
  {
    hide ByteBits;
    assert ([b] + s)[1..] == s;
  }

  lemma Rejoined(carry: bool, b: seq<bool>, rest: seq<bool>, c: bool)
    requires |b| == 8 && b[7] == c
    ensures ([carry] + b[..7]) + ([c] + rest)[..|rest|] == ([carry] + (b + rest))[..8 + |rest|]
    ensures |rest| > 0 ==> (b + rest)[8 + |rest| - 1] == rest[|rest| - 1]
  {
  }

  lemma {:induction false} ShiftBytesAt(s: Bytes, carry: bool, i: nat)
    requires i < |s|
    ensures ShiftBytes(s, carry)[i] == Shifted(s[i], if i == 0 then carry else LowBit(s[i - 1]))
    decreases |s|
  {
    hide Shifted, LowBit;
    if i > 0 {
      ShiftBytesAt(s[1..], LowBit(s[0]), i - 1);
    }
  }

  function ShiftedWord(v: bv64, top: bool): bv64 {
    if top then (v >> 1) | 0x8000_0000_0000_0000 else v >> 1
  }

  lemma HighBytes(v: bv64, top: bool)
    ensures var w := ShiftedWord(v, top);
      && LowByte(w >> 56) == Shifted(LowByte(v >> 56), top)
      && LowByte(w >> 48) == Shifted(LowByte(v >> 48), LowBit(LowByte(v >> 56)))
      && LowByte(w >> 40) == Shifted(LowByte(v >> 40), LowBit(LowByte(v >> 48)))
  {
  }

  lemma MiddleBytes(v: bv64, top: bool)
    ensures var w := ShiftedWord(v, top);
      && LowByte(w >> 32) == Shifted(LowByte(v >> 32), LowBit(LowByte(v >> 40)))
      && LowByte(w >> 24) == Shifted(LowByte(v >> 24), LowBit(LowByte(v >> 32)))
      && LowByte(w >> 16) == Shifted(LowByte(v >> 16), LowBit(LowByte(v >> 24)))
  {
  }

  lemma LowBytes(v: bv64, top: bool)
    ensures var w := ShiftedWord(v, top);
      && LowByte(w >> 8) == Shifted(LowByte(v >> 8), LowBit(LowByte(v >> 16)))
      && LowByte(w) == Shifted(LowByte(v), LowBit(LowByte(v >> 8)))
  {
  }

  /** q is p moved one bit towards the end. */
  ghost predicate Moved(p: Bytes, q: Bytes, top: bool)
    requires |p| == 8 == |q|
  {
    && q[0] == Shifted(p[0], top) && q[1] == Shifted(p[1], LowBit(p[0])) && q[2] == Shifted(p[2], LowBit(p[1]))
    && q[3] == Shifted(p[3], LowBit(p[2])) && q[4] == Shifted(p[4], LowBit(p[3])) && q[5] == Shifted(p[5], LowBit(p[4]))
    && q[6] == Shifted(p[6], LowBit(p[5])) && q[7] == Shifted(p[7], LowBit(p[6]))
  }

  lemma WordMoved(v: bv64, top: bool)
    ensures Moved(PutBe(v), PutBe(ShiftedWord(v, top)), top)
  {
    HighBytes(v, top);
    MiddleBytes(v, top);
    LowBytes(v, top);
    hide Shifted, LowBit, LowByte, ShiftedWord;
  }

  lemma MovedAt(p: Bytes, q: Bytes, top: bool, i: nat)
    requires |p| == 8 == |q| && Moved(p, q, top) && i < 8
    ensures q[i] == Shifted(p[i], if i == 0 then top else LowBit(p[i - 1]))
  {
    hide Shifted, LowBit;
    if i == 0 {} else if i == 1 {} else if i == 2 {} else if i == 3 {} else if i == 4 {} else if i == 5 {}
    else if i == 6 {} else {}
  }

  lemma WordAt(v: bv64, top: bool, i: nat)
    requires i < 8
    ensures var p := PutBe(v);
      PutBe(ShiftedWord(v, top))[i] == Shifted(p[i], if i == 0 then top else LowBit(p[i - 1]))
  {
    hide *;
    WordMoved(v, top);
    MovedAt(PutBe(v), PutBe(ShiftedWord(v, top)), top, i);
  }

  lemma LastBits(v: bv64)
    ensures LowBit(PutBe(v)[7]) == (v & 1 == 1)
  {
  }

  function Fold(b: Byte): Byte {
    b ^ 0xE1
  }

  lemma FoldWord(v: bv64)
    ensures PutBe(v ^ 0xE100_0000_0000_0000) == PutBe(v)[0 := Fold(PutBe(v)[0])]
  {
    FoldTop(v);
    hide LowByte, Fold;
  }

  lemma FoldTop(v: bv64)
    ensures var w := v ^ 0xE100_0000_0000_0000;
      && LowByte(w >> 56) == Fold(LowByte(v >> 56)) && LowByte(w >> 48) == LowByte(v >> 48)
      && LowByte(w >> 40) == LowByte(v >> 40) && LowByte(w >> 32) == LowByte(v >> 32)
      && LowByte(w >> 24) == LowByte(v >> 24) && LowByte(w >> 16) == LowByte(v >> 16)
      && LowByte(w >> 8) == LowByte(v >> 8) && LowByte(w) == LowByte(v)
  {
  }

  lemma TimesXWords(e: Elem)
    ensures TimesX(e).lo == ShiftedWord(e.lo, e.hi & 1 == 1)
    ensures TimesX(e).hi
      == if e.lo & 1 == 1 then ShiftedWord(e.hi, false) ^ 0xE100_0000_0000_0000 else ShiftedWord(e.hi, false)
  {
  }

  /** A product with x as a block: the bits move one place towards the end, and if one falls out
      the first byte is folded. */
  lemma TimesXBytes(e: Elem)
    ensures var s := BytesOf(e); var t := ShiftBytes(s, false);
      BytesOf(TimesX(e)) == if LowBit(s[15]) then t[0 := Fold(t[0])] else t
  {
    hide PutBe, ShiftedWord, Shifted, LowBit, TimesX, Fold, ShiftBytes;
    var s, d := BytesOf(e), BytesOf(TimesX(e));
    var t := ShiftBytes(s, false);
    TimesXWords(e);
    LastBits(e.hi);
    LastBits(e.lo);
    FoldWord(ShiftedWord(e.hi, false));
    forall i | 0 <= i < 8
      ensures PutBe(ShiftedWord(e.hi, false))[i] == t[i] && PutBe(TimesX(e).lo)[i] == t[8 + i]
    {
      WordAt(e.hi, false, i);
      WordAt(e.lo, e.hi & 1 == 1, i);
      ShiftBytesAt(s, false, i);
      ShiftBytesAt(s, false, 8 + i);
    }
    assert forall i :: 0 <= i < 16 ==> d[i] == if i < 8 then PutBe(TimesX(e).hi)[i] else PutBe(TimesX(e).lo)[i - 8];
  }

  lemma FoldBit(b: Byte, i: nat)
    requires i < 8
    ensures BitAt(Fold(b), i) == if i == 0 || i == 1 || i == 2 || i == 7 then !BitAt(b, i) else BitAt(b, i)
  {
  }

  lemma FoldBits(b: Byte, i: nat)
    requires i < 8
    ensures var c, d := ByteBits(b), ByteBits(Fold(b));
      d[i] == if i == 0 || i == 1 || i == 2 || i == 7 then !c[i] else c[i]
  {
    hide ByteBits, Fold, BitAt;
    FoldBit(b, i);
    ByteBitsAt(b, i);
    ByteBitsAt(Fold(b), i);
  }

  /** The field: multiplying by x moves every coefficient up, and x^128 is 1 + x + x^2 + x^7. */
  lemma TimesXCoefs(e: Elem)
    ensures var c, d := Coefs(e), Coefs(TimesX(e));
      && d[0] == c[127] && d[1] == (c[0] != c[127]) && d[2] == (c[1] != c[127]) && d[7] == (c[6] != c[127])
      && forall i :: 3 <= i < 128 && i != 7 ==> d[i] == c[i - 1]
  {
    hide ByteBits, TimesX, LowBit, Fold, ShiftBytes, BytesOf;
    var s, u := BytesOf(e), BytesOf(TimesX(e));
    var t := ShiftBytes(s, false);
    TimesXBytes(e);
    ShiftBytesBits(s, false);
    var c, d := Coefs(e), Coefs(TimesX(e));
    var m := ([false] + c)[..128];
    assert BlockBits(t) == m && c[127] == LowBit(s[15]);
    forall i | 0 <= i < 8
      ensures ByteBits(Fold(t[0]))[i]
        == if i == 0 || i == 1 || i == 2 || i == 7 then !ByteBits(t[0])[i] else ByteBits(t[0])[i]
    {
      FoldBits(t[0], i);
    }
    assert BlockBits(t) == ByteBits(t[0]) + BlockBits(t[1..]);
    assert BlockBits(u) == ByteBits(u[0]) + BlockBits(u[1..]);
    assert u[1..] == t[1..];
    assert forall i :: 8 <= i < 128 ==> d[i] == m[i];
    assert forall i :: 0 <= i < 8 ==> d[i] == ByteBits(u[0])[i] && m[i] == ByteBits(t[0])[i];
    assert forall i :: 1 <= i < 128 ==> m[i] == c[i - 1];
    assert !m[0];
  }

  // ---------- GHASH as a polynomial ----------

  /** Addition of bit strings. */
  function XorBits(x: seq<bool>, y: seq<bool>): (r: seq<bool>)
    requires |x| == |y|
    ensures |r| == |x|
  {
    seq(|x|, i requires 0 <= i < |x| => x[i] != y[i])
  }

  /** The product is additive in the factor whose bits select. */
  lemma {:induction false} ProductAdds(x: seq<bool>, y: seq<bool>, v: Elem)
    requires |x| == |y|
    ensures Product(XorBits(x, y), v) == Sum(Product(x, v), Product(y, v))
    decreases |x|
  {
    hide Sum, TimesX;
    if |x| == 0 {
      SumLaws(ZERO, ZERO, ZERO);
    } else {
      var w := TimesX(v);
      ProductAdds(x[1..], y[1..], w);
      assert XorBits(x, y)[1..] == XorBits(x[1..], y[1..]);
      var a, b := if x[0] then v else ZERO, if y[0] then v else ZERO;
      SumExchange(a, b, Product(x[1..], w), Product(y[1..], w));
      SumLaws(v, ZERO, ZERO);
      SumLaws(ZERO, ZERO, ZERO);
    }
  }

  lemma BitAdd(a: Byte, b: Byte, i: nat)
    requires i < 8
    ensures BitAt(Aes.Add(a, b), i) == (BitAt(a, i) != BitAt(b, i))
  {
    if i == 0 {} else if i == 1 {} else if i == 2 {} else if i == 3 {} else if i == 4 {} else if i == 5 {}
    else if i == 6 {} else {}
  }

  lemma ByteBitsAdd(a: Byte, b: Byte)
    ensures ByteBits(Aes.Add(a, b)) == XorBits(ByteBits(a), ByteBits(b))
  {
    hide ByteBits, Aes.Add, BitAt;
    forall i | 0 <= i < 8
      ensures ByteBits(Aes.Add(a, b))[i] == (ByteBits(a)[i] != ByteBits(b)[i])
    {
      BitAdd(a, b, i);
      ByteBitsAt(a, i);
      ByteBitsAt(b, i);
      ByteBitsAt(Aes.Add(a, b), i);
    }
  }

  lemma {:induction false} BlockBitsAdd(s: Bytes, t: Bytes)
    requires |s| == |t|
    ensures BlockBits(Aes.Xor(s, t)) == XorBits(BlockBits(s), BlockBits(t))
    decreases |s|
  {
    hide ByteBits, Aes.Add;
    if |s| > 0 {
      BlockBitsAdd(s[1..], t[1..]);
      ByteBitsAdd(s[0], t[0]);
      assert Aes.Xor(s, t) == [Aes.Add(s[0], t[0])] + Aes.Xor(s[1..], t[1..]);
      BitsOfMore(Aes.Add(s[0], t[0]), Aes.Xor(s[1..], t[1..]));
    }
  }

  lemma TopBytesAdd(a: bv64, b: bv64)
    ensures var c := Xor64(a, b);
      LowByte(c >> 56) == Aes.Add(LowByte(a >> 56), LowByte(b >> 56))
      && LowByte(c >> 48) == Aes.Add(LowByte(a >> 48), LowByte(b >> 48))
  {
  }

  lemma HighBytesAdd(a: bv64, b: bv64)
    ensures var c := Xor64(a, b);
      LowByte(c >> 40) == Aes.Add(LowByte(a >> 40), LowByte(b >> 40))
      && LowByte(c >> 32) == Aes.Add(LowByte(a >> 32), LowByte(b >> 32))
  {
  }

  lemma MiddleBytesAdd(a: bv64, b: bv64)
    ensures var c := Xor64(a, b);
      LowByte(c >> 24) == Aes.Add(LowByte(a >> 24), LowByte(b >> 24))
      && LowByte(c >> 16) == Aes.Add(LowByte(a >> 16), LowByte(b >> 16))
  {
  }

  lemma LowBytesAdd(a: bv64, b: bv64)
    ensures var c := Xor64(a, b);
      LowByte(c >> 8) == Aes.Add(LowByte(a >> 8), LowByte(b >> 8)) && LowByte(c) == Aes.Add(LowByte(a), LowByte(b))
  {
  }

  /** r is the sum of p and q, byte by byte. */
  ghost predicate Added(p: Bytes, q: Bytes, r: Bytes)
    requires |p| == 8 == |q| && |r| == 8
  {
    && r[0] == Aes.Add(p[0], q[0]) && r[1] == Aes.Add(p[1], q[1]) && r[2] == Aes.Add(p[2], q[2])
    && r[3] == Aes.Add(p[3], q[3]) && r[4] == Aes.Add(p[4], q[4]) && r[5] == Aes.Add(p[5], q[5])
    && r[6] == Aes.Add(p[6], q[6]) && r[7] == Aes.Add(p[7], q[7])
  }

  lemma WordAdded(a: bv64, b: bv64)
    ensures Added(PutBe(a), PutBe(b), PutBe(Xor64(a, b)))
  {
    TopBytesAdd(a, b);
    HighBytesAdd(a, b);
    MiddleBytesAdd(a, b);
    LowBytesAdd(a, b);
    hide LowByte, Xor64, Aes.Add;
  }

  lemma AddedIs(p: Bytes, q: Bytes, r: Bytes)
    requires |p| == 8 == |q| && |r| == 8 && Added(p, q, r)
    ensures r == Aes.Xor(p, q)
  {
    hide Aes.Add;
  }

  lemma WordsAdd(a: bv64, b: bv64)
    ensures PutBe(Xor64(a, b)) == Aes.Xor(PutBe(a), PutBe(b))
  {
    hide *;
    WordAdded(a, b);
    AddedIs(PutBe(a), PutBe(b), PutBe(Xor64(a, b)));
  }

  lemma BytesAdd(a: Elem, b: Elem)
    ensures BytesOf(Sum(a, b)) == Aes.Xor(BytesOf(a), BytesOf(b))
  {
    hide PutBe, Xor64, Aes.Add;
    WordsAdd(a.hi, b.hi);
    WordsAdd(a.lo, b.lo);
  }

  /** Multiplying by the hash key is linear on blocks. */
  lemma MulLinear(h: Elem, s: Bytes, t: Bytes)
    requires |s| == 16 == |t|
    ensures MulH(h, Aes.Xor(s, t)) == Aes.Xor(MulH(h, s), MulH(h, t))
  {
    hide Serial, BlockBits, Product, Sum, BytesOf, Aes.Xor, XorBits;
    BlockBitsAdd(s, t);
    ProductAdds(BlockBits(s), BlockBits(t), h);
    MulIs(h, s);
    MulIs(h, t);
    MulIs(h, Aes.Xor(s, t));
    BytesAdd(Product(BlockBits(s), h), Product(BlockBits(t), h));
  }

  lemma MulIs(h: Elem, s: Bytes)
    requires |s| == 16
    ensures MulH(h, s) == BytesOf(Product(BlockBits(s), h))
  {
    hide Serial, BlockBits, Product, Sum, BytesOf;
    SerialIsProduct(BlockBits(s), ZERO, h);
    SumLaws(Product(BlockBits(s), h), ZERO, ZERO);
  }

  /** s times H to the n-th. */
  function TimesPower(h: Elem, s: Bytes, n: nat): (r: Bytes)
    requires |s| == 16
    ensures |r| == 16
    decreases n
  {
    if n == 0 then s else TimesPower(h, MulH(h, s), n - 1)
  }

  lemma {:induction false} PowerLinear(h: Elem, s: Bytes, t: Bytes, n: nat)
    requires |s| == 16 == |t|
    ensures TimesPower(h, Aes.Xor(s, t), n) == Aes.Xor(TimesPower(h, s, n), TimesPower(h, t, n))
    decreases n
  {
    hide MulH, Aes.Xor;
    if n > 0 {
      MulLinear(h, s, t);
      PowerLinear(h, MulH(h, s), MulH(h, t), n - 1);
    }
  }

  /** X_1 * H^m + X_2 * H^(m-1) + .. + X_m * H over the m blocks of x. */
  function Polynomial(h: Elem, x: Bytes): (r: Bytes)
    requires |x| % 16 == 0
    ensures |r| == 16
    decreases |x|
  {
    if |x| == 0 then seq(16, _ => 0)
    else
      assert |x[16..]| % 16 == 0;
      Aes.Xor(TimesPower(h, x[..16], |x| / 16), Polynomial(h, x[16..]))
  }

  /** The hash that is computed block by block is that polynomial; a value it starts from counts as
      one more coefficient. */
  lemma {:induction false} GhashIsPolynomial(h: Elem, y: Bytes, x: Bytes)
    requires |y| == 16 && |x| % 16 == 0
    ensures GhashFrom(h, y, x) == Aes.Xor(TimesPower(h, y, |x| / 16), Polynomial(h, x))
    decreases |x|
  {
    hide MulH, Aes.Xor;
    if |x| == 0 {
      XorZeros(y);
    } else {
      var m, x0, rest := |x| / 16, x[..16], x[16..];
      assert |rest| / 16 == m - 1 && |rest| % 16 == 0;
      var z := Aes.Xor(y, x0);
      GhashIsPolynomial(h, MulH(h, z), rest);
      assert TimesPower(h, z, m) == TimesPower(h, MulH(h, z), m - 1);
      PowerLinear(h, y, x0, m);
      XorAssociates(TimesPower(h, y, m), TimesPower(h, x0, m), Polynomial(h, rest));
    }
  }

  lemma XorZeros(y: Bytes)
    requires |y| == 16
    ensures Aes.Xor(y, seq(16, _ => 0)) == y
  {
    hide Aes.Add;
    forall i | 0 <= i < 16 ensures Aes.Add(y[i], 0) == y[i] {
      Aes.AddLaws(y[i], 0, 0);
    }
  }

  lemma XorAssociates(a: Bytes, b: Bytes, c: Bytes)
    requires |a| == |b| == |c|
    ensures Aes.Xor(Aes.Xor(a, b), c) == Aes.Xor(a, Aes.Xor(b, c))
  {
    hide Aes.Add;
    forall i | 0 <= i < |a| ensures Aes.Add(Aes.Add(a[i], b[i]), c[i]) == Aes.Add(a[i], Aes.Add(b[i], c[i])) {
      Aes.AddLaws(a[i], b[i], c[i]);
    }
  }
}
