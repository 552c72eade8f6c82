/** kernel/gcm.h:59-153: GHASH with 4-bit tables.  The table method is proved equal to
    the bit-serial product of section 6.3 of NIST SP 800-38D. */
module Ghash {
  import Aes
  import opened Blocks


  // ---------- GF(2^128), bit by bit ----------

  /** A block as the two words the code keeps: bit 0 of the block is the top bit of hi. */
  datatype Elem = Elem(hi: bv64, lo: bv64)

  const ZERO := Elem(0, 0)

  /** Exclusive or of words, named so that proofs can treat sums as atoms. */
  function Xor64(a: bv64, b: bv64): bv64 {
    a ^ b
  }

  function Sum(a: Elem, b: Elem): Elem {
    Elem(Xor64(a.hi, b.hi), Xor64(a.lo, b.lo))
  }

  function ShiftLo(hi: bv64, lo: bv64): bv64 {
    (hi << 63) | (lo >> 1)
  }

  function ShiftHi(hi: bv64): bv64 {
    hi >> 1
  }

  function Carry(lo: bv64): bv64 {
    if lo & 1 == 1 then 0xE100_0000_0000_0000 else 0
  }

  /** One step V_i -> V_{i+1} of section 6.3, with R = 11100001 || 0^120. */
  function TimesX(v: Elem): Elem {
    Elem(Xor64(ShiftHi(v.hi), Carry(v.lo)), ShiftLo(v.hi, v.lo))
  }

  lemma WordLaws(a: bv64, b: bv64, c: bv64)
    ensures Xor64(Xor64(a, b), c) == Xor64(a, Xor64(b, c)) && Xor64(a, b) == Xor64(b, a)
    ensures Xor64(a, 0) == a && Xor64(a, a) == 0
  {
  }

  lemma SumLaws(a: Elem, b: Elem, c: Elem)
    ensures Sum(Sum(a, b), c) == Sum(a, Sum(b, c)) && Sum(a, b) == Sum(b, a)
    ensures Sum(a, ZERO) == a && Sum(ZERO, a) == a && Sum(a, a) == ZERO
  {
    hide Xor64;
    WordLaws(a.hi, b.hi, c.hi);
    WordLaws(a.lo, b.lo, c.lo);
    WordLaws(0, a.hi, 0);
    WordLaws(0, a.lo, 0);
  }

  lemma ShiftLoLinear(a: bv64, b: bv64, c: bv64, d: bv64)
    ensures ShiftLo(Xor64(a, b), Xor64(c, d)) == Xor64(ShiftLo(a, c), ShiftLo(b, d))
  {
  }

  lemma ShiftHiLinear(a: bv64, b: bv64)
    ensures ShiftHi(Xor64(a, b)) == Xor64(ShiftHi(a), ShiftHi(b))
  {
  }

  lemma CarryLinear(a: bv64, b: bv64)
    ensures Carry(Xor64(a, b)) == Xor64(Carry(a), Carry(b))
  {
    if a & 1 == 1 {
      if b & 1 == 1 {} else {}
    } else {
      if b & 1 == 1 {} else {}
    }
  }

  lemma WordExchange(a: bv64, b: bv64, c: bv64, d: bv64)
    ensures Xor64(Xor64(a, b), Xor64(c, d)) == Xor64(Xor64(a, c), Xor64(b, d))
  {
    hide Xor64;
    WordLaws(a, b, Xor64(c, d));
    WordLaws(b, c, d);
    WordLaws(c, b, d);
    WordLaws(a, c, Xor64(b, d));
  }

  lemma TimesXLinear(a: Elem, b: Elem)
    ensures TimesX(Sum(a, b)) == Sum(TimesX(a), TimesX(b))
  {
    hide Xor64, ShiftHi, ShiftLo, Carry;
    ShiftLoLinear(a.hi, b.hi, a.lo, b.lo);
    ShiftHiLinear(a.hi, b.hi);
    CarryLinear(a.lo, b.lo);
    WordExchange(ShiftHi(a.hi), ShiftHi(b.hi), Carry(a.lo), Carry(b.lo));
  }

  lemma TimesXZero()
    ensures TimesX(ZERO) == ZERO
  {
  }

  /** Algorithm 1 of section 6.3: z and v after the bits of x, first bit first. */
  function Serial(x: seq<bool>, z: Elem, v: Elem): Elem {
    if |x| == 0 then z else Serial(x[1..], if x[0] then Sum(z, v) else z, TimesX(v))
  }

  /** The same product as a sum over the bits of x. */
  function Product(x: seq<bool>, v: Elem): Elem {
    if |x| == 0 then ZERO else Sum(if x[0] then v else ZERO, Product(x[1..], TimesX(v)))
  }

  lemma {:induction false} SerialIsProduct(x: seq<bool>, z: Elem, v: Elem)
    ensures Serial(x, z, v) == Sum(z, Product(x, v))
  {
    hide Sum, TimesX;
    SumLaws(z, v, ZERO);
    if |x| > 0 {
      var rest := Product(x[1..], TimesX(v));
      SumLaws(z, v, rest);
      SumLaws(rest, z, z);
      SerialIsProduct(x[1..], if x[0] then Sum(z, v) else z, TimesX(v));
    }
  }

  /** Multiplying by x commutes with the product. */
  lemma {:induction false} ProductShift(x: seq<bool>, v: Elem)
    ensures Product(x, TimesX(v)) == TimesX(Product(x, v))
  {
    hide Sum, TimesX;
    TimesXZero();
    if |x| > 0 {
      ProductShift(x[1..], TimesX(v));
      TimesXLinear(if x[0] then v else ZERO, Product(x[1..], TimesX(v)));
    }
  }

  lemma {:induction false} ProductLinear(x: seq<bool>, v: Elem, w: Elem)
    ensures Product(x, Sum(v, w)) == Sum(Product(x, v), Product(x, w))
  {
    hide Sum, TimesX;
    SumLaws(ZERO, ZERO, ZERO);
    if |x| > 0 {
      ProductLinear(x[1..], TimesX(v), TimesX(w));
      TimesXLinear(v, w);
      var p, q := Product(x[1..], TimesX(v)), Product(x[1..], TimesX(w));
      SumExchange(v, w, p, q);
      SumExchange(ZERO, ZERO, p, q);
    }
  }

  lemma SumExchange(a: Elem, b: Elem, c: Elem, d: Elem)
    ensures Sum(Sum(a, b), Sum(c, d)) == Sum(Sum(a, c), Sum(b, d))
  {
    hide Sum;
    SumLaws(a, b, Sum(c, d));
    SumLaws(b, c, d);
    SumLaws(c, b, d);
    SumLaws(b, c, c);
    SumLaws(a, c, Sum(b, d));
  }

  function TimesX4(v: Elem): Elem {
    TimesX(TimesX(TimesX(TimesX(v))))
  }

  /** Horner's rule for a nibble of the multiplier. */
  lemma ProductNibble(n: seq<bool>, rest: seq<bool>, v: Elem)
    requires |n| == 4
    ensures Product(n + rest, v) == Sum(TimesX4(Product(rest, v)), Product(n, v))
  {
    hide Sum, TimesX;
    ProductSplit(n, rest, v);
    ProductShift(rest, v);
    ProductShift(rest, TimesX(v));
    ProductShift(rest, TimesX(TimesX(v)));
    ProductShift(rest, TimesX(TimesX(TimesX(v))));
    PowerFour(v);
    SumLaws(TimesX4(Product(rest, v)), Product(n, v), ZERO);
  }

  function Power(k: nat, v: Elem): Elem {
    if k == 0 then v else Power(k - 1, TimesX(v))
  }

  lemma PowerFour(v: Elem)
    ensures Power(4, v) == TimesX(TimesX(TimesX(TimesX(v))))
  {
    hide TimesX;
    assert Power(4, v) == Power(3, TimesX(v));
    assert Power(3, TimesX(v)) == Power(2, TimesX(TimesX(v)));
    assert Power(2, TimesX(TimesX(v))) == Power(1, TimesX(TimesX(TimesX(v))));
  }

  lemma {:induction false} ProductSplit(x: seq<bool>, y: seq<bool>, v: Elem)
    ensures Product(x + y, v) == Sum(Product(x, v), Product(y, Power(|x|, v)))
  {
    hide Sum, TimesX;
    if |x| == 0 {
      assert x + y == y;
      SumLaws(Product(y, v), ZERO, ZERO);
    } else {
      assert (x + y)[1..] == x[1..] + y;
      ProductSplit(x[1..], y, TimesX(v));
      SumLaws(if x[0] then v else ZERO, Product(x[1..], TimesX(v)), Product(y, Power(|x|, v)));
    }
  }

  // ---------- the shift by four with its reduction table ----------

  /** The number held in the low nibble of a word, from its four bits. */
  function NibbleOf(b3: bool, b2: bool, b1: bool, b0: bool): (n: nat)
    ensures n < 16
  {
    (if b3 then 8 else 0) + (if b2 then 4 else 0) + (if b1 then 2 else 0) + (if b0 then 1 else 0)
  }

  function NibbleBits(n: nat): (s: seq<bool>)
    ensures |s| == 4
  {
    [n / 8 % 2 == 1, n / 4 % 2 == 1, n / 2 % 2 == 1, n % 2 == 1]
  }

  lemma NibbleRoundTrip(b3: bool, b2: bool, b1: bool, b0: bool)
    ensures NibbleBits(NibbleOf(b3, b2, b1, b0)) == [b3, b2, b1, b0]
  {
  }

  const LAST4: seq<bv64> := [
    0x0000, 0x1c20, 0x3840, 0x2460, 0x7080, 0x6ca0, 0x48c0, 0x54e0,
    0xe100, 0xfd20, 0xd940, 0xc560, 0x9180, 0x8da0, 0xa9c0, 0xb5e0]

  /** rem = zl & 0xf. */
  function Rem(lo: bv64): (n: nat)
    ensures n < 16
  {
    NibbleOf(lo & 8 == 8, lo & 4 == 4, lo & 2 == 2, lo & 1 == 1)
  }

  function FourHi(hi: bv64): bv64 {
    hi >> 4
  }

  function FourLo(hi: bv64, lo: bv64): bv64 {
    (hi << 60) | (lo >> 4)
  }

  function Fold(lo: bv64): bv64 {
    LAST4[Rem(lo)] << 48
  }

  /** The shift of kernel/gcm.h:129-132: right by four, the bits that fall off folded in by the table. */
  function ShiftFour(z: Elem): Elem {
    Elem(Xor64(FourHi(z.hi), Fold(z.lo)), FourLo(z.hi, z.lo))
  }

  /** The four bits that fall off, one at a time. */
  function Reduce(lo: bv64): bv64 {
    Xor64(Xor64(if lo & 8 == 8 then 0xE100_0000_0000_0000 else 0, if lo & 4 == 4 then 0x7080_0000_0000_0000 else 0),
          Xor64(if lo & 2 == 2 then 0x3840_0000_0000_0000 else 0, if lo & 1 == 1 then 0x1C20_0000_0000_0000 else 0))
  }

  lemma FoldIs(lo: bv64)
    ensures Fold(lo) == Reduce(lo)
  {
  }

  function HalfHi(hi: bv64, lo: bv64): bv64 {
    (hi >> 2) ^ Reduce((lo & 3) << 2)
  }

  function HalfLo(hi: bv64, lo: bv64): bv64 {
    (hi << 62) | (lo >> 2)
  }

  /** Two of the four shifts at once. */
  function Half(z: Elem): Elem {
    Elem(HalfHi(z.hi, z.lo), HalfLo(z.hi, z.lo))
  }

  lemma HalfLoIs(hi: bv64, lo: bv64)
    ensures ShiftLo(Xor64(ShiftHi(hi), Carry(lo)), ShiftLo(hi, lo)) == HalfLo(hi, lo)
  {
  }

  lemma HalfHiIs(hi: bv64, lo: bv64)
    ensures Xor64(ShiftHi(Xor64(ShiftHi(hi), Carry(lo))), Carry(ShiftLo(hi, lo))) == HalfHi(hi, lo)
  {
    if lo & 1 == 1 {
      if lo & 2 == 2 {} else {}
    } else {
      if lo & 2 == 2 {} else {}
    }
  }

  lemma TwoShifts(z: Elem)
    ensures TimesX(TimesX(z)) == Half(z)
  {
    hide Xor64, ShiftHi, ShiftLo, Carry, HalfHi, HalfLo;
    HalfLoIs(z.hi, z.lo);
    HalfHiIs(z.hi, z.lo);
  }

  lemma QuarterLoIs(hi: bv64, lo: bv64)
    ensures HalfLo(HalfHi(hi, lo), HalfLo(hi, lo)) == FourLo(hi, lo)
  {
  }

  lemma QuarterHiIs(hi: bv64, lo: bv64)
    ensures HalfHi(HalfHi(hi, lo), HalfLo(hi, lo)) == Xor64(FourHi(hi), Reduce(lo))
  {
    if lo & 1 == 1 {
      if lo & 2 == 2 {} else {}
    } else {
      if lo & 2 == 2 {} else {}
    }
  }

  /** The table-driven shift is four multiplications by x. */
  lemma ShiftFourIs(z: Elem)
    ensures ShiftFour(z) == TimesX4(z)
  {
    hide TimesX, Reduce, Fold, FourHi, FourLo, Xor64, HalfHi, HalfLo;
    FoldIs(z.lo);
    TwoShifts(z);
    TwoShifts(TimesX(TimesX(z)));
    QuarterLoIs(z.hi, z.lo);
    QuarterHiIs(z.hi, z.lo);
  }

  // ---------- bytes and bits ----------

  /** The bits of a byte, first bit (the most significant) first. */
  function ByteBits(b: Byte): (s: seq<bool>)
    ensures |s| == 8
  {
    [b & 0x80 == 0x80, b & 0x40 == 0x40, b & 0x20 == 0x20, b & 0x10 == 0x10, b & 8 == 8, b & 4 == 4, b & 2 == 2, b & 1 == 1]
  }

  function BlockBits(s: Bytes): (r: seq<bool>)
    ensures |r| == 8 * |s|
  {
    if |s| == 0 then [] else ByteBits(s[0]) + BlockBits(s[1..])
  }

  /** y[i] & 0xf as an index. */
  function Nibble(b: Byte): (n: nat)
    ensures n < 16
  {
    NibbleOf(b & 8 == 8, b & 4 == 4, b & 2 == 2, b & 1 == 1)
  }

  lemma HighBits(b: Byte)
    ensures ((b >> 4) & 8 == 8) == (b & 0x80 == 0x80) && ((b >> 4) & 4 == 4) == (b & 0x40 == 0x40)
    ensures ((b >> 4) & 2 == 2) == (b & 0x20 == 0x20) && ((b >> 4) & 1 == 1) == (b & 0x10 == 0x10)
  {
  }

  lemma ByteIsNibbles(b: Byte)
    ensures ByteBits(b) == NibbleBits(Nibble(b >> 4)) + NibbleBits(Nibble(b))
  {
    hide NibbleOf, NibbleBits;
    HighBits(b);
    NibbleRoundTrip(b & 0x80 == 0x80, b & 0x40 == 0x40, b & 0x20 == 0x20, b & 0x10 == 0x10);
    NibbleRoundTrip(b & 8 == 8, b & 4 == 4, b & 2 == 2, b & 1 == 1);
  }

  /** gcm_get64_be. */
  function GetBe(p: Bytes): bv64
    requires |p| == 8
  {
    (((p[0] as bv64) << 56) | ((p[1] as bv64) << 48) | ((p[2] as bv64) << 40) | ((p[3] as bv64) << 32))
    | (((p[4] as bv64) << 24) | ((p[5] as bv64) << 16) | ((p[6] as bv64) << 8) | (p[7] as bv64))
  }

  function LowByte(v: bv64): Byte {
    (v & 0xFF) as Byte
  }

  /** gcm_put64_be, its eight rounds written out. */
  function PutBe(v: bv64): (p: Bytes)
    ensures |p| == 8
  {
    [LowByte(v >> 56), LowByte(v >> 48), LowByte(v >> 40), LowByte(v >> 32),
     LowByte(v >> 24), LowByte(v >> 16), LowByte(v >> 8), LowByte(v)]
  }

  function ElemOf(s: Bytes): Elem
    requires |s| == 16
  {
    Elem(GetBe(s[..8]), GetBe(s[8..]))
  }

  function BytesOf(e: Elem): (s: Bytes)
    ensures |s| == 16
  {
    PutBe(e.hi) + PutBe(e.lo)
  }

  lemma PutThenGet(v: bv64)
    ensures GetBe(PutBe(v)) == v
  {
  }

  lemma BlockRoundTrip(e: Elem)
    ensures ElemOf(BytesOf(e)) == e
  {
    hide GetBe, PutBe;
    PutThenGet(e.hi);
    PutThenGet(e.lo);
    assert BytesOf(e)[..8] == PutBe(e.hi) && BytesOf(e)[8..] == PutBe(e.lo);
  }

  // ---------- the table ----------

  /** gcm_table_t holds nibble * H for all sixteen nibbles. */
  ghost predicate TableHolds(hl: seq<bv64>, hh: seq<bv64>, h: Elem) {
    && |hl| == 16 && |hh| == 16
    && forall n :: 0 <= n < 16 ==> Holds(hl, hh, h, n)
  }

  ghost predicate Holds(hl: seq<bv64>, hh: seq<bv64>, h: Elem, n: nat)
    requires |hl| == 16 && |hh| == 16 && n < 16
  {
    Elem(hh[n], hl[n]) == Product(NibbleBits(n), h)
  }

  lemma PowersOfTwo(h: Elem)
    ensures Product(NibbleBits(0), h) == ZERO && Product(NibbleBits(8), h) == h
    ensures Product(NibbleBits(4), h) == TimesX(h) && Product(NibbleBits(2), h) == TimesX(TimesX(h))
    ensures Product(NibbleBits(1), h) == TimesX(TimesX(TimesX(h)))
  {
    hide Sum, TimesX, Product, NibbleBits;
    NibbleProduct(false, false, false, false, h);
    NibbleProduct(true, false, false, false, h);
    NibbleProduct(false, true, false, false, h);
    NibbleProduct(false, false, true, false, h);
    NibbleProduct(false, false, false, true, h);
    assert NibbleOf(false, false, false, false) == 0;
    assert NibbleOf(true, false, false, false) == 8;
    assert NibbleOf(false, true, false, false) == 4;
    assert NibbleOf(false, false, true, false) == 2;
    assert NibbleOf(false, false, false, true) == 1;
    SumLaws(ZERO, ZERO, ZERO);
    SumLaws(h, ZERO, ZERO);
    SumLaws(TimesX(h), ZERO, ZERO);
    SumLaws(TimesX(TimesX(h)), ZERO, ZERO);
    SumLaws(TimesX(TimesX(TimesX(h))), ZERO, ZERO);
  }

  function Gate(b: bool, v: Elem): Elem {
    if b then v else ZERO
  }

  lemma NibbleProduct(b3: bool, b2: bool, b1: bool, b0: bool, h: Elem)
    ensures Product(NibbleBits(NibbleOf(b3, b2, b1, b0)), h)
      == Sum(Sum(Gate(b3, h), Gate(b2, TimesX(h))), Sum(Gate(b1, TimesX(TimesX(h))), Gate(b0, TimesX(TimesX(TimesX(h))))))
  {
    hide Sum, TimesX, NibbleBits, NibbleOf;
    var h1, h2, h3 := TimesX(h), TimesX(TimesX(h)), TimesX(TimesX(TimesX(h)));
    NibbleRoundTrip(b3, b2, b1, b0);
    var s := [b3, b2, b1, b0];
    assert s[1..] == [b2, b1, b0] && [b2, b1, b0][1..] == [b1, b0] && [b1, b0][1..] == [b0] && [b0][1..] == [];
    assert Product([], TimesX(h3)) == ZERO;
    assert Product([b0], h3) == Sum(Gate(b0, h3), ZERO);
    assert Product([b1, b0], h2) == Sum(Gate(b1, h2), Product([b0], h3));
    assert Product([b2, b1, b0], h1) == Sum(Gate(b2, h1), Product([b1, b0], h2));
    assert Product(s, h) == Sum(Gate(b3, h), Product([b2, b1, b0], h1));
    SumLaws(Gate(b0, h3), ZERO, ZERO);
    SumLaws(Gate(b3, h), Gate(b2, h1), Product([b1, b0], h2));
  }

  /** Entry i + j is the sum of entries i and j when i is a power of two above j. */
  lemma TableSum(i: nat, j: nat, h: Elem)
    requires i in {2, 4, 8} && 1 <= j < i
    ensures Product(NibbleBits(i + j), h) == Sum(Product(NibbleBits(i), h), Product(NibbleBits(j), h))
  {
    hide Sum, TimesX, Product, NibbleBits;
    var b2, b1, b0 := j / 4 % 2 == 1, j / 2 % 2 == 1, j % 2 == 1;
    assert j == NibbleOf(false, b2, b1, b0);
    assert i + j == NibbleOf(i == 8, i == 4 || b2, i == 2 || b1, b0);
    assert i == NibbleOf(i == 8, i == 4, i == 2, false);
    NibbleProduct(false, b2, b1, b0, h);
    NibbleProduct(i == 8, i == 4, i == 2, false, h);
    NibbleProduct(i == 8, i == 4 || b2, i == 2 || b1, b0, h);
    var h1, h2, h3 := TimesX(h), TimesX(TimesX(h)), TimesX(TimesX(TimesX(h)));
    SumExchange(Sum(Gate(i == 8, h), Gate(i == 4, h1)), Sum(Gate(i == 2, h2), ZERO),
                Sum(ZERO, Gate(b2, h1)), Sum(Gate(b1, h2), Gate(b0, h3)));
    SumExchange(Gate(i == 8, h), Gate(i == 4, h1), ZERO, Gate(b2, h1));
    SumExchange(Gate(i == 2, h2), ZERO, Gate(b1, h2), Gate(b0, h3));
    GateSum(i == 8, false, h);
    GateSum(i == 4, b2, h1);
    GateSum(i == 2, b1, h2);
    GateSum(false, b0, h3);
  }

  lemma GateSum(a: bool, b: bool, v: Elem)
    requires !a || !b
    ensures Sum(Gate(a, v), Gate(b, v)) == Gate(a || b, v)
  {
    SumLaws(v, ZERO, ZERO);
  }

  lemma TableGrows(hl: seq<bv64>, hh: seq<bv64>, h: Elem, m: nat, n: nat, e: Elem)
    requires |hl| == 16 && |hh| == 16 && m < 16 && n < 16
    requires if m == n then e == Product(NibbleBits(n), h) else Holds(hl, hh, h, m)
    ensures Holds(hl[n := e.lo], hh[n := e.hi], h, m)
  {
  }

  /** The entries that are in place once the powers below `top` are combined. */
  ghost predicate Filled(hl: seq<bv64>, hh: seq<bv64>, h: Elem, top: nat) {
    && |hl| == 16 && |hh| == 16
    && (forall n :: 0 <= n < 16 && (n < top || n == 4 || n == 8) ==> Holds(hl, hh, h, n))
  }

  lemma FilledStep(hl: seq<bv64>, hh: seq<bv64>, h: Elem, i: nat, j: nat)
    requires i in {2, 4, 8} && 1 <= j < i && Filled(hl, hh, h, i + j) && Holds(hl, hh, h, i)
    ensures Filled(hl[i + j := Xor64(hl[i], hl[j])], hh[i + j := Xor64(hh[i], hh[j])], h, i + j + 1)
  {
    hide Xor64, Product, NibbleBits;
    TableSum(i, j, h);
    assert Holds(hl, hh, h, j);
    var e := Elem(Xor64(hh[i], hh[j]), Xor64(hl[i], hl[j]));
    assert e == Sum(Elem(hh[i], hl[i]), Elem(hh[j], hl[j]));
    var l1, h1 := hl[i + j := e.lo], hh[i + j := e.hi];
    forall m | 0 <= m < 16 && (m < i + j + 1 || m == 4 || m == 8)
      ensures Holds(l1, h1, h, m)
    {
      TableGrows(hl, hh, h, m, i + j, e);
    }
  }

  /** The entries for 0, 8 and the powers of two not below `low`. */
  ghost predicate Powers(hl: seq<bv64>, hh: seq<bv64>, h: Elem, low: nat) {
    && |hl| == 16 && |hh| == 16
    && Holds(hl, hh, h, 0) && Holds(hl, hh, h, 8)
    && (low <= 4 ==> Holds(hl, hh, h, 4)) && (low <= 2 ==> Holds(hl, hh, h, 2)) && (low <= 1 ==> Holds(hl, hh, h, 1))
  }

  lemma PowersStart(hl: seq<bv64>, hh: seq<bv64>, h: Elem)
    requires |hl| == 16 && |hh| == 16 && Elem(hh[0], hl[0]) == ZERO && Elem(hh[8], hl[8]) == h
    ensures Powers(hl, hh, h, 8)
  {
    hide Product, NibbleBits;
    PowersOfTwo(h);
  }

  lemma PowersStep(hl: seq<bv64>, hh: seq<bv64>, h: Elem, i: nat, e: Elem)
    requires i in {4, 2, 1} && Powers(hl, hh, h, 2 * i) && e == TimesX(Product(NibbleBits(2 * i), h))
    ensures Powers(hl[i := e.lo], hh[i := e.hi], h, i) && e == Product(NibbleBits(i), h)
  {
    hide Product, NibbleBits, TimesX, Holds;
    PowersOfTwo(h);
    TableGrows(hl, hh, h, 0, i, e);
    TableGrows(hl, hh, h, 8, i, e);
    if i <= 4 { TableGrows(hl, hh, h, 4, i, e); }
    if i <= 2 { TableGrows(hl, hh, h, 2, i, e); }
    TableGrows(hl, hh, h, i, i, e);
  }

  lemma PowersEnd(hl: seq<bv64>, hh: seq<bv64>, h: Elem)
    requires Powers(hl, hh, h, 1)
    ensures Filled(hl, hh, h, 3)
  {
    hide Holds;
  }

  /** kernel/gcm.h gcm_build_table. */
  method BuildTable(hl: array<bv64>, hh: array<bv64>, hbytes: Bytes)
    requires hl.Length == 16 && hh.Length == 16 && hl != hh && |hbytes| == 16
    modifies hl, hh
    ensures TableHolds(hl[..], hh[..], ElemOf(hbytes))
  {
    hide Holds, Product, NibbleBits, TimesX, GetBe, Filled, Powers;
    ghost var h := ElemOf(hbytes);
    var v := Elem(GetBe(hbytes[..8]), GetBe(hbytes[8..]));
    PowersOfTwo(h);
    hl[0], hh[0] := 0, 0;
    hl[8], hh[8] := v.lo, v.hi;
    PowersStart(hl[..], hh[..], h);
    var i := 4;
    while i > 0
      invariant i in {4, 2, 1, 0}
      invariant Powers(hl[..], hh[..], h, if i > 0 then 2 * i else 1)
      invariant i > 0 ==> v == Product(NibbleBits(2 * i), h)
    {
      ghost var l0, h0 := hl[..], hh[..];
      v := TimesX(v);
      PowersStep(l0, h0, h, i, v);
      hl[i], hh[i] := v.lo, v.hi;
      assert hl[..] == l0[i := v.lo] && hh[..] == h0[i := v.hi];
      i := i / 2;
    }
    PowersEnd(hl[..], hh[..], h);
    CombinePowers(hl, hh, h);
  }

  /** The second loop of gcm_build_table: every other entry from two entries below it. */
  method CombinePowers(hl: array<bv64>, hh: array<bv64>, ghost h: Elem)
    requires hl.Length == 16 && hh.Length == 16 && hl != hh && Filled(hl[..], hh[..], h, 3)
    modifies hl, hh
    ensures TableHolds(hl[..], hh[..], h)
  {
    hide *;
    var i := 2;
    while i < 16
      invariant i in {2, 4, 8, 16}
      invariant Filled(hl[..], hh[..], h, if i < 16 then i + 1 else 16)
      decreases 16 - i
    {
      var j := 1;
      while j < i
        invariant 1 <= j <= i
        invariant Filled(hl[..], hh[..], h, i + j)
      {
        CombineEntry(hl, hh, i, j, h);
        j := j + 1;
      }
      FilledMore(hl[..], hh[..], h, 2 * i);
      i := 2 * i;
    }
    FilledAll(hl[..], hh[..], h);
  }

  method CombineEntry(hl: array<bv64>, hh: array<bv64>, i: nat, j: nat, ghost h: Elem)
    requires hl.Length == 16 && hh.Length == 16 && hl != hh
    requires i in {2, 4, 8} && 1 <= j < i && Filled(hl[..], hh[..], h, i + j)
    modifies hl, hh
    ensures Filled(hl[..], hh[..], h, i + j + 1)
  {
    hide *;
    ghost var l0, h0 := hl[..], hh[..];
    FilledAt(l0, h0, h, i + j, i);
    FilledStep(l0, h0, h, i, j);
    hh[i + j] := Xor64(hh[i], hh[j]);
    hl[i + j] := Xor64(hl[i], hl[j]);
    assert hl[..] == l0[i + j := Xor64(l0[i], l0[j])] && hh[..] == h0[i + j := Xor64(h0[i], h0[j])];
  }

  lemma FilledAt(hl: seq<bv64>, hh: seq<bv64>, h: Elem, top: nat, n: nat)
    requires Filled(hl, hh, h, top) && n < 16 && (n < top || n == 4 || n == 8)
    ensures |hl| == 16 && |hh| == 16 && Holds(hl, hh, h, n)
  {
  }

  lemma FilledMore(hl: seq<bv64>, hh: seq<bv64>, h: Elem, top: nat)
    requires Filled(hl, hh, h, top)
    ensures top == 4 || top == 8 ==> Filled(hl, hh, h, top + 1)
  {
  }

  lemma FilledAll(hl: seq<bv64>, hh: seq<bv64>, h: Elem)
    requires Filled(hl, hh, h, 16)
    ensures TableHolds(hl, hh, h)
  {
    hide Holds;
  }

  // ---------- y * H ----------

  /** Shifting in one nibble of the multiplier, as the loop body of gcm_mult_h does twice. */
  lemma ShiftIn(hl: seq<bv64>, hh: seq<bv64>, h: Elem, z: Elem, n: nat, rest: seq<bool>)
    requires TableHolds(hl, hh, h) && n < 16 && z == Product(rest, h)
    ensures Sum(ShiftFour(z), Elem(hh[n], hl[n])) == Product(NibbleBits(n) + rest, h)
  {
    hide Sum, ShiftFour, Product, NibbleBits;
    assert Holds(hl, hh, h, n);
    ShiftFourIs(z);
    ProductNibble(NibbleBits(n), rest, h);
  }

  /** The bits taken in when the loop is about to look at byte i. */
  function Taken(y: Bytes, i: int): seq<bool>
    requires |y| == 16 && -1 <= i < 16
  {
    if i == 15 then NibbleBits(Nibble(y[15])) else BlockBits(y[i + 1..])
  }

  lemma TakenStep(y: Bytes, i: nat)
    requires |y| == 16 && i < 16
    ensures i < 15 ==> NibbleBits(Nibble(y[i] >> 4)) + (NibbleBits(Nibble(y[i])) + Taken(y, i)) == Taken(y, i - 1)
    ensures i == 15 ==> NibbleBits(Nibble(y[i] >> 4)) + Taken(y, i) == Taken(y, i - 1)
  {
    hide NibbleBits, ByteBits;
    ByteIsNibbles(y[i]);
    assert y[i..][1..] == y[i + 1..];
    assert BlockBits(y[i..]) == ByteBits(y[i]) + BlockBits(y[i + 1..]);
    if i == 15 {
      assert BlockBits(y[16..]) == [];
    }
  }

  /** kernel/gcm.h gcm_mult_h: the bit-serial product of section 6.3, from the table. */
  method MultH(hl: array<bv64>, hh: array<bv64>, y: array<Byte>, ghost h: Elem)
    requires hl.Length == 16 && hh.Length == 16 && y.Length == 16 && TableHolds(hl[..], hh[..], h)
    modifies y
    ensures y[..] == MulH(h, old(y[..]))
  {
    hide TableHolds, Product, Sum, ShiftFour, Nibble, NibbleBits, PutBe, BlockBits, Taken;
    ghost var s, l, t := y[..], hl[..], hh[..];
    var lo := Nibble(y[15]);
    var z := Elem(hh[lo], hl[lo]);
    MultStart(l, t, h, s);
    var i := 15;
    while i >= 0
      invariant -1 <= i <= 15 && y[..] == s && z == Product(Taken(s, i), h)
    {
      lo := Nibble(y[i]);
      var hi := Nibble(y[i] >> 4);
      TakenStep(s, i);
      ghost var bits := Taken(s, i);
      if i != 15 {
        ShiftIn(l, t, h, z, lo, bits);
        z := Sum(ShiftFour(z), Elem(hh[lo], hl[lo]));
        bits := NibbleBits(lo) + bits;
      }
      ShiftIn(l, t, h, z, hi, bits);
      z := Sum(ShiftFour(z), Elem(hh[hi], hl[hi]));
      i := i - 1;
    }
    MultEnd(h, s);
    StoreBlock(y, z);
  }

  lemma MultStart(hl: seq<bv64>, hh: seq<bv64>, h: Elem, s: Bytes)
    requires TableHolds(hl, hh, h) && |s| == 16
    ensures Elem(hh[Nibble(s[15])], hl[Nibble(s[15])]) == Product(Taken(s, 15), h)
  {
    hide Product, NibbleBits, Nibble;
    assert Holds(hl, hh, h, Nibble(s[15]));
  }

  lemma MultEnd(h: Elem, s: Bytes)
    requires |s| == 16
    ensures MulH(h, s) == BytesOf(Product(Taken(s, -1), h))
  {
    hide Product, Serial, BlockBits, PutBe;
    assert s[0..] == s;
    SerialIsProduct(BlockBits(s), ZERO, h);
    SumLaws(Product(BlockBits(s), h), ZERO, ZERO);
  }

  method StoreBlock(y: array<Byte>, z: Elem)
    requires y.Length == 16
    modifies y
    ensures y[..] == BytesOf(z)
  {
    hide PutBe;
    var b := BytesOf(z);
    for i := 0 to 16
      invariant y[..i] == b[..i]
    {
      y[i] := b[i];
    }
    assert y[..] == y[..16] && b == b[..16];
  }

  /** Y * H as section 6.3 defines it: the bits of Y select the multiples of H. */
  function MulH(h: Elem, y: Bytes): (r: Bytes)
    requires |y| == 16
    ensures |r| == 16
  {
    BytesOf(Serial(BlockBits(y), ZERO, h))
  }

  // ---------- GHASH ----------

  /** GHASH of section 6.4 from an intermediate value, over whole blocks. */
  function GhashFrom(h: Elem, y: Bytes, x: Bytes): (r: Bytes)
    requires |y| == 16 && |x| % 16 == 0
    ensures |r| == 16
    decreases |x|
  {
    if |x| == 0 then y else GhashFrom(h, MulH(h, Aes.Xor(y, x[..16])), x[16..])
  }

  lemma {:induction false} GhashSplit(h: Elem, y: Bytes, a: Bytes, b: Bytes)
    requires |y| == 16 && |a| % 16 == 0 && |b| % 16 == 0
    ensures GhashFrom(h, y, a + b) == GhashFrom(h, GhashFrom(h, y, a), b)
    decreases |a|
  {
    hide MulH, Aes.Xor;
    if |a| == 0 {
      assert a + b == b;
    } else {
      assert (a + b)[..16] == a[..16] && (a + b)[16..] == a[16..] + b;
      GhashSplit(h, MulH(h, Aes.Xor(y, a[..16])), a[16..], b);
    }
  }

  /** s followed by the zeros that complete its last block. */
  function Padded(s: Bytes): (r: Bytes)
    ensures |r| % 16 == 0
  {
    s + seq((16 - |s| % 16) % 16, _ => 0)
  }

  /** t with the bytes of s added in from offset off on. */
  function XorAt(t: Bytes, off: nat, s: Bytes): (r: Bytes)
    requires off + |s| <= |t|
    ensures |r| == |t|
  {
    seq(|t|, i requires 0 <= i < |t| => if off <= i < off + |s| then Aes.Add(t[i], s[i - off]) else t[i])
  }

  method XorInto(a: array<Byte>, off: nat, s: Bytes)
    requires off + |s| <= a.Length
    modifies a
    ensures a[..] == XorAt(old(a[..]), off, s)
  {
    hide Aes.Add, XorAt;
    ghost var t := a[..];
    XorAtNothing(t, off);
    assert s[..0] == [];
    for i := 0 to |s|
      invariant a[..] == XorAt(t, off, s[..i])
    {
      XorAtOneMore(t, off, s, i);
      ghost var before := a[..];
      a[off + i] := Aes.Add(a[off + i], s[i]);
      assert a[..] == before[off + i := Aes.Add(t[off + i], s[i])];
    }
    assert s[..|s|] == s;
  }

  lemma XorAtNothing(t: Bytes, off: nat)
    requires off <= |t|
    ensures XorAt(t, off, []) == t
  {
  }

  lemma XorAtOneMore(t: Bytes, off: nat, s: Bytes, i: nat)
    requires off + |s| <= |t| && i < |s|
    ensures XorAt(t, off, s[..i])[off + i] == t[off + i]
    ensures XorAt(t, off, s[..i + 1]) == XorAt(t, off, s[..i])[off + i := Aes.Add(t[off + i], s[i])]
  {
    hide Aes.Add;
  }

  lemma XorFull(y: Bytes, s: Bytes)
    requires |y| == 16 && |s| == 16
    ensures XorAt(y, 0, s) == Aes.Xor(y, s)
  {
    hide Aes.Add;
  }

  /** The rest of a short last block is an implicit zero pad. */
  lemma XorPadded(y: Bytes, s: Bytes)
    requires |y| == 16 && 0 < |s| < 16
    ensures |Padded(s)| == 16 && XorAt(y, 0, s) == Aes.Xor(y, Padded(s))
  {
    forall i | 0 <= i < 16 ensures XorAt(y, 0, s)[i] == Aes.Xor(y, Padded(s))[i] {
      Aes.AddLaws(y[i], 0, 0);
    }
  }

  lemma AbsorbStep(h: Elem, y: Bytes, s: Bytes)
    requires |y| == 16 && |s| >= 16
    ensures GhashFrom(h, y, Padded(s)) == GhashFrom(h, MulH(h, XorAt(y, 0, s[..16])), Padded(s[16..]))
  {
    hide MulH, Aes.Xor;
    XorFull(y, s[..16]);
    assert Padded(s)[..16] == s[..16] && Padded(s)[16..] == Padded(s[16..]);
  }

  lemma AbsorbLast(h: Elem, y: Bytes, s: Bytes)
    requires |y| == 16 && |s| < 16
    ensures GhashFrom(h, y, Padded(s)) == if |s| == 0 then y else MulH(h, XorAt(y, 0, s))
  {
    hide MulH, Aes.Xor;
    if |s| > 0 {
      XorPadded(y, s);
      assert Padded(s)[..16] == Padded(s) && Padded(s)[16..] == [];
    }
  }

  /** kernel/gcm.h gcm_absorb: GHASH over the data padded with zeros to a block boundary. */
  method Absorb(hl: array<bv64>, hh: array<bv64>, y: array<Byte>, data: Bytes, ghost h: Elem)
    requires hl.Length == 16 && hh.Length == 16 && y.Length == 16 && TableHolds(hl[..], hh[..], h)
    modifies y
    ensures y[..] == GhashFrom(h, old(y[..]), Padded(data))
  {
    hide *;
    ghost var goal := GhashFrom(h, y[..], Padded(data));
    var p := 0;
    assert data[0..] == data;
    while |data| - p >= 16
      invariant 0 <= p <= |data|
      invariant goal == GhashFrom(h, y[..], Padded(data[p..]))
    {
      AbsorbStep(h, y[..], data[p..]);
      assert data[p..][..16] == data[p..p + 16] && data[p..][16..] == data[p + 16..];
      XorInto(y, 0, data[p..p + 16]);
      MultH(hl, hh, y, h);
      p := p + 16;
    }
    AbsorbLast(h, y[..], data[p..]);
    if |data| - p > 0 {
      XorInto(y, 0, data[p..]);
      MultH(hl, hh, y, h);
    }
  }
}
