/** kernel/aes.h: AES-128 and AES-256 (FIPS 197) and CBC mode.  The state is 16
    bytes of a buffer, transformed in place; each step's contract is the step of
    the standard on values. */
module Aes {
  import opened Blocks

  // ---------- GF(2^8) ----------

  /** Addition in GF(2^8), under a name so that proofs can treat sums as atoms. */
  function Add(a: Byte, b: Byte): Byte {
    a ^ b
  }

  lemma AddLaws(x: Byte, y: Byte, z: Byte)
    ensures Add(Add(x, y), z) == Add(x, Add(y, z)) && Add(x, 0) == x && Add(0, x) == x
    ensures Add(Add(x, y), y) == x
  {
  }

  /** aes_xtime: multiplication by x modulo x^8 + x^4 + x^3 + x + 1. */
  function Xtime(x: Byte): Byte {
    if x & 0x80 != 0 then (x << 1) ^ 0x1B else x << 1
  }

  lemma XtimeLinear(a: Byte, b: Byte)
    ensures Xtime(Add(a, b)) == Add(Xtime(a), Xtime(b))
  {
    if a & 0x80 != 0 {
      if b & 0x80 != 0 {} else {}
    } else {
      if b & 0x80 != 0 {} else {}
    }
  }

  /** The product in GF(2^8): the sum of the shifts of a at the set bits of b. */
  function Gmul(a: Byte, b: nat): Byte
    decreases b
  {
    if b == 0 then 0 else Add(if b % 2 == 1 then a else 0, Gmul(Xtime(a), b / 2))
  }

  lemma GmulStep(a: Byte, b: nat)
    ensures Gmul(a, b) == if b % 2 == 1 then Add(a, Gmul(Xtime(a), b / 2)) else Gmul(Xtime(a), b / 2)
  {
    hide Xtime, Add;
    AddLaws(Gmul(Xtime(a), b / 2), 0, 0);
    if b == 0 { GmulZero(Xtime(a)); }
  }

  lemma GmulZero(a: Byte)
    ensures Gmul(a, 0) == 0
  {
  }

  /** The shift-and-add loop: what is accumulated plus what is still selected. */
  ghost predicate MulInv(result: Byte, a: Byte, b: nat, total: Byte) {
    Add(result, Gmul(a, b)) == total
  }

  lemma MulInvStep(result: Byte, a: Byte, b: nat, total: Byte)
    requires MulInv(result, a, b, total)
    ensures MulInv(if b % 2 == 1 then Add(result, a) else result, Xtime(a), b / 2, total)
  {
    hide Xtime, Gmul, Add;
    GmulStep(a, b);
    AddLaws(result, a, Gmul(Xtime(a), b / 2));
  }

  lemma MulInvEnds(a: Byte, b: nat, result: Byte, total: Byte)
    ensures MulInv(0, a, b, Gmul(a, b))
    ensures MulInv(result, a, 0, total) ==> result == total
  {
    hide Xtime, Add;
    AddLaws(Gmul(a, b), 0, 0);
    AddLaws(result, 0, 0);
  }

  /** kernel/aes.h aes_mul: eight rounds of shift-and-add. */
  method AesMul(a0: Byte, b0: nat) returns (result: Byte)
    requires b0 < 256
    ensures result == Gmul(a0, b0)
  {
    hide *;
    var a, b := a0, b0;
    result := 0;
    MulInvEnds(a0, b0, 0, 0);
    ghost var bound := 256;
    for i := 0 to 8
      invariant MulInv(result, a, b, Gmul(a0, b0))
      invariant b < bound && bound == [256, 128, 64, 32, 16, 8, 4, 2, 1][i]
    {
      MulInvStep(result, a, b, Gmul(a0, b0));
      if b % 2 == 1 { result := Add(result, a); }
      a := Xtime(a);
      b := b / 2;
      bound := bound / 2;
    }
    MulInvEnds(a, 0, result, Gmul(a0, b0));
  }

  // The constants of MixColumns and its inverse, as sums of doublings.

  lemma Gmul2(a: Byte)
    ensures Gmul(a, 2) == Xtime(a)
  {
    hide Xtime, Gmul, Add;
    GmulStep(a, 2);
    GmulStep(Xtime(a), 1);
    GmulZero(Xtime(Xtime(a)));
    AddLaws(Xtime(a), 0, 0);
  }

  lemma Gmul3(a: Byte)
    ensures Gmul(a, 3) == Add(a, Xtime(a))
  {
    hide Xtime, Gmul, Add;
    GmulStep(a, 3);
    GmulStep(Xtime(a), 1);
    GmulZero(Xtime(Xtime(a)));
    AddLaws(Xtime(a), 0, 0);
  }

  lemma Gmul9(a: Byte)
    ensures Gmul(a, 9) == Add(a, Xtime(Xtime(Xtime(a))))
  {
    hide Xtime, Gmul, Add;
    GmulStep(a, 9);
    GmulStep(Xtime(a), 4);
    GmulStep(Xtime(Xtime(a)), 2);
    GmulStep(Xtime(Xtime(Xtime(a))), 1);
    GmulZero(Xtime(Xtime(Xtime(Xtime(a)))));
    AddLaws(Xtime(Xtime(Xtime(a))), 0, 0);
  }

  lemma Gmul11(a: Byte)
    ensures Gmul(a, 11) == Add(a, Add(Xtime(a), Xtime(Xtime(Xtime(a)))))
  {
    hide Xtime, Gmul, Add;
    GmulStep(a, 11);
    GmulStep(Xtime(a), 5);
    GmulStep(Xtime(Xtime(a)), 2);
    GmulStep(Xtime(Xtime(Xtime(a))), 1);
    GmulZero(Xtime(Xtime(Xtime(Xtime(a)))));
    AddLaws(Xtime(Xtime(Xtime(a))), 0, 0);
  }

  lemma Gmul13(a: Byte)
    ensures Gmul(a, 13) == Add(a, Add(Xtime(Xtime(a)), Xtime(Xtime(Xtime(a)))))
  {
    hide Xtime, Gmul, Add;
    GmulStep(a, 13);
    GmulStep(Xtime(a), 6);
    GmulStep(Xtime(Xtime(a)), 3);
    GmulStep(Xtime(Xtime(Xtime(a))), 1);
    GmulZero(Xtime(Xtime(Xtime(Xtime(a)))));
    AddLaws(Xtime(Xtime(Xtime(a))), 0, 0);
  }

  lemma Gmul14(a: Byte)
    ensures Gmul(a, 14) == Add(Xtime(a), Add(Xtime(Xtime(a)), Xtime(Xtime(Xtime(a)))))
  {
    hide Xtime, Gmul, Add;
    GmulStep(a, 14);
    GmulStep(Xtime(a), 7);
    GmulStep(Xtime(Xtime(a)), 3);
    GmulStep(Xtime(Xtime(Xtime(a))), 1);
    GmulZero(Xtime(Xtime(Xtime(Xtime(a)))));
    AddLaws(Xtime(Xtime(Xtime(a))), 0, 0);
  }

  // ---------- products and inverses of bytes ----------

  function Low(b: Byte): bool {
    b & 1 == 1
  }

  function Term(b: bool, a: Byte): Byte {
    if b then a else 0
  }

  /** The product of two bytes, its eight rounds written out. */
  function Times(a: Byte, b: Byte): Byte {
    var a1 := Xtime(a);
    var a2 := Xtime(a1);
    var a3 := Xtime(a2);
    var a4 := Xtime(a3);
    var a5 := Xtime(a4);
    var a6 := Xtime(a5);
    var a7 := Xtime(a6);
    Add(Term(Low(b), a), Add(Term(Low(b >> 1), a1), Add(Term(Low(b >> 2), a2), Add(Term(Low(b >> 3), a3),
    Add(Term(Low(b >> 4), a4), Add(Term(Low(b >> 5), a5), Add(Term(Low(b >> 6), a6), Term(Low(b >> 7), a7))))))))
  }

  lemma NumHalves(b: Byte)
    ensures Num(b) / 2 == Num(b >> 1) && (Num(b) % 2 == 1 <==> Low(b))
  {
  }

  lemma Shifts(b: Byte)
    ensures (b >> 1) >> 1 == b >> 2 && (b >> 2) >> 1 == b >> 3 && (b >> 3) >> 1 == b >> 4 && (b >> 4) >> 1 == b >> 5
    ensures (b >> 5) >> 1 == b >> 6 && (b >> 6) >> 1 == b >> 7 && (b >> 7) >> 1 == 0 && Num(0) == 0
  {
  }

  lemma GmulTerm(a: Byte, b: Byte)
    ensures Gmul(a, Num(b)) == Add(Term(Low(b), a), Gmul(Xtime(a), Num(b >> 1)))
  {
    hide Xtime, Add, Low;
    NumHalves(b);
    hide Num;
    GmulStep(a, Num(b));
    AddLaws(Gmul(Xtime(a), Num(b >> 1)), 0, 0);
  }

  lemma TimesIsGmul(a: Byte, b: Byte)
    ensures Times(a, b) == Gmul(a, Num(b))
  {
    hide Xtime, Add, Gmul, Num, Term, Low;
    var a1 := Xtime(a);
    var a2 := Xtime(a1);
    var a3 := Xtime(a2);
    var a4 := Xtime(a3);
    var a5 := Xtime(a4);
    var a6 := Xtime(a5);
    var a7 := Xtime(a6);
    Shifts(b);
    GmulTerm(a, b);
    GmulTerm(a1, b >> 1);
    GmulTerm(a2, b >> 2);
    GmulTerm(a3, b >> 3);
    GmulTerm(a4, b >> 4);
    GmulTerm(a5, b >> 5);
    GmulTerm(a6, b >> 6);
    GmulTerm(a7, b >> 7);
    GmulZero(Xtime(a7));
    AddLaws(Term(Low(b >> 7), a7), 0, 0);
  }

  // ---------- the S-box ----------

  /** Entry i of a row of sixteen. */
  function Pick(i: bv8, a0: bv8, a1: bv8, a2: bv8, a3: bv8, a4: bv8, a5: bv8, a6: bv8, a7: bv8,
                a8: bv8, a9: bv8, a10: bv8, a11: bv8, a12: bv8, a13: bv8, a14: bv8, a15: bv8): bv8
  {
    if i < 8 then
      if i < 4 then if i < 2 then if i < 1 then a0 else a1 else if i < 3 then a2 else a3
      else if i < 6 then if i < 5 then a4 else a5 else if i < 7 then a6 else a7
    else
      if i < 12 then if i < 10 then if i < 9 then a8 else a9 else if i < 11 then a10 else a11
      else if i < 14 then if i < 13 then a12 else a13 else if i < 15 then a14 else a15
  }

  /** aes_sbox. */
  function Sbox(x: bv8): bv8 {
    var l := x & 0x0F;
    Pick(x >> 4,
      Pick(l, 0x63, 0x7c, 0x77, 0x7b, 0xf2, 0x6b, 0x6f, 0xc5, 0x30, 0x01, 0x67, 0x2b, 0xfe, 0xd7, 0xab, 0x76),
      Pick(l, 0xca, 0x82, 0xc9, 0x7d, 0xfa, 0x59, 0x47, 0xf0, 0xad, 0xd4, 0xa2, 0xaf, 0x9c, 0xa4, 0x72, 0xc0),
      Pick(l, 0xb7, 0xfd, 0x93, 0x26, 0x36, 0x3f, 0xf7, 0xcc, 0x34, 0xa5, 0xe5, 0xf1, 0x71, 0xd8, 0x31, 0x15),
      Pick(l, 0x04, 0xc7, 0x23, 0xc3, 0x18, 0x96, 0x05, 0x9a, 0x07, 0x12, 0x80, 0xe2, 0xeb, 0x27, 0xb2, 0x75),
      Pick(l, 0x09, 0x83, 0x2c, 0x1a, 0x1b, 0x6e, 0x5a, 0xa0, 0x52, 0x3b, 0xd6, 0xb3, 0x29, 0xe3, 0x2f, 0x84),
      Pick(l, 0x53, 0xd1, 0x00, 0xed, 0x20, 0xfc, 0xb1, 0x5b, 0x6a, 0xcb, 0xbe, 0x39, 0x4a, 0x4c, 0x58, 0xcf),
      Pick(l, 0xd0, 0xef, 0xaa, 0xfb, 0x43, 0x4d, 0x33, 0x85, 0x45, 0xf9, 0x02, 0x7f, 0x50, 0x3c, 0x9f, 0xa8),
      Pick(l, 0x51, 0xa3, 0x40, 0x8f, 0x92, 0x9d, 0x38, 0xf5, 0xbc, 0xb6, 0xda, 0x21, 0x10, 0xff, 0xf3, 0xd2),
      Pick(l, 0xcd, 0x0c, 0x13, 0xec, 0x5f, 0x97, 0x44, 0x17, 0xc4, 0xa7, 0x7e, 0x3d, 0x64, 0x5d, 0x19, 0x73),
      Pick(l, 0x60, 0x81, 0x4f, 0xdc, 0x22, 0x2a, 0x90, 0x88, 0x46, 0xee, 0xb8, 0x14, 0xde, 0x5e, 0x0b, 0xdb),
      Pick(l, 0xe0, 0x32, 0x3a, 0x0a, 0x49, 0x06, 0x24, 0x5c, 0xc2, 0xd3, 0xac, 0x62, 0x91, 0x95, 0xe4, 0x79),
      Pick(l, 0xe7, 0xc8, 0x37, 0x6d, 0x8d, 0xd5, 0x4e, 0xa9, 0x6c, 0x56, 0xf4, 0xea, 0x65, 0x7a, 0xae, 0x08),
      Pick(l, 0xba, 0x78, 0x25, 0x2e, 0x1c, 0xa6, 0xb4, 0xc6, 0xe8, 0xdd, 0x74, 0x1f, 0x4b, 0xbd, 0x8b, 0x8a),
      Pick(l, 0x70, 0x3e, 0xb5, 0x66, 0x48, 0x03, 0xf6, 0x0e, 0x61, 0x35, 0x57, 0xb9, 0x86, 0xc1, 0x1d, 0x9e),
      Pick(l, 0xe1, 0xf8, 0x98, 0x11, 0x69, 0xd9, 0x8e, 0x94, 0x9b, 0x1e, 0x87, 0xe9, 0xce, 0x55, 0x28, 0xdf),
      Pick(l, 0x8c, 0xa1, 0x89, 0x0d, 0xbf, 0xe6, 0x42, 0x68, 0x41, 0x99, 0x2d, 0x0f, 0xb0, 0x54, 0xbb, 0x16))
  }

  /** aes_inv_sbox. */
  function InvSbox(x: bv8): bv8 {
    var l := x & 0x0F;
    Pick(x >> 4,
      Pick(l, 0x52, 0x09, 0x6a, 0xd5, 0x30, 0x36, 0xa5, 0x38, 0xbf, 0x40, 0xa3, 0x9e, 0x81, 0xf3, 0xd7, 0xfb),
      Pick(l, 0x7c, 0xe3, 0x39, 0x82, 0x9b, 0x2f, 0xff, 0x87, 0x34, 0x8e, 0x43, 0x44, 0xc4, 0xde, 0xe9, 0xcb),
      Pick(l, 0x54, 0x7b, 0x94, 0x32, 0xa6, 0xc2, 0x23, 0x3d, 0xee, 0x4c, 0x95, 0x0b, 0x42, 0xfa, 0xc3, 0x4e),
      Pick(l, 0x08, 0x2e, 0xa1, 0x66, 0x28, 0xd9, 0x24, 0xb2, 0x76, 0x5b, 0xa2, 0x49, 0x6d, 0x8b, 0xd1, 0x25),
      Pick(l, 0x72, 0xf8, 0xf6, 0x64, 0x86, 0x68, 0x98, 0x16, 0xd4, 0xa4, 0x5c, 0xcc, 0x5d, 0x65, 0xb6, 0x92),
      Pick(l, 0x6c, 0x70, 0x48, 0x50, 0xfd, 0xed, 0xb9, 0xda, 0x5e, 0x15, 0x46, 0x57, 0xa7, 0x8d, 0x9d, 0x84),
      Pick(l, 0x90, 0xd8, 0xab, 0x00, 0x8c, 0xbc, 0xd3, 0x0a, 0xf7, 0xe4, 0x58, 0x05, 0xb8, 0xb3, 0x45, 0x06),
      Pick(l, 0xd0, 0x2c, 0x1e, 0x8f, 0xca, 0x3f, 0x0f, 0x02, 0xc1, 0xaf, 0xbd, 0x03, 0x01, 0x13, 0x8a, 0x6b),
      Pick(l, 0x3a, 0x91, 0x11, 0x41, 0x4f, 0x67, 0xdc, 0xea, 0x97, 0xf2, 0xcf, 0xce, 0xf0, 0xb4, 0xe6, 0x73),
      Pick(l, 0x96, 0xac, 0x74, 0x22, 0xe7, 0xad, 0x35, 0x85, 0xe2, 0xf9, 0x37, 0xe8, 0x1c, 0x75, 0xdf, 0x6e),
      Pick(l, 0x47, 0xf1, 0x1a, 0x71, 0x1d, 0x29, 0xc5, 0x89, 0x6f, 0xb7, 0x62, 0x0e, 0xaa, 0x18, 0xbe, 0x1b),
      Pick(l, 0xfc, 0x56, 0x3e, 0x4b, 0xc6, 0xd2, 0x79, 0x20, 0x9a, 0xdb, 0xc0, 0xfe, 0x78, 0xcd, 0x5a, 0xf4),
      Pick(l, 0x1f, 0xdd, 0xa8, 0x33, 0x88, 0x07, 0xc7, 0x31, 0xb1, 0x12, 0x10, 0x59, 0x27, 0x80, 0xec, 0x5f),
      Pick(l, 0x60, 0x51, 0x7f, 0xa9, 0x19, 0xb5, 0x4a, 0x0d, 0x2d, 0xe5, 0x7a, 0x9f, 0x93, 0xc9, 0x9c, 0xef),
      Pick(l, 0xa0, 0xe0, 0x3b, 0x4d, 0xae, 0x2a, 0xf5, 0xb0, 0xc8, 0xeb, 0xbb, 0x3c, 0x83, 0x53, 0x99, 0x61),
      Pick(l, 0x17, 0x2b, 0x04, 0x7e, 0xba, 0x77, 0xd6, 0x26, 0xe1, 0x69, 0x14, 0x63, 0x55, 0x21, 0x0c, 0x7d))
  }

  lemma SboxQuarter0(x: Byte)
    requires 0x00 <= x <= 0x3F
    ensures InvSbox(Sbox(x)) == x
  {
  }

  lemma SboxQuarter1(x: Byte)
    requires 0x40 <= x <= 0x7F
    ensures InvSbox(Sbox(x)) == x
  {
  }

  lemma SboxQuarter2(x: Byte)
    requires 0x80 <= x <= 0xBF
    ensures InvSbox(Sbox(x)) == x
  {
  }

  lemma SboxQuarter3(x: Byte)
    requires 0xC0 <= x <= 0xFF
    ensures InvSbox(Sbox(x)) == x
  {
  }

  lemma SboxInverts(x: Byte)
    ensures InvSbox(Sbox(x)) == x
  {
    hide Sbox, InvSbox;
    if x <= 0x3F {
      SboxQuarter0(x);
    } else if x <= 0x7F {
      SboxQuarter1(x);
    } else if x <= 0xBF {
      SboxQuarter2(x);
    } else {
      SboxQuarter3(x);
    }
  }

  function RotL(y: Byte, k: nat): Byte
    requires 1 <= k < 8
  {
    (y << k) | (y >> (8 - k))
  }

  /** The affine map of FIPS 197 section 5.1.1: bit i becomes the sum of the bits i, i + 4, i + 5,
      i + 6 and i + 7 modulo 8 and bit i of 0x63. */
  function Affine(y: Byte): Byte {
    y ^ RotL(y, 1) ^ RotL(y, 2) ^ RotL(y, 3) ^ RotL(y, 4) ^ 0x63
  }

  function InvAffine(s: Byte): Byte {
    RotL(s, 1) ^ RotL(s, 3) ^ RotL(s, 6) ^ 0x05
  }

  lemma AffineInverts(s: Byte)
    ensures Affine(InvAffine(s)) == s
  {
  }

  lemma InverseQuarter0(x: Byte)
    requires 0x00 < x <= 0x3F
    ensures Times(x, InvAffine(Sbox(x))) == 1
  {
  }

  lemma InverseQuarter1(x: Byte)
    requires 0x40 <= x <= 0x7F
    ensures Times(x, InvAffine(Sbox(x))) == 1
  {
  }

  lemma InverseQuarter2(x: Byte)
    requires 0x80 <= x <= 0xBF
    ensures Times(x, InvAffine(Sbox(x))) == 1
  {
  }

  lemma InverseQuarter3(x: Byte)
    requires 0xC0 <= x <= 0xFF
    ensures Times(x, InvAffine(Sbox(x))) == 1
  {
  }

  lemma SboxOfZero()
    ensures InvAffine(Sbox(0)) == 0
  {
  }

  /** Every entry is the affine map of the inverse in GF(2^8), where 0 stands for its own inverse. */
  lemma SboxMeans(x: Byte) returns (y: Byte)
    ensures Sbox(x) == Affine(y) && (if x == 0 then y == 0 else Gmul(x, Num(y)) == 1)
  {
    y := InvAffine(Sbox(x));
    AffineInverts(Sbox(x));
    TimesIsGmul(x, y);
    SboxOfZero();
    hide Sbox, Affine, InvAffine, Times, Gmul, Num;
    if 0x00 < x <= 0x3F {
      InverseQuarter0(x);
    } else if 0x40 <= x <= 0x7F {
      InverseQuarter1(x);
    } else if 0x80 <= x <= 0xBF {
      InverseQuarter2(x);
    } else if 0xC0 <= x {
      InverseQuarter3(x);
    }
  }

  // ---------- the steps of a round, on values (FIPS 197 sections 5.1 and 5.3) ----------

  function Xor(s: Bytes, t: Bytes): (r: Bytes)
    requires |s| == |t|
    ensures |r| == |s|
  {
    seq(|s|, i requires 0 <= i < |s| => Add(s[i], t[i]))
  }

  function SubBytesOf(s: Bytes): (r: Bytes)
    ensures |r| == |s|
  {
    seq(|s|, i requires 0 <= i < |s| => Sbox(s[i]))
  }

  function InvSubBytesOf(s: Bytes): (r: Bytes)
    ensures |r| == |s|
  {
    seq(|s|, i requires 0 <= i < |s| => InvSbox(s[i]))
  }

  /** Row r of the column-major state (index 4c + r) moves left by r columns. */
  function ShiftRowsOf(s: Bytes): (r: Bytes)
    requires |s| == 16
    ensures |r| == 16
  {
    [s[0], s[5], s[10], s[15], s[4], s[9], s[14], s[3], s[8], s[13], s[2], s[7], s[12], s[1], s[6], s[11]]
  }

  /** Row r moves right by r columns. */
  function InvShiftRowsOf(s: Bytes): (r: Bytes)
    requires |s| == 16
    ensures |r| == 16
  {
    [s[0], s[13], s[10], s[7], s[4], s[1], s[14], s[11], s[8], s[5], s[2], s[15], s[12], s[9], s[6], s[3]]
  }

  /** The index form of section 5.1.2: s'[r, c] = s[r, (c + r) mod 4]. */
  lemma ShiftRowsMeaning(s: Bytes, r: nat, c: nat)
    requires |s| == 16 && r < 4 && c < 4
    ensures ShiftRowsOf(s)[4 * c + r] == s[4 * ((c + r) % 4) + r]
  {
    var k := (c + r) % 4;
    assert k == if c + r >= 4 then c + r - 4 else c + r;
    if r == 0 {
      if c == 0 {} else if c == 1 {} else if c == 2 {} else {}
    } else if r == 1 {
      if c == 0 {} else if c == 1 {} else if c == 2 {} else {}
    } else if r == 2 {
      if c == 0 {} else if c == 1 {} else if c == 2 {} else {}
    } else {
      if c == 0 {} else if c == 1 {} else if c == 2 {} else {}
    }
  }

  /** One column of the state. */
  datatype Col = Col(a0: Byte, a1: Byte, a2: Byte, a3: Byte)

  function Sum4(a: Byte, b: Byte, c: Byte, d: Byte): Byte {
    Add(Add(Add(a, b), c), d)
  }

  function MixCol(c: Col): Col {
    Col(Sum4(Gmul(c.a0, 2), Gmul(c.a1, 3), c.a2, c.a3),
        Sum4(c.a0, Gmul(c.a1, 2), Gmul(c.a2, 3), c.a3),
        Sum4(c.a0, c.a1, Gmul(c.a2, 2), Gmul(c.a3, 3)),
        Sum4(Gmul(c.a0, 3), c.a1, c.a2, Gmul(c.a3, 2)))
  }

  function InvMixCol(c: Col): Col {
    Col(Sum4(Gmul(c.a0, 14), Gmul(c.a1, 11), Gmul(c.a2, 13), Gmul(c.a3, 9)),
        Sum4(Gmul(c.a0, 9), Gmul(c.a1, 14), Gmul(c.a2, 11), Gmul(c.a3, 13)),
        Sum4(Gmul(c.a0, 13), Gmul(c.a1, 9), Gmul(c.a2, 14), Gmul(c.a3, 11)),
        Sum4(Gmul(c.a0, 11), Gmul(c.a1, 13), Gmul(c.a2, 9), Gmul(c.a3, 14)))
  }

  function ColAt(s: Bytes, c: nat): Col
    requires |s| == 16 && c < 4
  {
    Col(s[4 * c], s[4 * c + 1], s[4 * c + 2], s[4 * c + 3])
  }

  function ColBytes(c: Col): (r: Bytes)
    ensures |r| == 4
  {
    [c.a0, c.a1, c.a2, c.a3]
  }

  function FromCols(c0: Col, c1: Col, c2: Col, c3: Col): (r: Bytes)
    ensures |r| == 16
  {
    ColBytes(c0) + ColBytes(c1) + ColBytes(c2) + ColBytes(c3)
  }

  function MixColumnsOf(s: Bytes): (r: Bytes)
    requires |s| == 16
    ensures |r| == 16
  {
    FromCols(MixCol(ColAt(s, 0)), MixCol(ColAt(s, 1)), MixCol(ColAt(s, 2)), MixCol(ColAt(s, 3)))
  }

  function InvMixColumnsOf(s: Bytes): (r: Bytes)
    requires |s| == 16
    ensures |r| == 16
  {
    FromCols(InvMixCol(ColAt(s, 0)), InvMixCol(ColAt(s, 1)), InvMixCol(ColAt(s, 2)), InvMixCol(ColAt(s, 3)))
  }

  // ---------- each step has its inverse ----------

  lemma XorTwice(s: Bytes, k: Bytes)
    requires |s| == |k|
    ensures Xor(Xor(s, k), k) == s
  {
    hide Add;
    forall i | 0 <= i < |s| ensures Add(Add(s[i], k[i]), k[i]) == s[i] {
      AddLaws(s[i], k[i], 0);
    }
  }

  lemma SubBytesInverts(s: Bytes)
    ensures InvSubBytesOf(SubBytesOf(s)) == s
  {
    hide Sbox, InvSbox;
    forall i | 0 <= i < |s| ensures InvSbox(Sbox(s[i])) == s[i] {
      SboxInverts(s[i]);
    }
  }

  lemma ShiftRowsInverts(s: Bytes)
    requires |s| == 16
    ensures InvShiftRowsOf(ShiftRowsOf(s)) == s
  {
    var t := ShiftRowsOf(s);
    assert InvShiftRowsOf(t) == [s[0], s[1], s[2], s[3], s[4], s[5], s[6], s[7],
      s[8], s[9], s[10], s[11], s[12], s[13], s[14], s[15]];
  }

  // The inverse mix undoes the mix: with m0..m3 the mixed column, row 0 of the
  // inverse is (m1+m2+m3) + x(m0+m1) + x^2(m0+m2) + x^3(m0+m1+m2+m3).

  lemma Interchange(a: Byte, b: Byte, c: Byte, d: Byte)
    ensures Add(Add(a, b), Add(c, d)) == Add(Add(a, c), Add(b, d))
  {
    AddCommutes(b, c);
    hide Add;
    AddLaws(a, b, Add(c, d));
    AddLaws(b, c, d);
    AddLaws(c, b, d);
    AddLaws(a, c, Add(b, d));
  }

  lemma AddCommutes(a: Byte, b: Byte)
    ensures Add(a, b) == Add(b, a)
  {
  }

  lemma AddRows(a: Byte, b: Byte, c: Byte, d: Byte, e: Byte, f: Byte, g: Byte, h: Byte)
    ensures Add(Sum4(a, b, c, d), Sum4(e, f, g, h)) == Sum4(Add(a, e), Add(b, f), Add(c, g), Add(d, h))
  {
    hide Add;
    Interchange(Add(Add(a, b), c), d, Add(Add(e, f), g), h);
    Interchange(Add(a, b), c, Add(e, f), g);
    Interchange(a, b, e, f);
  }

  /** A four by four table of terms summed by rows or by columns. */
  lemma Transpose(a: Col, b: Col, c: Col, d: Col)
    ensures Sum4(ColSum(a), ColSum(b), ColSum(c), ColSum(d))
      == Sum4(Sum4(a.a0, b.a0, c.a0, d.a0), Sum4(a.a1, b.a1, c.a1, d.a1),
              Sum4(a.a2, b.a2, c.a2, d.a2), Sum4(a.a3, b.a3, c.a3, d.a3))
  {
    hide Add;
    AddRows(a.a0, a.a1, a.a2, a.a3, b.a0, b.a1, b.a2, b.a3);
    AddRows(Add(a.a0, b.a0), Add(a.a1, b.a1), Add(a.a2, b.a2), Add(a.a3, b.a3), c.a0, c.a1, c.a2, c.a3);
    AddRows(Add(Add(a.a0, b.a0), c.a0), Add(Add(a.a1, b.a1), c.a1), Add(Add(a.a2, b.a2), c.a2),
      Add(Add(a.a3, b.a3), c.a3), d.a0, d.a1, d.a2, d.a3);
  }

  function ColSum(c: Col): Byte {
    Sum4(c.a0, c.a1, c.a2, c.a3)
  }

  lemma XtimeSum4(a: Byte, b: Byte, c: Byte, d: Byte)
    ensures Xtime(Sum4(a, b, c, d)) == Sum4(Xtime(a), Xtime(b), Xtime(c), Xtime(d))
    ensures Xtime(0) == 0
  {
    hide Add;
    XtimeLinear(Add(Add(a, b), c), d);
    XtimeLinear(Add(a, b), c);
    XtimeLinear(a, b);
  }

  /** The four products of row 0, each as a sum of four (possibly zero) doublings. */
  lemma RowProducts(m: Byte)
    ensures var d := Xtime(m); var q := Xtime(d); var o := Xtime(q);
      Gmul(m, 14) == Sum4(0, d, q, o) && Gmul(m, 11) == Sum4(m, d, 0, o)
      && Gmul(m, 13) == Sum4(m, 0, q, o) && Gmul(m, 9) == Sum4(m, 0, 0, o)
  {
    hide Xtime, Gmul, Add;
    var d := Xtime(m); var q := Xtime(d); var o := Xtime(q);
    Gmul14(m);
    Gmul11(m);
    Gmul13(m);
    Gmul9(m);
    AddLaws(0, d, 0); AddLaws(d, q, o); AddLaws(m, d, o); AddLaws(Add(m, d), 0, 0);
    AddLaws(m, q, o); AddLaws(m, 0, 0);
  }

  /** Row 0 of the inverse mix, regrouped by powers of x. */
  lemma InvRowByPowers(m0: Byte, m1: Byte, m2: Byte, m3: Byte)
    ensures Sum4(Gmul(m0, 14), Gmul(m1, 11), Gmul(m2, 13), Gmul(m3, 9))
      == Sum4(Sum4(0, m1, m2, m3), Xtime(Sum4(m0, m1, 0, 0)), Xtime(Xtime(Sum4(m0, 0, m2, 0))),
              Xtime(Xtime(Xtime(Sum4(m0, m1, m2, m3)))))
  {
    hide Xtime, Gmul, Add, Sum4;
    RowProducts(m0);
    RowProducts(m1);
    RowProducts(m2);
    RowProducts(m3);
    var d0, d1, d2, d3 := Xtime(m0), Xtime(m1), Xtime(m2), Xtime(m3);
    var q0, q1, q2, q3 := Xtime(d0), Xtime(d1), Xtime(d2), Xtime(d3);
    var o0, o1, o2, o3 := Xtime(q0), Xtime(q1), Xtime(q2), Xtime(q3);
    Transpose(Col(0, d0, q0, o0), Col(m1, d1, 0, o1), Col(m2, 0, q2, o2), Col(m3, 0, 0, o3));
    XtimeSum4(m0, m1, 0, 0);
    XtimeSum4(m0, 0, m2, 0);
    XtimeSum4(d0, 0, d2, 0);
    XtimeSum4(m0, m1, m2, m3);
    XtimeSum4(d0, d1, d2, d3);
    XtimeSum4(q0, q1, q2, q3);
  }

  // The sums of mixed bytes that occur, with d = x a.

  function Row0(a0: Byte, a1: Byte, a2: Byte, a3: Byte, d0: Byte, d1: Byte): Byte {
    d0 ^ a1 ^ d1 ^ a2 ^ a3
  }

  lemma MixedThree(a0: Byte, a1: Byte, a2: Byte, a3: Byte, d0: Byte, d1: Byte, d2: Byte, d3: Byte)
    ensures Sum4(0, Row0(a1, a2, a3, a0, d1, d2), Row0(a2, a3, a0, a1, d2, d3), Row0(a3, a0, a1, a2, d3, d0))
      == Add(Add(a0, d0), d1)
  {
  }

  lemma MixedPair(a0: Byte, a1: Byte, a2: Byte, a3: Byte, d0: Byte, d1: Byte, d2: Byte)
    ensures Sum4(Row0(a0, a1, a2, a3, d0, d1), Row0(a1, a2, a3, a0, d1, d2), 0, 0) == Sum4(d0, a0, a1, d2)
  {
  }

  lemma MixedAlternate(a0: Byte, a1: Byte, a2: Byte, a3: Byte, d0: Byte, d1: Byte, d2: Byte, d3: Byte)
    ensures Sum4(Row0(a0, a1, a2, a3, d0, d1), 0, Row0(a2, a3, a0, a1, d2, d3), 0)
      == Add(Sum4(d0, d1, d2, d3), Add(a0, a2))
  {
  }

  lemma MixedAll(a0: Byte, a1: Byte, a2: Byte, a3: Byte, d0: Byte, d1: Byte, d2: Byte, d3: Byte)
    ensures Sum4(Row0(a0, a1, a2, a3, d0, d1), Row0(a1, a2, a3, a0, d1, d2),
                 Row0(a2, a3, a0, a1, d2, d3), Row0(a3, a0, a1, a2, d3, d0)) == Sum4(a0, a1, a2, a3)
  {
  }

  lemma CancelMiddle(a: Byte, e: Byte, g: Byte)
    ensures Add(Add(a, e), Add(e, g)) == Add(a, g)
  {
    AddLaws(Add(a, e), e, g);
    AddLaws(a, e, 0);
    hide Add;
  }

  /** The four powers of x put together: everything but a0 cancels. */
  lemma PowersCancel(a0: Byte, d0: Byte, d1: Byte, q0: Byte, q2: Byte, t: Byte)
    ensures Sum4(Add(Add(a0, d0), d1), Sum4(q0, d0, d1, q2), Add(t, Add(q0, q2)), t) == a0
  {
    hide Add;
    var e, g := Add(d0, d1), Add(q0, q2);
    AddLaws(a0, d0, d1);
    AddLaws(q0, d0, d1);
    AddCommutes(q0, e);
    AddLaws(e, q0, q2);
    CancelMiddle(a0, e, g);
    AddCommutes(t, g);
    CancelMiddle(a0, g, t);
    AddLaws(a0, t, 0);
  }

  /** Row 0 of the inverse mix returns byte 0 of the column. */
  lemma InvRowInverts(a0: Byte, a1: Byte, a2: Byte, a3: Byte)
    ensures var d0, d1, d2, d3 := Xtime(a0), Xtime(a1), Xtime(a2), Xtime(a3);
      Sum4(Gmul(Row0(a0, a1, a2, a3, d0, d1), 14), Gmul(Row0(a1, a2, a3, a0, d1, d2), 11),
           Gmul(Row0(a2, a3, a0, a1, d2, d3), 13), Gmul(Row0(a3, a0, a1, a2, d3, d0), 9)) == a0
  {
    hide Xtime, Gmul, Add, Sum4, Row0;
    var d0, d1, d2, d3 := Xtime(a0), Xtime(a1), Xtime(a2), Xtime(a3);
    var q0, q1, q2, q3 := Xtime(d0), Xtime(d1), Xtime(d2), Xtime(d3);
    var m0, m1, m2, m3 := Row0(a0, a1, a2, a3, d0, d1), Row0(a1, a2, a3, a0, d1, d2),
      Row0(a2, a3, a0, a1, d2, d3), Row0(a3, a0, a1, a2, d3, d0);
    InvRowByPowers(m0, m1, m2, m3);
    MixedThree(a0, a1, a2, a3, d0, d1, d2, d3);
    MixedPair(a0, a1, a2, a3, d0, d1, d2);
    MixedAlternate(a0, a1, a2, a3, d0, d1, d2, d3);
    MixedAll(a0, a1, a2, a3, d0, d1, d2, d3);
    XtimeSum4(d0, a0, a1, d2);
    var t2 := Sum4(d0, d1, d2, d3);
    XtimeLinear(t2, Add(a0, a2));
    XtimeLinear(a0, a2);
    XtimeLinear(Xtime(t2), Add(d0, d2));
    XtimeLinear(d0, d2);
    XtimeSum4(a0, a1, a2, a3);
    PowersCancel(a0, d0, d1, q0, q2, Xtime(Xtime(t2)));
  }

  function Rotate(c: Col): Col {
    Col(c.a1, c.a2, c.a3, c.a0)
  }

  /** Both mixes treat the four rows alike. */
  lemma MixRotates(c: Col)
    ensures MixCol(Rotate(c)) == Rotate(MixCol(c))
    ensures InvMixCol(Rotate(c)) == Rotate(InvMixCol(c))
  {
    hide Gmul, Sum4;
    forall w: Byte, x: Byte, y: Byte, z: Byte ensures Sum4(w, x, y, z) == Sum4(z, w, x, y) {
      Sum4Rotates(w, x, y, z);
    }
  }

  lemma Sum4Rotates(w: Byte, x: Byte, y: Byte, z: Byte)
    ensures Sum4(w, x, y, z) == Sum4(z, w, x, y)
  {
    hide Add;
    AddCommutes(Add(Add(w, x), y), z);
    AddLaws(z, Add(w, x), y);
    AddLaws(z, w, x);
  }

  /** The first mixed byte, with doublings for the products by 2 and 3. */
  lemma MixFirst(c: Col)
    ensures MixCol(c).a0 == Row0(c.a0, c.a1, c.a2, c.a3, Xtime(c.a0), Xtime(c.a1))
  {
    hide Xtime, Gmul, Row0, Add;
    Gmul2(c.a0);
    Gmul3(c.a1);
    AddLaws(Xtime(c.a0), c.a1, Xtime(c.a1));
    Row0Is(c.a0, c.a1, c.a2, c.a3, Xtime(c.a0), Xtime(c.a1));
  }

  lemma Row0Is(a0: Byte, a1: Byte, a2: Byte, a3: Byte, d0: Byte, d1: Byte)
    ensures Row0(a0, a1, a2, a3, d0, d1) == Add(Add(Add(Add(d0, a1), d1), a2), a3)
  {
  }

  lemma MixFirstInverts(c: Col)
    ensures InvMixCol(MixCol(c)).a0 == c.a0
  {
    hide Xtime, Gmul, Row0, Add, Sum4;
    var m := MixCol(c);
    MixRotates(c);
    MixRotates(Rotate(c));
    MixRotates(Rotate(Rotate(c)));
    MixFirst(c);
    MixFirst(Rotate(c));
    MixFirst(Rotate(Rotate(c)));
    MixFirst(Rotate(Rotate(Rotate(c))));
    InvRowInverts(c.a0, c.a1, c.a2, c.a3);
  }

  lemma MixColInverts(c: Col)
    ensures InvMixCol(MixCol(c)) == c
  {
    hide MixCol, InvMixCol;
    MixFirstInverts(c);
    MixFirstInverts(Rotate(c));
    MixFirstInverts(Rotate(Rotate(c)));
    MixFirstInverts(Rotate(Rotate(Rotate(c))));
    MixRotates(c);
    MixRotates(Rotate(c));
    MixRotates(Rotate(Rotate(c)));
    MixRotates(MixCol(c));
    MixRotates(Rotate(MixCol(c)));
    MixRotates(Rotate(Rotate(MixCol(c))));
  }

  lemma MixColumnsInverts(s: Bytes)
    requires |s| == 16
    ensures InvMixColumnsOf(MixColumnsOf(s)) == s
  {
    hide MixCol, InvMixCol;
    var t := MixColumnsOf(s);
    forall c: nat | c < 4 ensures ColAt(t, c) == MixCol(ColAt(s, c)) {
      FromColsAt(MixCol(ColAt(s, 0)), MixCol(ColAt(s, 1)), MixCol(ColAt(s, 2)), MixCol(ColAt(s, 3)));
    }
    MixColInverts(ColAt(s, 0));
    MixColInverts(ColAt(s, 1));
    MixColInverts(ColAt(s, 2));
    MixColInverts(ColAt(s, 3));
    ColsOf(s);
  }

  lemma FromColsAt(c0: Col, c1: Col, c2: Col, c3: Col)
    ensures var t := FromCols(c0, c1, c2, c3);
      ColAt(t, 0) == c0 && ColAt(t, 1) == c1 && ColAt(t, 2) == c2 && ColAt(t, 3) == c3
  {
  }

  lemma ColsOf(s: Bytes)
    requires |s| == 16
    ensures FromCols(ColAt(s, 0), ColAt(s, 1), ColAt(s, 2), ColAt(s, 3)) == s
  {
  }

  // ---------- the cipher on values ----------

  /** aes_ctx_t: the round keys and their number less one. */
  datatype Ctx = Ctx(roundKey: seq<Bytes>, rounds: nat) {
    ghost predicate Valid() {
      && rounds >= 1 && |roundKey| == rounds + 1
      && forall r :: 0 <= r <= rounds ==> |roundKey[r]| == 16
    }
  }

  /** Rounds r.. of the cipher of FIPS 197 section 5.1, the last without MixColumns. */
  ghost function CipherFrom(ctx: Ctx, r: nat, s: Bytes): (t: Bytes)
    requires ctx.Valid() && 1 <= r <= ctx.rounds && |s| == 16
    ensures |t| == 16
    decreases ctx.rounds - r
  {
    if r == ctx.rounds then Xor(ShiftRowsOf(SubBytesOf(s)), ctx.roundKey[r])
    else CipherFrom(ctx, r + 1, Xor(MixColumnsOf(ShiftRowsOf(SubBytesOf(s))), ctx.roundKey[r]))
  }

  ghost function Cipher(ctx: Ctx, s: Bytes): (t: Bytes)
    requires ctx.Valid() && |s| == 16
    ensures |t| == 16
  {
    CipherFrom(ctx, 1, Xor(s, ctx.roundKey[0]))
  }

  /** Rounds r down to 0 of the inverse cipher of section 5.3. */
  ghost function InvCipherFrom(ctx: Ctx, r: nat, s: Bytes): (t: Bytes)
    requires ctx.Valid() && r < ctx.rounds && |s| == 16
    ensures |t| == 16
    decreases r
  {
    if r == 0 then Xor(s, ctx.roundKey[0])
    else InvCipherFrom(ctx, r - 1, InvSubBytesOf(InvShiftRowsOf(InvMixColumnsOf(Xor(s, ctx.roundKey[r])))))
  }

  ghost function InvCipher(ctx: Ctx, s: Bytes): (t: Bytes)
    requires ctx.Valid() && |s| == 16
    ensures |t| == 16
  {
    InvCipherFrom(ctx, ctx.rounds - 1, InvSubBytesOf(InvShiftRowsOf(Xor(s, ctx.roundKey[ctx.rounds]))))
  }

  lemma {:induction false} RoundsInvert(ctx: Ctx, r: nat, s: Bytes)
    requires ctx.Valid() && 1 <= r <= ctx.rounds && |s| == 16
    ensures InvCipher(ctx, CipherFrom(ctx, r, s)) == InvCipherFrom(ctx, r - 1, s)
    decreases ctx.rounds - r
  {
    hide Xor, SubBytesOf, ShiftRowsOf, MixColumnsOf, InvSubBytesOf, InvShiftRowsOf, InvMixColumnsOf;
    var u := ShiftRowsOf(SubBytesOf(s));
    SubBytesInverts(s);
    ShiftRowsInverts(SubBytesOf(s));
    if r == ctx.rounds {
      XorTwice(u, ctx.roundKey[r]);
    } else {
      var next := Xor(MixColumnsOf(u), ctx.roundKey[r]);
      RoundsInvert(ctx, r + 1, next);
      XorTwice(MixColumnsOf(u), ctx.roundKey[r]);
      MixColumnsInverts(u);
    }
  }

  /** The inverse cipher undoes the cipher, for every key schedule. */
  lemma CipherInverts(ctx: Ctx, s: Bytes)
    requires ctx.Valid() && |s| == 16
    ensures InvCipher(ctx, Cipher(ctx, s)) == s
  {
    hide Xor, InvCipher, CipherFrom;
    RoundsInvert(ctx, 1, Xor(s, ctx.roundKey[0]));
    XorTwice(s, ctx.roundKey[0]);
  }

  // ---------- the cipher byte by byte ----------

  /** The byte that comes to row r of column c when the rows are shifted, substituted. */
  function Moved(s: Bytes, r: nat, c: nat): Byte
    requires |s| == 16 && r < 4 && c < 4
  {
    Sbox(s[4 * ((c + r) % 4) + r])
  }

  /** One byte of the mixed column c: its own row twice, the next three times, the others once. */
  function Mixed(s: Bytes, r: nat, c: nat): Byte
    requires |s| == 16 && r < 4 && c < 4
  {
    Add(Add(Gmul(Moved(s, r, c), 2), Gmul(Moved(s, (r + 1) % 4, c), 3)),
        Add(Moved(s, (r + 2) % 4, c), Moved(s, (r + 3) % 4, c)))
  }

  /** The state after one round, each byte from the bytes it depends on; only the last round does
      not mix the columns. */
  function RoundBytes(s: Bytes, k: Bytes, last: bool): (t: Bytes)
    requires |s| == 16 == |k|
    ensures |t| == 16
  {
    seq(16, i requires 0 <= i < 16 => Add(if last then Moved(s, i % 4, i / 4) else Mixed(s, i % 4, i / 4), k[i]))
  }

  /** The states between the rounds: the key is added, then come 10 or 14 rounds. */
  ghost function StateAfter(ctx: Ctx, r: nat, s: Bytes): (t: Bytes)
    requires ctx.Valid() && r <= ctx.rounds && |s| == 16
    ensures |t| == 16
  {
    if r == 0 then Xor(s, ctx.roundKey[0])
    else RoundBytes(StateAfter(ctx, r - 1, s), ctx.roundKey[r], r == ctx.rounds)
  }

  lemma ShiftedAt(s: Bytes, r: nat, c: nat)
    requires |s| == 16 && r < 4 && c < 4
    ensures ShiftRowsOf(SubBytesOf(s))[4 * c + r] == Moved(s, r, c)
  {
    hide Sbox;
    ShiftRowsMeaning(SubBytesOf(s), r, c);
  }

  lemma SumPairs(a: Byte, b: Byte, c: Byte, d: Byte)
    ensures Sum4(a, b, c, d) == Add(Add(a, b), Add(c, d))
  {
    hide Add;
    AddLaws(Add(a, b), c, d);
  }

  /** Each row of a mixed column, from its own byte on. */
  lemma MixedRows(a: Col)
    ensures MixCol(a).a0 == Add(Add(Gmul(a.a0, 2), Gmul(a.a1, 3)), Add(a.a2, a.a3))
    ensures MixCol(a).a1 == Add(Add(Gmul(a.a1, 2), Gmul(a.a2, 3)), Add(a.a3, a.a0))
    ensures MixCol(a).a2 == Add(Add(Gmul(a.a2, 2), Gmul(a.a3, 3)), Add(a.a0, a.a1))
    ensures MixCol(a).a3 == Add(Add(Gmul(a.a3, 2), Gmul(a.a0, 3)), Add(a.a1, a.a2))
  {
    hide Gmul, Add, Sum4;
    SumPairs(Gmul(a.a0, 2), Gmul(a.a1, 3), a.a2, a.a3);
    SumPairs(Gmul(a.a1, 2), Gmul(a.a2, 3), a.a3, a.a0);
    Sum4Rotates(Gmul(a.a1, 2), Gmul(a.a2, 3), a.a3, a.a0);
    SumPairs(Gmul(a.a2, 2), Gmul(a.a3, 3), a.a0, a.a1);
    Sum4Rotates(Gmul(a.a2, 2), Gmul(a.a3, 3), a.a0, a.a1);
    Sum4Rotates(a.a1, Gmul(a.a2, 2), Gmul(a.a3, 3), a.a0);
    SumPairs(Gmul(a.a3, 2), Gmul(a.a0, 3), a.a1, a.a2);
    Sum4Rotates(Gmul(a.a0, 3), a.a1, a.a2, Gmul(a.a3, 2));
  }

  lemma ShiftedCol(s: Bytes, c: nat)
    requires |s| == 16 && c < 4
    ensures ColAt(ShiftRowsOf(SubBytesOf(s)), c) == Col(Moved(s, 0, c), Moved(s, 1, c), Moved(s, 2, c), Moved(s, 3, c))
  {
    hide Moved, ShiftRowsOf, SubBytesOf;
    ShiftedAt(s, 0, c);
    ShiftedAt(s, 1, c);
    ShiftedAt(s, 2, c);
    ShiftedAt(s, 3, c);
  }

  lemma MixedCol(s: Bytes, c: nat)
    requires |s| == 16 && c < 4
    ensures ColAt(MixColumnsOf(ShiftRowsOf(SubBytesOf(s))), c)
      == Col(Mixed(s, 0, c), Mixed(s, 1, c), Mixed(s, 2, c), Mixed(s, 3, c))
  {
    hide ColAt, MixColumnsOf, ShiftRowsOf, SubBytesOf, MixCol, Moved, Add, Gmul;
    ShiftedCol(s, c);
    MixColumnsAt(ShiftRowsOf(SubBytesOf(s)), c);
    MixedRows(Col(Moved(s, 0, c), Moved(s, 1, c), Moved(s, 2, c), Moved(s, 3, c)));
  }

  lemma MixedAt(s: Bytes, r: nat, c: nat)
    requires |s| == 16 && r < 4 && c < 4
    ensures MixColumnsOf(ShiftRowsOf(SubBytesOf(s)))[4 * c + r] == Mixed(s, r, c)
  {
    hide MixColumnsOf, ShiftRowsOf, SubBytesOf, Mixed;
    MixedCol(s, c);
    if r == 0 {} else if r == 1 {} else if r == 2 {} else {}
  }

  /** A round made of its steps is the round byte by byte. */
  lemma RoundIs(s: Bytes, k: Bytes)
    requires |s| == 16 == |k|
    ensures Xor(MixColumnsOf(ShiftRowsOf(SubBytesOf(s))), k) == RoundBytes(s, k, false)
    ensures Xor(ShiftRowsOf(SubBytesOf(s)), k) == RoundBytes(s, k, true)
  {
    hide MixColumnsOf, ShiftRowsOf, SubBytesOf, Mixed, Moved, Add;
    forall i | 0 <= i < 16
      ensures MixColumnsOf(ShiftRowsOf(SubBytesOf(s)))[i] == Mixed(s, i % 4, i / 4)
      ensures ShiftRowsOf(SubBytesOf(s))[i] == Moved(s, i % 4, i / 4)
    {
      assert 4 * (i / 4) + i % 4 == i;
      MixedAt(s, i % 4, i / 4);
      ShiftedAt(s, i % 4, i / 4);
    }
  }

  lemma {:induction false} RoundsFrom(ctx: Ctx, r: nat, s: Bytes)
    requires ctx.Valid() && 1 <= r <= ctx.rounds && |s| == 16
    ensures CipherFrom(ctx, r, StateAfter(ctx, r - 1, s)) == StateAfter(ctx, ctx.rounds, s)
    decreases ctx.rounds - r
  {
    hide Xor, MixColumnsOf, ShiftRowsOf, SubBytesOf, RoundBytes;
    RoundIs(StateAfter(ctx, r - 1, s), ctx.roundKey[r]);
    if r < ctx.rounds {
      RoundsFrom(ctx, r + 1, s);
    }
  }

  /** The cipher, made of the four steps, is the cipher byte by byte. */
  lemma CipherByBytes(ctx: Ctx, s: Bytes)
    requires ctx.Valid() && |s| == 16
    ensures Cipher(ctx, s) == StateAfter(ctx, ctx.rounds, s)
  {
    hide Xor, CipherFrom;
    RoundsFrom(ctx, 1, s);
    assert StateAfter(ctx, 0, s) == Xor(s, ctx.roundKey[0]);
  }

  // ---------- the key schedule ----------

  /** aes_rcon. */
  const RCON: Bytes := [0x00, 0x01, 0x02, 0x04, 0x08, 0x10, 0x20, 0x40, 0x80, 0x1B, 0x36]

  /** The round constants are the powers of x, as section 5.2 defines them. */
  lemma RconDoubles(i: nat)
    requires 1 <= i < 10
    ensures RCON[1] == 1 && RCON[i + 1] == Xtime(RCON[i])
  {
  }

  /** The word that is added to w[i - nk]. */
  function KeyTemp(i: nat, nk: nat, t: Bytes): (r: Bytes)
    requires |t| == 4 && (nk == 4 || nk == 8) && i / nk <= 10
    ensures |r| == 4
  {
    if i % nk == 0 then [Add(Sbox(t[1]), RCON[i / nk]), Sbox(t[2]), Sbox(t[3]), Sbox(t[0])]
    else if nk > 6 && i % nk == 4 then [Sbox(t[0]), Sbox(t[1]), Sbox(t[2]), Sbox(t[3])]
    else t
  }

  /** x to the n-th in GF(2^8). */
  function PowerOfX(n: nat): Byte {
    if n == 0 then 1 else Xtime(PowerOfX(n - 1))
  }

  lemma {:induction false} RconIs(i: nat)
    requires 1 <= i <= 10
    ensures RCON[i] == PowerOfX(i - 1)
  {
    hide Xtime;
    if i > 1 {
      RconDoubles(i - 1);
      RconIs(i - 1);
    } else {
      RconDoubles(1);
    }
  }

  /** The key schedule byte by byte: at the first word of each key length the bytes are rotated and
      substituted and a power of x is added to the first; for the long key the word in the middle
      is substituted too; every other word is taken as it is. */
  lemma KeyTempBytes(i: nat, nk: nat, t: Bytes, j: nat)
    requires |t| == 4 && j < 4 && (nk == 4 || nk == 8) && nk <= i && i / nk <= 10
    ensures i % nk == 0 ==>
      KeyTemp(i, nk, t)[j] == Add(Sbox(t[(j + 1) % 4]), if j == 0 then PowerOfX(i / nk - 1) else 0)
    ensures nk == 8 && i % 8 == 4 ==> KeyTemp(i, nk, t)[j] == Sbox(t[j])
    ensures i % nk != 0 && !(nk == 8 && i % 8 == 4) ==> KeyTemp(i, nk, t)[j] == t[j]
  {
    hide Sbox, Add, PowerOfX;
    if i % nk == 0 {
      assert i / nk >= 1;
      RconIs(i / nk);
      AddLaws(Sbox(t[(j + 1) % 4]), 0, 0);
      if j == 0 {} else if j == 1 {} else if j == 2 {} else {}
    }
  }

  /** The key expansion recurrence of section 5.2, for the first |w| words. */
  ghost predicate Expanded(key: Bytes, nk: nat, w: seq<Bytes>)
    requires (nk == 4 || nk == 8) && |key| == 4 * nk && |w| <= 4 * (nk + 7)
  {
    && (forall i :: 0 <= i < |w| ==> |w[i]| == 4)
    && (forall i :: 0 <= i < nk && i < |w| ==> w[i] == key[4 * i..4 * i + 4])
    && (forall i :: nk <= i < |w| ==> w[i] == Xor(w[i - nk], KeyTemp(i, nk, w[i - 1])))
  }

  lemma ExpandedKeyWord(key: Bytes, nk: nat, w: seq<Bytes>)
    requires (nk == 4 || nk == 8) && |key| == 4 * nk && |w| < nk && Expanded(key, nk, w)
    ensures Expanded(key, nk, w + [key[4 * |w|..4 * |w| + 4]])
  {
    hide Xor, KeyTemp;
  }

  lemma ExpandedNextWord(key: Bytes, nk: nat, w: seq<Bytes>)
    requires (nk == 4 || nk == 8) && |key| == 4 * nk && nk <= |w| < 4 * (nk + 7) && Expanded(key, nk, w)
    ensures |w[|w| - nk]| == 4 == |w[|w| - 1]| && |w| / nk <= 10
    ensures Expanded(key, nk, w + [Xor(w[|w| - nk], KeyTemp(|w|, nk, w[|w| - 1]))])
  {
    hide Xor, KeyTemp;
    var x := Xor(w[|w| - nk], KeyTemp(|w|, nk, w[|w| - 1]));
    var w2 := w + [x];
    assert forall i :: 0 <= i < |w| ==> w2[i] == w[i];
  }

  /** The round key of round r: four consecutive words. */
  function RoundKeyOf(w: seq<Bytes>, r: nat): (k: Bytes)
    requires 4 * r + 4 <= |w| && forall i :: 0 <= i < |w| ==> |w[i]| == 4
    ensures |k| == 16
  {
    w[4 * r] + w[4 * r + 1] + w[4 * r + 2] + w[4 * r + 3]
  }

  /** kernel/aes.h aes_set_key, for 16- and 32-byte keys. */
  method SetKey(key: Bytes) returns (ctx: Ctx, ghost w: seq<Bytes>)
    requires |key| == 16 || |key| == 32
    ensures ctx.Valid() && ctx.rounds == (if |key| == 16 then 10 else 14)
    ensures |w| == 4 * (ctx.rounds + 1) && Expanded(key, |key| / 4, w)
    ensures forall r :: 0 <= r <= ctx.rounds ==> ctx.roundKey[r] == RoundKeyOf(w, r)
  {
    hide Xor, KeyTemp, RoundKeyOf;
    var nk := |key| / 4;
    var rounds := nk + 6;
    var words := ExpandKey(key, nk);
    w := words;
    var rk: seq<Bytes> := [];
    for r := 0 to rounds + 1
      invariant |rk| == r
      invariant forall k :: 0 <= k < r ==> rk[k] == RoundKeyOf(words, k)
    {
      rk := rk + [RoundKeyOf(words, r)];
    }
    ctx := Ctx(rk, rounds);
  }

  /** The word loop of aes_set_key. */
  method ExpandKey(key: Bytes, nk: nat) returns (w: seq<Bytes>)
    requires (nk == 4 || nk == 8) && |key| == 4 * nk
    ensures |w| == 4 * (nk + 7) && Expanded(key, nk, w)
  {
    hide *;
    w := [];
    ExpandedNothing(key, nk);
    for i := 0 to nk
      invariant |w| == i && Expanded(key, nk, w)
    {
      ExpandedKeyWord(key, nk, w);
      w := w + [key[4 * i..4 * i + 4]];
    }
    for i := nk to 4 * (nk + 7)
      invariant |w| == i && Expanded(key, nk, w)
    {
      ExpandedNextWord(key, nk, w);
      w := w + [Xor(w[i - nk], KeyTemp(i, nk, w[i - 1]))];
    }
  }

  lemma ExpandedNothing(key: Bytes, nk: nat)
    requires (nk == 4 || nk == 8) && |key| == 4 * nk
    ensures Expanded(key, nk, [])
  {
  }

  // ---------- the steps in place ----------

  /** s with the 16 bytes at off replaced. */
  function Patch(s: Bytes, off: nat, b: Bytes): (r: Bytes)
    requires off + 16 <= |s| && |b| == 16
    ensures |r| == |s| && r[off..off + 16] == b
  {
    s[..off] + b + s[off + 16..]
  }

  lemma PatchTwice(s: Bytes, off: nat, b: Bytes, c: Bytes)
    requires off + 16 <= |s| && |b| == 16 && |c| == 16
    ensures Patch(Patch(s, off, b), off, c) == Patch(s, off, c)
  {
  }

  /** The first i bytes of the block at off are already those of target. */
  ghost predicate Partly(cur: Bytes, s: Bytes, off: nat, target: Bytes, i: nat) {
    && off + 16 <= |s| && |target| == 16 && i <= 16
    && cur == s[..off] + target[..i] + s[off + i..]
  }

  lemma PartlyStep(cur: Bytes, s: Bytes, off: nat, target: Bytes, i: nat)
    requires Partly(cur, s, off, target, i) && i < 16
    ensures off + i < |cur| && cur[off + i] == s[off + i]
    ensures Partly(cur[off + i := target[i]], s, off, target, i + 1)
  {
    assert target[..i + 1] == target[..i] + [target[i]];
    assert s[off + i..] == [s[off + i]] + s[off + i + 1..];
  }

  lemma PartlyEnds(cur: Bytes, s: Bytes, off: nat, target: Bytes)
    requires off + 16 <= |s| && |target| == 16
    ensures Partly(s, s, off, target, 0)
    ensures Partly(cur, s, off, target, 16) ==> cur == Patch(s, off, target)
  {
    assert s == s[..off] + target[..0] + s[off..];
    assert target[..16] == target;
  }

  /** kernel/aes.h aes_add_round_key. */
  method AddRoundKey(a: array<Byte>, off: nat, rk: Bytes)
    requires off + 16 <= a.Length && |rk| == 16
    modifies a
    ensures a[..] == Patch(old(a[..]), off, Xor(old(a[off..off + 16]), rk))
  {
    hide Add, Patch, Partly;
    ghost var s, target := a[..], Xor(a[off..off + 16], rk);
    PartlyEnds(s, s, off, target);
    for i := 0 to 16
      invariant Partly(a[..], s, off, target, i)
    {
      PartlyStep(a[..], s, off, target, i);
      ghost var before := a[..];
      a[off + i] := Add(a[off + i], rk[i]);
      assert a[..] == before[off + i := target[i]];
    }
    PartlyEnds(a[..], s, off, target);
  }

  /** kernel/aes.h aes_sub_bytes. */
  method SubBytes(a: array<Byte>, off: nat)
    requires off + 16 <= a.Length
    modifies a
    ensures a[..] == Patch(old(a[..]), off, SubBytesOf(old(a[off..off + 16])))
  {
    hide Sbox, Patch, Partly;
    ghost var s, target := a[..], SubBytesOf(a[off..off + 16]);
    PartlyEnds(s, s, off, target);
    for i := 0 to 16
      invariant Partly(a[..], s, off, target, i)
    {
      PartlyStep(a[..], s, off, target, i);
      ghost var before := a[..];
      a[off + i] := Sbox(a[off + i]);
      assert a[..] == before[off + i := target[i]];
    }
    PartlyEnds(a[..], s, off, target);
  }

  /** kernel/aes.h aes_inv_sub_bytes. */
  method InvSubBytes(a: array<Byte>, off: nat)
    requires off + 16 <= a.Length
    modifies a
    ensures a[..] == Patch(old(a[..]), off, InvSubBytesOf(old(a[off..off + 16])))
  {
    hide InvSbox, Patch, Partly;
    ghost var s, target := a[..], InvSubBytesOf(a[off..off + 16]);
    PartlyEnds(s, s, off, target);
    for i := 0 to 16
      invariant Partly(a[..], s, off, target, i)
    {
      PartlyStep(a[..], s, off, target, i);
      ghost var before := a[..];
      a[off + i] := InvSbox(a[off + i]);
      assert a[..] == before[off + i := target[i]];
    }
    PartlyEnds(a[..], s, off, target);
  }

  function Rotate4(b: Bytes, i: nat, j: nat, k: nat, l: nat): (r: Bytes)
    requires i < |b| && j < |b| && k < |b| && l < |b|
    ensures |r| == |b|
  {
    b[i := b[j]][j := b[k]][k := b[l]][l := b[i]]
  }

  function Swap2(b: Bytes, i: nat, j: nat): (r: Bytes)
    requires i < |b| && j < |b|
    ensures |r| == |b|
  {
    b[i := b[j]][j := b[i]]
  }

  /** One row rotated by one column through a temporary. */
  method RotateRow(a: array<Byte>, off: nat, i: nat, j: nat, k: nat, l: nat)
    requires off + 16 <= a.Length && i < 16 && j < 16 && k < 16 && l < 16
    requires i != j && i != k && i != l && j != k && j != l && k != l
    modifies a
    ensures a[..] == Patch(old(a[..]), off, Rotate4(old(a[off..off + 16]), i, j, k, l))
  {
    ghost var s := a[..];
    var t := a[off + i];
    a[off + i] := a[off + j];
    a[off + j] := a[off + k];
    a[off + k] := a[off + l];
    a[off + l] := t;
    assert a[..] == s[off + i := s[off + j]][off + j := s[off + k]][off + k := s[off + l]][off + l := s[off + i]];
    PatchUpdates(s, off, i, j, k, l);
  }

  lemma PatchUpdates(s: Bytes, off: nat, i: nat, j: nat, k: nat, l: nat)
    requires off + 16 <= |s| && i < 16 && j < 16 && k < 16 && l < 16
    ensures s[off + i := s[off + j]][off + j := s[off + k]][off + k := s[off + l]][off + l := s[off + i]]
      == Patch(s, off, Rotate4(s[off..off + 16], i, j, k, l))
  {
  }

  /** Two cells of a row exchanged through a temporary. */
  method SwapCells(a: array<Byte>, off: nat, i: nat, j: nat)
    requires off + 16 <= a.Length && i < 16 && j < 16
    modifies a
    ensures a[..] == Patch(old(a[..]), off, Swap2(old(a[off..off + 16]), i, j))
  {
    ghost var s := a[..];
    var t := a[off + i];
    a[off + i] := a[off + j];
    a[off + j] := t;
    assert a[..] == s[off + i := s[off + j]][off + j := s[off + i]];
    PatchSwaps(s, off, i, j);
  }

  lemma PatchSwaps(s: Bytes, off: nat, i: nat, j: nat)
    requires off + 16 <= |s| && i < 16 && j < 16
    ensures s[off + i := s[off + j]][off + j := s[off + i]] == Patch(s, off, Swap2(s[off..off + 16], i, j))
  {
  }

  lemma ShiftByRotations(b: Bytes)
    requires |b| == 16
    ensures Rotate4(Swap2(Swap2(Rotate4(b, 1, 5, 9, 13), 2, 10), 6, 14), 15, 11, 7, 3) == ShiftRowsOf(b)
    ensures Rotate4(Swap2(Swap2(Rotate4(b, 13, 9, 5, 1), 2, 10), 6, 14), 3, 7, 11, 15) == InvShiftRowsOf(b)
  {
  }

  /** kernel/aes.h aes_shift_rows: three rows rotated through one temporary. */
  method ShiftRows(a: array<Byte>, off: nat)
    requires off + 16 <= a.Length
    modifies a
    ensures a[..] == Patch(old(a[..]), off, ShiftRowsOf(old(a[off..off + 16])))
  {
    hide Patch, Rotate4, Swap2, ShiftRowsOf;
    ghost var s, b := a[..], a[off..off + 16];
    RotateRow(a, off, 1, 5, 9, 13);
    SwapCells(a, off, 2, 10);
    SwapCells(a, off, 6, 14);
    RotateRow(a, off, 15, 11, 7, 3);
    ghost var b1 := Rotate4(b, 1, 5, 9, 13);
    ghost var b2 := Swap2(b1, 2, 10);
    ghost var b3 := Swap2(b2, 6, 14);
    ghost var b4 := Rotate4(b3, 15, 11, 7, 3);
    PatchTwice(s, off, b1, b2);
    PatchTwice(s, off, b2, b3);
    PatchTwice(s, off, b3, b4);
    ShiftByRotations(b);
  }

  /** kernel/aes.h aes_inv_shift_rows. */
  method InvShiftRows(a: array<Byte>, off: nat)
    requires off + 16 <= a.Length
    modifies a
    ensures a[..] == Patch(old(a[..]), off, InvShiftRowsOf(old(a[off..off + 16])))
  {
    hide Patch, Rotate4, Swap2, InvShiftRowsOf;
    ghost var s, b := a[..], a[off..off + 16];
    RotateRow(a, off, 13, 9, 5, 1);
    SwapCells(a, off, 2, 10);
    SwapCells(a, off, 6, 14);
    RotateRow(a, off, 3, 7, 11, 15);
    ghost var b1 := Rotate4(b, 13, 9, 5, 1);
    ghost var b2 := Swap2(b1, 2, 10);
    ghost var b3 := Swap2(b2, 6, 14);
    ghost var b4 := Rotate4(b3, 3, 7, 11, 15);
    PatchTwice(s, off, b1, b2);
    PatchTwice(s, off, b2, b3);
    PatchTwice(s, off, b3, b4);
    ShiftByRotations(b);
  }

  /** One column of aes_mix_columns, from its four old bytes. */
  method MixOne(a0: Byte, a1: Byte, a2: Byte, a3: Byte) returns (m: Col)
    ensures m == MixCol(Col(a0, a1, a2, a3))
  {
    hide Gmul, Sum4;
    var x := AesMul(a0, 2);
    var y := AesMul(a1, 3);
    var b0 := Sum4(x, y, a2, a3);
    x := AesMul(a1, 2);
    y := AesMul(a2, 3);
    var b1 := Sum4(a0, x, y, a3);
    x := AesMul(a2, 2);
    y := AesMul(a3, 3);
    var b2 := Sum4(a0, a1, x, y);
    x := AesMul(a0, 3);
    y := AesMul(a3, 2);
    var b3 := Sum4(x, a1, a2, y);
    m := Col(b0, b1, b2, b3);
  }

  /** One column of aes_inv_mix_columns. */
  method InvMixOne(a0: Byte, a1: Byte, a2: Byte, a3: Byte) returns (m: Col)
    ensures m == InvMixCol(Col(a0, a1, a2, a3))
  {
    hide Gmul, Sum4;
    var p := AesMul(a0, 14); var q := AesMul(a1, 11); var r := AesMul(a2, 13); var s := AesMul(a3, 9);
    var b0 := Sum4(p, q, r, s);
    p := AesMul(a0, 9); q := AesMul(a1, 14); r := AesMul(a2, 11); s := AesMul(a3, 13);
    var b1 := Sum4(p, q, r, s);
    p := AesMul(a0, 13); q := AesMul(a1, 9); r := AesMul(a2, 14); s := AesMul(a3, 11);
    var b2 := Sum4(p, q, r, s);
    p := AesMul(a0, 11); q := AesMul(a1, 13); r := AesMul(a2, 9); s := AesMul(a3, 14);
    var b3 := Sum4(p, q, r, s);
    m := Col(b0, b1, b2, b3);
  }

  /** Storing the four bytes of a column. */
  method StoreCol(a: array<Byte>, off: nat, c: nat, m: Col, ghost s: Bytes, ghost target: Bytes)
    requires c < 4 && a.Length == |s| && Partly(a[..], s, off, target, 4 * c)
    requires ColAt(target, c) == m
    modifies a
    ensures Partly(a[..], s, off, target, 4 * c + 4)
  {
    var i := off + 4 * c;
    hide Partly;
    PartlyStep(a[..], s, off, target, 4 * c);
    ghost var before := a[..];
    a[i] := m.a0;
    assert a[..] == before[i := target[4 * c]];
    PartlyStep(a[..], s, off, target, 4 * c + 1);
    before := a[..];
    a[i + 1] := m.a1;
    assert a[..] == before[i + 1 := target[4 * c + 1]];
    PartlyStep(a[..], s, off, target, 4 * c + 2);
    before := a[..];
    a[i + 2] := m.a2;
    assert a[..] == before[i + 2 := target[4 * c + 2]];
    PartlyStep(a[..], s, off, target, 4 * c + 3);
    before := a[..];
    a[i + 3] := m.a3;
    assert a[..] == before[i + 3 := target[4 * c + 3]];
  }

  /** The bytes of a column that has not been rewritten yet. */
  lemma PartlyRest(cur: Bytes, s: Bytes, off: nat, target: Bytes, c: nat)
    requires c < 4 && Partly(cur, s, off, target, 4 * c)
    ensures off + 16 <= |s| == |cur|
    ensures ColAt(s[off..off + 16], c)
      == Col(cur[off + 4 * c], cur[off + 4 * c + 1], cur[off + 4 * c + 2], cur[off + 4 * c + 3])
  {
  }

  /** Column c of a state built from columns. */
  lemma MixColumnsAt(s: Bytes, c: nat)
    requires |s| == 16 && c < 4
    ensures ColAt(MixColumnsOf(s), c) == MixCol(ColAt(s, c))
    ensures ColAt(InvMixColumnsOf(s), c) == InvMixCol(ColAt(s, c))
  {
    hide MixCol, InvMixCol, FromCols;
    FromColsAt(MixCol(ColAt(s, 0)), MixCol(ColAt(s, 1)), MixCol(ColAt(s, 2)), MixCol(ColAt(s, 3)));
    FromColsAt(InvMixCol(ColAt(s, 0)), InvMixCol(ColAt(s, 1)), InvMixCol(ColAt(s, 2)), InvMixCol(ColAt(s, 3)));
  }

  /** Column c of the pass, from its four old bytes. */
  method MixColumnAt(a: array<Byte>, off: nat, c: nat, ghost s: Bytes, ghost target: Bytes)
    requires c < 4 && off + 16 <= |s| == a.Length && target == MixColumnsOf(s[off..off + 16])
    requires Partly(a[..], s, off, target, 4 * c)
    modifies a
    ensures Partly(a[..], s, off, target, 4 * c + 4)
  {
    hide *;
    PartlyRest(a[..], s, off, target, c);
    MixColumnsAt(s[off..off + 16], c);
    var m := MixOne(a[off + 4 * c], a[off + 4 * c + 1], a[off + 4 * c + 2], a[off + 4 * c + 3]);
    StoreCol(a, off, c, m, s, target);
  }

  /** kernel/aes.h aes_mix_columns. */
  method MixColumns(a: array<Byte>, off: nat)
    requires off + 16 <= a.Length
    modifies a
    ensures a[..] == Patch(old(a[..]), off, MixColumnsOf(old(a[off..off + 16])))
  {
    hide *;
    ghost var s := a[..];
    SliceOf(a, off);
    ghost var target := MixColumnsOf(s[off..off + 16]);
    PartlyEnds(s, s, off, target);
    for c := 0 to 4
      invariant Partly(a[..], s, off, target, 4 * c)
    {
      MixColumnAt(a, off, c, s, target);
    }
    PartlyEnds(a[..], s, off, target);
  }

  /** Column c of the pass, from its four old bytes. */
  method InvMixColumnAt(a: array<Byte>, off: nat, c: nat, ghost s: Bytes, ghost target: Bytes)
    requires c < 4 && off + 16 <= |s| == a.Length && target == InvMixColumnsOf(s[off..off + 16])
    requires Partly(a[..], s, off, target, 4 * c)
    modifies a
    ensures Partly(a[..], s, off, target, 4 * c + 4)
  {
    hide *;
    PartlyRest(a[..], s, off, target, c);
    MixColumnsAt(s[off..off + 16], c);
    var m := InvMixOne(a[off + 4 * c], a[off + 4 * c + 1], a[off + 4 * c + 2], a[off + 4 * c + 3]);
    StoreCol(a, off, c, m, s, target);
  }

  /** kernel/aes.h aes_inv_mix_columns. */
  method InvMixColumns(a: array<Byte>, off: nat)
    requires off + 16 <= a.Length
    modifies a
    ensures a[..] == Patch(old(a[..]), off, InvMixColumnsOf(old(a[off..off + 16])))
  {
    hide *;
    ghost var s := a[..];
    SliceOf(a, off);
    ghost var target := InvMixColumnsOf(s[off..off + 16]);
    PartlyEnds(s, s, off, target);
    for c := 0 to 4
      invariant Partly(a[..], s, off, target, 4 * c)
    {
      InvMixColumnAt(a, off, c, s, target);
    }
    PartlyEnds(a[..], s, off, target);
  }

  // ---------- blocks and CBC, in place ----------

  /** kernel/aes.h aes128_encrypt_block, on the block at off. */
  method EncryptBlock(ctx: Ctx, a: array<Byte>, off: nat)
    requires ctx.Valid() && off + 16 <= a.Length
    modifies a
    ensures a[..] == Patch(old(a[..]), off, Cipher(ctx, old(a[off..off + 16])))
  {
    hide Patch, Xor, SubBytesOf, ShiftRowsOf, MixColumnsOf;
    ghost var s, blk := a[..], a[off..off + 16];
    AddRoundKey(a, off, ctx.roundKey[0]);
    ghost var st := Xor(blk, ctx.roundKey[0]);
    var r := 1;
    while r < ctx.rounds
      invariant 1 <= r <= ctx.rounds && |st| == 16
      invariant a[..] == Patch(s, off, st)
      invariant CipherFrom(ctx, r, st) == Cipher(ctx, blk)
    {
      ghost var s1 := SubBytesOf(st);
      ghost var s2 := ShiftRowsOf(s1);
      ghost var s3 := MixColumnsOf(s2);
      SubBytes(a, off);
      ShiftRows(a, off);
      MixColumns(a, off);
      AddRoundKey(a, off, ctx.roundKey[r]);
      PatchTwice(s, off, st, s1);
      PatchTwice(s, off, s1, s2);
      PatchTwice(s, off, s2, s3);
      PatchTwice(s, off, s3, Xor(s3, ctx.roundKey[r]));
      st := Xor(s3, ctx.roundKey[r]);
      r := r + 1;
    }
    ghost var s1 := SubBytesOf(st);
    ghost var s2 := ShiftRowsOf(s1);
    SubBytes(a, off);
    ShiftRows(a, off);
    AddRoundKey(a, off, ctx.roundKey[ctx.rounds]);
    PatchTwice(s, off, st, s1);
    PatchTwice(s, off, s1, s2);
    PatchTwice(s, off, s2, Xor(s2, ctx.roundKey[ctx.rounds]));
  }

  /** kernel/aes.h aes128_decrypt_block, on the block at off. */
  method DecryptBlock(ctx: Ctx, a: array<Byte>, off: nat)
    requires ctx.Valid() && off + 16 <= a.Length
    modifies a
    ensures a[..] == Patch(old(a[..]), off, InvCipher(ctx, old(a[off..off + 16])))
  {
    hide Patch, Xor, InvSubBytesOf, InvShiftRowsOf, InvMixColumnsOf;
    ghost var s, blk := a[..], a[off..off + 16];
    AddRoundKey(a, off, ctx.roundKey[ctx.rounds]);
    ghost var s1 := Xor(blk, ctx.roundKey[ctx.rounds]);
    InvShiftRows(a, off);
    ghost var s2 := InvShiftRowsOf(s1);
    InvSubBytes(a, off);
    ghost var st := InvSubBytesOf(s2);
    PatchTwice(s, off, s1, s2);
    PatchTwice(s, off, s2, st);
    var r := ctx.rounds - 1;
    while r >= 1
      invariant 0 <= r < ctx.rounds && |st| == 16
      invariant a[..] == Patch(s, off, st)
      invariant InvCipherFrom(ctx, r, st) == InvCipher(ctx, blk)
    {
      s1 := Xor(st, ctx.roundKey[r]);
      s2 := InvMixColumnsOf(s1);
      ghost var s3 := InvShiftRowsOf(s2);
      AddRoundKey(a, off, ctx.roundKey[r]);
      InvMixColumns(a, off);
      InvShiftRows(a, off);
      InvSubBytes(a, off);
      PatchTwice(s, off, st, s1);
      PatchTwice(s, off, s1, s2);
      PatchTwice(s, off, s2, s3);
      PatchTwice(s, off, s3, InvSubBytesOf(s3));
      st := InvSubBytesOf(s3);
      r := r - 1;
    }
    AddRoundKey(a, off, ctx.roundKey[0]);
    PatchTwice(s, off, st, Xor(st, ctx.roundKey[0]));
  }

  /** The CBC chain over the whole blocks of s, from the previous ciphertext block. */
  ghost function CbcChain(ctx: Ctx, prev: Bytes, s: Bytes): (t: Bytes)
    requires ctx.Valid() && |prev| == 16
    ensures |t| == |s|
    decreases |s|
  {
    if |s| < 16 then s
    else
      hide Cipher, Xor;
      var c := Cipher(ctx, Xor(s[..16], prev));
      c + CbcChain(ctx, c, s[16..])
  }

  ghost function CbcUnchain(ctx: Ctx, prev: Bytes, s: Bytes): (t: Bytes)
    requires ctx.Valid() && |prev| == 16
    ensures |t| == |s|
    decreases |s|
  {
    if |s| < 16 then s else hide InvCipher, Xor; Xor(InvCipher(ctx, s[..16]), prev) + CbcUnchain(ctx, s[..16], s[16..])
  }

  /** The chain block by block: each plaintext block is added to the ciphertext block before it, the
      first one to the IV, and enciphered. */
  lemma {:induction false} CbcBlocks(ctx: Ctx, iv: Bytes, s: Bytes, j: nat)
    requires ctx.Valid() && |iv| == 16
    ensures 16 * j + 16 <= |s| ==>
      var c := CbcChain(ctx, iv, s);
      c[16 * j..16 * j + 16] == Cipher(ctx, Xor(s[16 * j..16 * j + 16], if j == 0 then iv else c[16 * j - 16..16 * j]))
    decreases |s|
  {
    hide Xor, Cipher;
    if |s| >= 16 {
      var c := Cipher(ctx, Xor(s[..16], iv));
      var t := CbcChain(ctx, iv, s);
      assert t[0..16] == c && t[16..] == CbcChain(ctx, c, s[16..]);
      if j > 0 && 16 * j + 16 <= |s| {
        CbcBlocks(ctx, c, s[16..], j - 1);
        var u, n := s[16..], 16 * j - 16;
        assert u[n..n + 16] == s[16 * j..16 * j + 16] && t[16..][n..n + 16] == t[16 * j..16 * j + 16];
        if j > 1 { assert t[16..][n - 16..n] == t[16 * j - 16..16 * j]; }
      }
    }
  }

  /** CBC decryption undoes CBC encryption. */
  lemma {:induction false} CbcInverts(ctx: Ctx, prev: Bytes, s: Bytes)
    requires ctx.Valid() && |prev| == 16
    ensures CbcUnchain(ctx, prev, CbcChain(ctx, prev, s)) == s
    decreases |s|
  {
    hide Xor, Cipher, InvCipher;
    if |s| >= 16 {
      var x := Xor(s[..16], prev);
      var c := Cipher(ctx, x);
      var t := CbcChain(ctx, prev, s);
      assert t[..16] == c && t[16..] == CbcChain(ctx, c, s[16..]);
      CipherInverts(ctx, x);
      XorTwice(s[..16], prev);
      CbcInverts(ctx, c, s[16..]);
    }
  }

  /** The first off bytes are done, the rest is still to be chained from prev. */
  ghost predicate CbcDone(ctx: Ctx, a: Bytes, off: nat, prev: Bytes, total: Bytes, forward: bool)
    requires ctx.Valid() && |prev| == 16 && off <= |a|
  {
    total == a[..off] + if forward then CbcChain(ctx, prev, a[off..]) else CbcUnchain(ctx, prev, a[off..])
  }

  lemma CbcForward(ctx: Ctx, a: Bytes, off: nat, prev: Bytes, total: Bytes, c: Bytes)
    requires ctx.Valid() && |prev| == 16 && off + 16 <= |a|
    requires c == Cipher(ctx, Xor(a[off..off + 16], prev))
    requires CbcDone(ctx, a, off, prev, total, true)
    ensures CbcDone(ctx, Patch(a, off, c), off + 16, c, total, true)
  {
    hide Xor, Cipher;
    assert a[off..][..16] == a[off..off + 16] && a[off..][16..] == a[off + 16..];
    assert Patch(a, off, c)[..off + 16] == a[..off] + c && Patch(a, off, c)[off + 16..] == a[off + 16..];
    var rest := CbcChain(ctx, c, a[off + 16..]);
    assert (a[..off] + c) + rest == a[..off] + (c + rest);
  }

  lemma CbcBackward(ctx: Ctx, a: Bytes, off: nat, prev: Bytes, total: Bytes, p: Bytes)
    requires ctx.Valid() && |prev| == 16 && off + 16 <= |a|
    requires p == Xor(InvCipher(ctx, a[off..off + 16]), prev)
    requires CbcDone(ctx, a, off, prev, total, false)
    ensures CbcDone(ctx, Patch(a, off, p), off + 16, a[off..off + 16], total, false)
  {
    hide Xor, InvCipher;
    assert a[off..][..16] == a[off..off + 16] && a[off..][16..] == a[off + 16..];
    assert Patch(a, off, p)[..off + 16] == a[..off] + p && Patch(a, off, p)[off + 16..] == a[off + 16..];
    var rest := CbcUnchain(ctx, a[off..off + 16], a[off + 16..]);
    assert (a[..off] + p) + rest == a[..off] + (p + rest);
  }

  /** One block of CBC encryption: the chained block goes through the cipher in place. */
  method EncryptNext(ctx: Ctx, data: array<Byte>, off: nat, prev: Bytes, ghost total: Bytes) returns (next: Bytes)
    requires ctx.Valid() && |prev| == 16 && off + 16 <= data.Length
    requires CbcDone(ctx, data[..], off, prev, total, true)
    modifies data
    ensures |next| == 16 && CbcDone(ctx, data[..], off + 16, next, total, true)
  {
    hide *;
    ghost var s, blk := data[..], data[off..off + 16];
    SliceOf(data, off);
    ghost var c := Cipher(ctx, Xor(blk, prev));
    CbcForward(ctx, s, off, prev, total, c);
    AddRoundKey(data, off, prev);
    PatchTwice(s, off, Xor(blk, prev), c);
    SliceOf(data, off);
    EncryptBlock(ctx, data, off);
    SliceOf(data, off);
    next := data[off..off + 16];
  }

  /** One block of CBC decryption: the ciphertext is kept for the next block. */
  method DecryptNext(ctx: Ctx, data: array<Byte>, off: nat, prev: Bytes, ghost total: Bytes) returns (next: Bytes)
    requires ctx.Valid() && |prev| == 16 && off + 16 <= data.Length
    requires CbcDone(ctx, data[..], off, prev, total, false)
    modifies data
    ensures |next| == 16 && CbcDone(ctx, data[..], off + 16, next, total, false)
  {
    hide *;
    ghost var s, blk := data[..], data[off..off + 16];
    SliceOf(data, off);
    ghost var d := InvCipher(ctx, blk);
    CbcBackward(ctx, s, off, prev, total, Xor(d, prev));
    PatchTwice(s, off, d, Xor(d, prev));
    next := data[off..off + 16];
    DecryptBlock(ctx, data, off);
    SliceOf(data, off);
    AddRoundKey(data, off, prev);
  }

  lemma SliceOf(a: array<Byte>, off: nat)
    requires off + 16 <= a.Length
    ensures a[off..off + 16] == a[..][off..off + 16]
  {
  }

  /** kernel/aes.h aes128_cbc_encrypt, in place. */
  method CbcEncrypt(ctx: Ctx, iv: Bytes, data: array<Byte>)
    requires ctx.Valid() && |iv| == 16 && data.Length % 16 == 0
    modifies data
    ensures data[..] == CbcChain(ctx, iv, old(data[..]))
  {
    hide *;
    var prev := iv;
    ghost var total := CbcChain(ctx, iv, data[..]);
    CbcStart(ctx, data[..], iv);
    var off := 0;
    while off < data.Length
      invariant 0 <= off <= data.Length && off % 16 == 0 && |prev| == 16
      invariant CbcDone(ctx, data[..], off, prev, total, true)
    {
      prev := EncryptNext(ctx, data, off, prev, total);
      off := off + 16;
    }
    CbcFinish(ctx, data[..], prev, total, true);
  }

  /** kernel/aes.h aes128_cbc_decrypt, in place. */
  method CbcDecrypt(ctx: Ctx, iv: Bytes, data: array<Byte>)
    requires ctx.Valid() && |iv| == 16 && data.Length % 16 == 0
    modifies data
    ensures data[..] == CbcUnchain(ctx, iv, old(data[..]))
  {
    hide *;
    var prev := iv;
    ghost var total := CbcUnchain(ctx, iv, data[..]);
    CbcStart(ctx, data[..], iv);
    var off := 0;
    while off < data.Length
      invariant 0 <= off <= data.Length && off % 16 == 0 && |prev| == 16
      invariant CbcDone(ctx, data[..], off, prev, total, false)
    {
      prev := DecryptNext(ctx, data, off, prev, total);
      off := off + 16;
    }
    CbcFinish(ctx, data[..], prev, total, false);
  }

  lemma CbcStart(ctx: Ctx, a: Bytes, prev: Bytes)
    requires ctx.Valid() && |prev| == 16
    ensures CbcDone(ctx, a, 0, prev, CbcChain(ctx, prev, a), true)
    ensures CbcDone(ctx, a, 0, prev, CbcUnchain(ctx, prev, a), false)
  {
    assert a[..0] == [] && a[0..] == a;
  }

  lemma CbcFinish(ctx: Ctx, a: Bytes, prev: Bytes, total: Bytes, forward: bool)
    requires ctx.Valid() && |prev| == 16 && CbcDone(ctx, a, |a|, prev, total, forward)
    ensures a == total
  {
    assert a[..|a|] == a && a[|a|..] == [];
  }
}
