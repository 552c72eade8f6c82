/** kernel/gcm.h:155-261: counter mode, the tag, and authenticated encryption with a
    96-bit IV (NIST SP 800-38D section 7), in place over the caller's buffer. */
module Gcm {
  import Aes
  import opened Blocks
  import opened Ghash

  // ---------- the counter ----------

  /** counter[i]++ on a byte. */
  function Next(b: Byte): Byte {
    b + 1
  }

  /** inc_32 with the carry chain of the code, from byte i down to byte 12. */
  function IncFrom(s: Bytes, i: nat): (r: Bytes)
    requires |s| == 16 && 11 <= i < 16
    ensures |r| == 16
    decreases i
  {
    if i < 12 then s
    else
      var t := s[i := Next(s[i])];
      if t[i] != 0 then t else IncFrom(t, i - 1)
  }

  lemma IncCases(s: Bytes)
    requires |s| == 16
    ensures IncFrom(s, 15)
      == if Next(s[15]) != 0 then s[15 := Next(s[15])]
         else if Next(s[14]) != 0 then s[15 := 0][14 := Next(s[14])]
         else if Next(s[13]) != 0 then s[15 := 0][14 := 0][13 := Next(s[13])]
         else s[15 := 0][14 := 0][13 := 0][12 := Next(s[12])]
  {
    hide Next;
    var t0 := s[15 := Next(s[15])];
    if t0[15] == 0 {
      var t1 := t0[14 := Next(t0[14])];
      assert IncFrom(s, 15) == IncFrom(t0, 14);
      if t1[14] == 0 {
        var t2 := t1[13 := Next(t1[13])];
        assert IncFrom(t0, 14) == IncFrom(t1, 13);
        if t2[13] == 0 {
          assert IncFrom(t1, 13) == IncFrom(t2, 12);
          var t3 := t2[12 := Next(t2[12])];
          assert IncFrom(t2, 12) == t3;
        }
      }
    }
  }

  lemma NextCounts(b: Byte)
    ensures Num(Next(b)) == if Num(b) == 255 then 0 else Num(b) + 1
    ensures Next(b) == 0 <==> Num(b) == 255
  {
  }

  lemma NumDetermines(a: Byte, b: Byte)
    ensures Num(a) == Num(b) ==> a == b
  {
  }

  lemma NumSmall()
    ensures Num(0) == 0 && Num(1) == 1
  {
  }

  /** A byte string as the number it writes, the highest byte first. */
  function Value(s: Bytes): nat {
    if |s| == 0 then 0 else 256 * Value(s[..|s| - 1]) + Num(s[|s| - 1])
  }

  lemma ValueNone()
    ensures Value([]) == 0
  {
  }

  lemma ValueNext(s: Bytes, b: Byte)
    ensures Value(s + [b]) == 256 * Value(s) + Num(b)
  {
    assert (s + [b])[..|s|] == s;
  }

  /** The byte of a number, which is kept modulo 256. */
  function OctetOf(d: nat): Byte {
    if d == 0 then 0 else Next(OctetOf(d - 1))
  }

  lemma {:induction false} OctetOfNum(d: nat)
    requires d < 256
    ensures Num(OctetOf(d)) == d
  {
    hide Next, Num;
    NumSmall();
    if d > 0 {
      OctetOfNum(d - 1);
      NextCounts(OctetOf(d - 1));
    }
  }

  function Octet(n: nat): Byte {
    OctetOf(n % 256)
  }

  /** gcm_put64_be for k bytes: the lowest byte is the last. */
  function Written(n: nat, k: nat): (s: Bytes)
    ensures |s| == k
  {
    if k == 0 then [] else Written(n / 256, k - 1) + [Octet(n)]
  }

  function Pow256(k: nat): nat {
    if k == 0 then 1 else 256 * Pow256(k - 1)
  }

  lemma OctetNum(n: nat)
    ensures Num(Octet(n)) == n % 256
  {
    hide OctetOf;
    OctetOfNum(n % 256);
  }

  lemma {:induction false} WrittenValue(n: nat, k: nat)
    requires n < Pow256(k)
    ensures Value(Written(n, k)) == n
    decreases k
  {
    hide Octet, Num;
    if k > 0 {
      OctetNum(n);
      WrittenValue(n / 256, k - 1);
      assert Written(n, k)[..k - 1] == Written(n / 256, k - 1);
    }
  }

  lemma EightBytes()
    ensures Pow256(8) == 0x1_0000_0000_0000_0000
  {
    assert Pow256(4) == 0x1_0000_0000;
  }

  function Number(a: Byte, b: Byte, c: Byte, d: Byte): nat {
    0x100_0000 * Num(a) + 0x1_0000 * Num(b) + 0x100 * Num(c) + Num(d)
  }

  /** The counter field as the number its big-endian bytes write. */
  function Count(s: Bytes): (n: nat)
    requires |s| == 16
  {
    Value(s[12..])
  }

  lemma CountIs(s: Bytes)
    requires |s| == 16
    ensures Count(s) == Number(s[12], s[13], s[14], s[15])
  {
    hide Num, Value;
    ValueNone();
    ValueNext([], s[12]);
    ValueNext([s[12]], s[13]);
    ValueNext([s[12], s[13]], s[14]);
    ValueNext([s[12], s[13], s[14]], s[15]);
    assert s[12..] == [s[12], s[13], s[14]] + [s[15]];
    assert [s[12], s[13]] + [s[14]] == [s[12], s[13], s[14]];
    assert [s[12]] + [s[13]] == [s[12], s[13]] && [] + [s[12]] == [s[12]];
  }

  function Wrapped(n: nat): nat {
    n % 0x1_0000_0000
  }

  lemma WrapCases(n: nat)
    requires n <= 0x1_0000_0000
    ensures Wrapped(n) == if n == 0x1_0000_0000 then 0 else n
  {
  }

  lemma Carry(a: Byte, b: Byte, c: Byte, d: Byte)
    ensures Wrapped(Number(a, b, c, d) + 1)
      == if Next(d) != 0 then Number(a, b, c, Next(d))
         else if Next(c) != 0 then Number(a, b, Next(c), 0)
         else if Next(b) != 0 then Number(a, Next(b), 0, 0)
         else Number(Next(a), 0, 0, 0)
  {
    hide Next, Num, Wrapped;
    NumSmall();
    NextCounts(a);
    NextCounts(b);
    NextCounts(c);
    NextCounts(d);
    WrapCases(Number(a, b, c, d) + 1);
  }

  /** inc_32 of section 6.2: the code's carry chain counts up modulo 2^32 and leaves the first
      twelve bytes. */
  lemma IncAddsOne(s: Bytes)
    requires |s| == 16
    ensures IncFrom(s, 15)[..12] == s[..12] && Count(IncFrom(s, 15)) == Wrapped(Count(s) + 1)
  {
    hide Next, IncFrom, Number, Wrapped, Count;
    IncCases(s);
    CountIs(s);
    CountIs(IncFrom(s, 15));
    Carry(s[12], s[13], s[14], s[15]);
  }

  /** A counter block is determined by its fixed part and its number. */
  lemma CountDetermines(s: Bytes, t: Bytes)
    requires |s| == 16 == |t| && s[..12] == t[..12] && Count(s) == Count(t)
    ensures s == t
  {
    hide Number, Count;
    CountIs(s);
    CountIs(t);
    SameNumber(s[12], s[13], s[14], s[15], t[12], t[13], t[14], t[15]);
    assert s == s[..12] + [s[12], s[13], s[14], s[15]];
    assert t == t[..12] + [t[12], t[13], t[14], t[15]];
  }

  lemma SameNumber(a: Byte, b: Byte, c: Byte, d: Byte, e: Byte, f: Byte, g: Byte, h: Byte)
    requires Number(a, b, c, d) == Number(e, f, g, h)
    ensures a == e && b == f && c == g && d == h
  {
    hide Num;
    NumDetermines(a, e);
    NumDetermines(b, f);
    NumDetermines(c, g);
    NumDetermines(d, h);
  }

  /** kernel/gcm.h gcm_inc32. */
  method Inc32(counter: array<Byte>)
    requires counter.Length == 16
    modifies counter
    ensures counter[..] == IncFrom(old(counter[..]), 15)
  {
    hide Next;
    ghost var goal := IncFrom(counter[..], 15);
    var i := 15;
    while i >= 12
      invariant 11 <= i <= 15 && IncFrom(counter[..], i) == goal
    {
      ghost var s := counter[..];
      counter[i] := Next(counter[i]);
      assert counter[..] == s[i := Next(s[i])];
      if counter[i] != 0 { break; }
      i := i - 1;
    }
  }

  // ---------- counter mode ----------

  /** GCTR of section 6.5 from a counter block: each block of s is added to the cipher of
      the counter, the last one truncated. */
  ghost function Gctr(ctx: Aes.Ctx, counter: Bytes, s: Bytes): (r: Bytes)
    requires ctx.Valid() && |counter| == 16
    ensures |r| == |s|
    decreases |s|
  {
    if |s| == 0 then []
    else
      var n := if |s| < 16 then |s| else 16;
      Aes.Xor(s[..n], Aes.Cipher(ctx, counter)[..n]) + Gctr(ctx, IncFrom(counter, 15), s[n..])
  }

  /** Applying the key stream twice gives the data back. */
  lemma {:induction false} GctrTwice(ctx: Aes.Ctx, counter: Bytes, s: Bytes)
    requires ctx.Valid() && |counter| == 16
    ensures Gctr(ctx, counter, Gctr(ctx, counter, s)) == s
    decreases |s|
  {
    hide Aes.Xor, Aes.Cipher, IncFrom;
    if |s| > 0 {
      var n := if |s| < 16 then |s| else 16;
      var k := Aes.Cipher(ctx, counter)[..n];
      var t := Gctr(ctx, counter, s);
      assert t[..n] == Aes.Xor(s[..n], k) && t[n..] == Gctr(ctx, IncFrom(counter, 15), s[n..]);
      Aes.XorTwice(s[..n], k);
      GctrTwice(ctx, IncFrom(counter, 15), s[n..]);
    }
  }

  /** Block by block: byte k is added to byte k modulo 16 of the cipher of the one block that has
      the fixed part of the counter and, modulo 2^32, its number plus k / 16. */
  lemma {:induction false} StreamIs(ctx: Aes.Ctx, counter: Bytes, s: Bytes, k: nat, b: Bytes)
    requires ctx.Valid() && |counter| == 16 == |b| && k < |s|
    requires b[..12] == counter[..12] && Count(b) == (Count(counter) + k / 16) % 0x1_0000_0000
    ensures Gctr(ctx, counter, s)[k] == s[k] ^ Aes.Cipher(ctx, b)[k % 16]
    decreases k
  {
    hide Aes.Cipher, IncFrom, Count;
    var n := if |s| < 16 then |s| else 16;
    GctrOnce(ctx, counter, s, n);
    if k < 16 {
      CountBounded(counter);
      CountDetermines(b, counter);
      assert k / 16 == 0;
    } else {
      IncAddsOne(counter);
      LaterBlock(Count(counter), k);
      StreamIs(ctx, IncFrom(counter, 15), s[16..], k - 16, b);
    }
  }

  lemma LaterBlock(n: nat, k: nat)
    requires 16 <= k
    ensures (n + k / 16) % 0x1_0000_0000 == ((n + 1) % 0x1_0000_0000 + (k - 16) / 16) % 0x1_0000_0000
    ensures (k - 16) % 16 == k % 16
  {
    assert (k - 16) / 16 == k / 16 - 1;
  }

  lemma CountBounded(s: Bytes)
    requires |s| == 16
    ensures Count(s) < 0x1_0000_0000
  {
    hide Num, Count;
    CountIs(s);
  }

  /** The first off bytes are done; the rest is still to be added to the key stream. */
  ghost predicate CtrDone(ctx: Aes.Ctx, a: Bytes, off: nat, counter: Bytes, total: Bytes)
    requires ctx.Valid() && |counter| == 16 && off <= |a|
  {
    total == a[..off] + Gctr(ctx, counter, a[off..])
  }

  lemma CtrStart(ctx: Aes.Ctx, a: Bytes, counter: Bytes)
    requires ctx.Valid() && |counter| == 16
    ensures CtrDone(ctx, a, 0, counter, Gctr(ctx, counter, a))
  {
    assert a[..0] == [] && a[0..] == a;
  }

  lemma CtrFinish(ctx: Aes.Ctx, a: Bytes, counter: Bytes, total: Bytes)
    requires ctx.Valid() && |counter| == 16 && CtrDone(ctx, a, |a|, counter, total)
    ensures a == total
  {
    assert a[..|a|] == a && a[|a|..] == [];
  }

  lemma CtrStep(ctx: Aes.Ctx, a: Bytes, off: nat, counter: Bytes, total: Bytes, n: nat, k: Bytes)
    requires ctx.Valid() && |counter| == 16 && off < |a| && CtrDone(ctx, a, off, counter, total)
    requires n == (if |a| - off < 16 then |a| - off else 16) && k == Aes.Cipher(ctx, counter)[..n]
    ensures CtrDone(ctx, XorAt(a, off, k), off + n, IncFrom(counter, 15), total)
  {
    hide Aes.Cipher, Aes.Xor, IncFrom, XorAt, Gctr;
    XorAtSlices(a, off, k);
    GctrOnce(ctx, counter, a[off..], n);
    assert a[off..][..n] == a[off..off + n] && a[off..][n..] == a[off + n..];
    var x := Aes.Xor(a[off..off + n], k);
    var rest := Gctr(ctx, IncFrom(counter, 15), a[off + n..]);
    assert (a[..off] + x) + rest == a[..off] + (x + rest);
  }

  lemma GctrOnce(ctx: Aes.Ctx, counter: Bytes, s: Bytes, n: nat)
    requires ctx.Valid() && |counter| == 16 && |s| > 0 && n == if |s| < 16 then |s| else 16
    ensures Gctr(ctx, counter, s)
      == Aes.Xor(s[..n], Aes.Cipher(ctx, counter)[..n]) + Gctr(ctx, IncFrom(counter, 15), s[n..])
  {
    hide Aes.Cipher, Aes.Xor, IncFrom;
  }

  lemma XorAtSlices(a: Bytes, off: nat, k: Bytes)
    requires off + |k| <= |a|
    ensures XorAt(a, off, k)[..off + |k|] == a[..off] + Aes.Xor(a[off..off + |k|], k)
    ensures XorAt(a, off, k)[off + |k|..] == a[off + |k|..]
  {
    hide Aes.Add;
  }

  /** One block of key stream: the counter is copied, enciphered, added and incremented. */
  method CtrBlock(ctx: Aes.Ctx, counter: array<Byte>, data: array<Byte>, off: nat, n: nat, ghost total: Bytes)
    requires ctx.Valid() && counter.Length == 16 && counter != data && off < data.Length
    requires n == if data.Length - off < 16 then data.Length - off else 16
    requires CtrDone(ctx, data[..], off, counter[..], total)
    modifies counter, data
    ensures CtrDone(ctx, data[..], off + n, counter[..], total)
  {
    hide *;
    ghost var c, a := counter[..], data[..];
    var stream := new Byte[16];
    CopyBlock(counter, stream);
    Aes.SliceOf(stream, 0);
    assert stream[..][0..16] == c;
    Aes.EncryptBlock(ctx, stream, 0);
    WholePatch(c, Aes.Cipher(ctx, c));
    CtrStep(ctx, a, off, c, total, n, Aes.Cipher(ctx, c)[..n]);
    assert stream[..n] == stream[..][..n];
    XorInto(data, off, stream[..n]);
    Inc32(counter);
  }

  lemma WholePatch(s: Bytes, b: Bytes)
    requires |s| == 16 && |b| == 16
    ensures Aes.Patch(s, 0, b) == b
  {
  }

  method CopyBlock(from: array<Byte>, to: array<Byte>)
    requires from.Length == 16 && to.Length == 16 && from != to
    modifies to
    ensures to[..] == from[..]
  {
    for i := 0 to 16
      invariant to[..i] == from[..i]
    {
      to[i] := from[i];
    }
    assert to[..] == to[..16] && from[..] == from[..16];
  }

  /** kernel/gcm.h gcm_ctr_apply, in place, for every length. */
  method CtrApply(ctx: Aes.Ctx, counter: array<Byte>, data: array<Byte>)
    requires ctx.Valid() && counter.Length == 16 && counter != data
    modifies counter, data
    ensures data[..] == Gctr(ctx, old(counter[..]), old(data[..]))
  {
    hide *;
    ghost var total := Gctr(ctx, counter[..], data[..]);
    CtrStart(ctx, data[..], counter[..]);
    var off := 0;
    while off < data.Length
      invariant 0 <= off <= data.Length
      invariant CtrDone(ctx, data[..], off, counter[..], total)
    {
      var chunk := if data.Length - off < 16 then data.Length - off else 16;
      CtrBlock(ctx, counter, data, off, chunk, total);
      off := off + chunk;
    }
    CtrFinish(ctx, data[..], counter[..], total);
  }

  // ---------- the tag ----------

  /** A u32 byte count, as the interface of gcm.h has it. */
  ghost predicate Sized(s: Bytes) {
    |s| < 0x1_0000_0000
  }

  /** [len(A)]_64 || [len(C)]_64, the lengths in bits. */
  function LengthBlock(aad: nat, ct: nat): (r: Bytes)
    requires aad < 0x1_0000_0000 && ct < 0x1_0000_0000
    ensures |r| == 16
  {
    Written(8 * aad, 8) + Written(8 * ct, 8)
  }

  /** The two halves of the length block are the lengths in bits, big-endian in eight bytes each. */
  lemma LengthsWritten(aad: nat, ct: nat)
    requires aad < 0x1_0000_0000 && ct < 0x1_0000_0000
    ensures Value(LengthBlock(aad, ct)[..8]) == 8 * aad && Value(LengthBlock(aad, ct)[8..]) == 8 * ct
  {
    hide Written, Value;
    EightBytes();
    WrittenValue(8 * aad, 8);
    WrittenValue(8 * ct, 8);
  }

  function Zeros(): (r: Bytes)
    ensures |r| == 16
  {
    seq(16, _ => 0)
  }

  /** J_0 = IV || 0^31 || 1. */
  function J0(iv: Bytes): (r: Bytes)
    requires |iv| == 12
    ensures |r| == 16
  {
    iv + [0, 0, 0, 1]
  }

  /** The hash subkey. */
  ghost function SubKey(ctx: Aes.Ctx): Elem
    requires ctx.Valid()
  {
    ElemOf(Aes.Cipher(ctx, Zeros()))
  }

  /** A || 0^v || C || 0^u || lengths: what section 7.1 feeds to GHASH. */
  function TagInput(aad: Bytes, ct: Bytes, lens: Bytes): (r: Bytes)
    requires |lens| == 16
    ensures |r| % 16 == 0
  {
    hide *;
    Padded(aad) + Padded(ct) + lens
  }

  /** Where GHASH finds what: A, zeros to the next multiple of 16, C, zeros again, the lengths. */
  lemma TagInputRead(aad: Bytes, ct: Bytes, lens: Bytes, p: nat, q: nat)
    requires |lens| == 16
    requires p % 16 == 0 && |aad| <= p < |aad| + 16 && q % 16 == 0 && |ct| <= q < |ct| + 16
    ensures var t := TagInput(aad, ct, lens);
      && |t| == p + q + 16
      && (forall i :: 0 <= i < |aad| ==> t[i] == aad[i]) && (forall i :: |aad| <= i < p ==> t[i] == 0)
      && (forall i :: 0 <= i < |ct| ==> t[p + i] == ct[i]) && (forall i :: p + |ct| <= i < p + q ==> t[i] == 0)
      && (forall i :: 0 <= i < 16 ==> t[p + q + i] == lens[i])
  {
    PaddedLength(|aad|, p);
    PaddedLength(|ct|, q);
  }

  lemma PaddedLength(n: nat, p: nat)
    requires p % 16 == 0 && n <= p < n + 16
    ensures n + (16 - n % 16) % 16 == p
  {
  }

  /** The tag of section 7.1: GCTR of GHASH(A || 0^v || C || 0^u || lengths) under J_0. */
  ghost function Tag(ctx: Aes.Ctx, iv: Bytes, aad: Bytes, ct: Bytes): (t: Bytes)
    requires ctx.Valid() && |iv| == 12 && Sized(aad) && Sized(ct)
    ensures |t| == 16
  {
    hide SubKey, TagInput, GhashFrom, Aes.Xor, Aes.Cipher, LengthBlock;
    Aes.Xor(GhashFrom(SubKey(ctx), Zeros(), TagInput(aad, ct, LengthBlock(|aad|, |ct|))), Aes.Cipher(ctx, J0(iv)))
  }

  /** The tag is that GHASH, masked by the cipher of the block with the IV and the number 1. */
  lemma TagStream(ctx: Aes.Ctx, iv: Bytes, aad: Bytes, ct: Bytes, k: nat, b: Bytes)
    requires ctx.Valid() && |iv| == 12 && Sized(aad) && Sized(ct) && k < 16
    requires |b| == 16 && b[..12] == iv && Count(b) == 1
    ensures var h := ElemOf(Aes.Cipher(ctx, seq(16, _ => 0)));
      var y := GhashFrom(h, seq(16, _ => 0), TagInput(aad, ct, LengthBlock(|aad|, |ct|)));
      Tag(ctx, iv, aad, ct)[k] == y[k] ^ Aes.Cipher(ctx, b)[k]
  {
    hide GhashFrom, TagInput, LengthBlock, ElemOf, Aes.Cipher, Count, J0;
    FirstBlock(iv);
    CountDetermines(b, J0(iv));
    assert Zeros() == seq(16, _ => 0);
  }

  /** The three pieces the code absorbs make up the one GHASH of the standard. */
  lemma ThreePieces(h: Elem, aad: Bytes, ct: Bytes, lens: Bytes)
    requires |lens| == 16
    ensures GhashFrom(h, Zeros(), TagInput(aad, ct, lens))
      == MulH(h, XorAt(GhashFrom(h, GhashFrom(h, Zeros(), Padded(aad)), Padded(ct)), 0, lens))
  {
    hide MulH, Padded, XorAt, Aes.Xor, Zeros;
    GhashSplit(h, Zeros(), Padded(aad) + Padded(ct), lens);
    GhashSplit(h, Zeros(), Padded(aad), Padded(ct));
    var y := GhashFrom(h, GhashFrom(h, Zeros(), Padded(aad)), Padded(ct));
    assert lens[..16] == lens && lens[16..] == [];
    XorFull(y, lens);
  }

  /** E(K, block) of a 16-byte value. */
  method Encipher(ctx: Aes.Ctx, block: Bytes) returns (r: Bytes)
    requires ctx.Valid() && |block| == 16
    ensures r == Aes.Cipher(ctx, block) && |r| == 16
  {
    hide *;
    var b := new Byte[16];
    StoreBytes(b, block);
    Aes.SliceOf(b, 0);
    assert b[..][0..16] == block;
    Aes.EncryptBlock(ctx, b, 0);
    WholePatch(block, Aes.Cipher(ctx, block));
    r := b[..];
  }

  method StoreBytes(y: array<Byte>, b: Bytes)
    requires y.Length == 16 == |b|
    modifies y
    ensures y[..] == b
  {
    for i := 0 to 16
      invariant y[..i] == b[..i]
    {
      y[i] := b[i];
    }
    assert y[..] == y[..16] && b == b[..16];
  }

  /** kernel/gcm.h gcm_compute_tag, with gcm_absorb_lengths. */
  method ComputeTag(ctx: Aes.Ctx, iv: Bytes, aad: Bytes, ct: Bytes) returns (tag: Bytes)
    requires ctx.Valid() && |iv| == 12 && Sized(aad) && Sized(ct)
    ensures tag == Tag(ctx, iv, aad, ct) && |tag| == 16
  {
    hide Sized, Padded, GhashFrom, MulH, TagInput, LengthBlock, Zeros, J0, XorAt, ElemOf, TableHolds, Aes.Xor, Aes.Cipher;
    SizedMeans(aad);
    SizedMeans(ct);
    var hbytes := Encipher(ctx, Zeros());
    ghost var h := ElemOf(hbytes);
    var hl, hh := new bv64[16], new bv64[16];
    BuildTable(hl, hh, hbytes);
    var y := new Byte[16];
    StoreBytes(y, Zeros());
    Absorb(hl, hh, y, aad, h);
    Absorb(hl, hh, y, ct, h);
    var lens := LengthBlock(|aad|, |ct|);
    ThreePieces(h, aad, ct, lens);
    XorInto(y, 0, lens);
    MultH(hl, hh, y, h);
    var mask := Encipher(ctx, J0(iv));
    tag := Aes.Xor(y[..], mask);
  }

  lemma SizedMeans(s: Bytes)
    requires Sized(s)
    ensures |s| < 0x1_0000_0000
  {
  }

  // ---------- authenticated encryption ----------

  /** GCM-AE of section 7.1 on values. */
  ghost function Seal(ctx: Aes.Ctx, iv: Bytes, aad: Bytes, p: Bytes): (r: (Bytes, Bytes))
    requires ctx.Valid() && |iv| == 12 && Sized(aad) && Sized(p)
    ensures |r.0| == |p| && |r.1| == 16
  {
    var c := Gctr(ctx, IncFrom(J0(iv), 15), p);
    (c, Tag(ctx, iv, aad, c))
  }

  datatype Opened = Accepted(plaintext: Bytes) | Rejected

  /** GCM-AD of section 7.2 on values. */
  ghost function Open(ctx: Aes.Ctx, iv: Bytes, aad: Bytes, c: Bytes, tag: Bytes): Opened
    requires ctx.Valid() && |iv| == 12 && Sized(aad) && Sized(c)
  {
    if tag == Tag(ctx, iv, aad, c) then Accepted(Gctr(ctx, IncFrom(J0(iv), 15), c)) else Rejected
  }

  /** Opening what was sealed gives the plaintext back, for every length. */
  lemma OpenUndoesSeal(ctx: Aes.Ctx, iv: Bytes, aad: Bytes, p: Bytes)
    requires ctx.Valid() && |iv| == 12 && Sized(aad) && Sized(p)
    ensures var (c, tag) := Seal(ctx, iv, aad, p); Open(ctx, iv, aad, c, tag) == Accepted(p)
  {
    hide Tag, Gctr, IncFrom;
    GctrTwice(ctx, IncFrom(J0(iv), 15), p);
  }

  /** The key stream of a message: its byte k meets the block with the IV and the number k / 16 + 2,
      which is never the block with the number 1 that masks the tag, nor that of another place. */
  lemma SealStream(ctx: Aes.Ctx, iv: Bytes, aad: Bytes, p: Bytes, k: nat, b: Bytes)
    requires ctx.Valid() && |iv| == 12 && Sized(aad) && Sized(p) && k < |p|
    requires |b| == 16 && b[..12] == iv && Count(b) == k / 16 + 2
    ensures Seal(ctx, iv, aad, p).0[k] == p[k] ^ Aes.Cipher(ctx, b)[k % 16]
    ensures b != J0(iv)
  {
    hide Tag, Gctr, IncFrom, Aes.Cipher;
    FirstBlock(iv);
    StreamIs(ctx, IncFrom(J0(iv), 15), p, k, b);
  }

  /** The same stream is taken off again. */
  lemma OpenStream(ctx: Aes.Ctx, iv: Bytes, aad: Bytes, c: Bytes, tag: Bytes, k: nat, b: Bytes)
    requires ctx.Valid() && |iv| == 12 && Sized(aad) && Sized(c) && k < |c|
    requires |b| == 16 && b[..12] == iv && Count(b) == k / 16 + 2
    requires Open(ctx, iv, aad, c, tag).Accepted?
    ensures |Open(ctx, iv, aad, c, tag).plaintext| == |c|
    ensures Open(ctx, iv, aad, c, tag).plaintext[k] == c[k] ^ Aes.Cipher(ctx, b)[k % 16]
  {
    hide Tag, Gctr, IncFrom, Aes.Cipher;
    FirstBlock(iv);
    StreamIs(ctx, IncFrom(J0(iv), 15), c, k, b);
  }

  /** The tag is masked with the block that has the IV and the number 1; the data starts at 2. */
  lemma FirstBlock(iv: Bytes)
    requires |iv| == 12
    ensures J0(iv)[..12] == iv && Count(J0(iv)) == 1
    ensures IncFrom(J0(iv), 15)[..12] == iv && Count(IncFrom(J0(iv), 15)) == 2
  {
    hide IncFrom, Num;
    NumSmall();
    var j := J0(iv);
    assert j[12] == 0 && j[13] == 0 && j[14] == 0 && j[15] == 1;
    assert j[..12] == iv;
    hide J0, Count;
    CountIs(j);
    IncAddsOne(j);
    WrapCases(2);
  }

  /** The counter block J_0 + 1 from which the data is enciphered. */
  method FirstCounter(iv: Bytes) returns (counter: array<Byte>)
    requires |iv| == 12
    ensures fresh(counter) && counter.Length == 16 && counter[..] == IncFrom(J0(iv), 15)
  {
    hide *;
    counter := new Byte[16];
    StoreBytes(counter, J0(iv));
    Inc32(counter);
  }

  /** kernel/gcm.h gcm_encrypt. */
  method Encrypt(ctx: Aes.Ctx, iv: Bytes, aad: Bytes, data: array<Byte>) returns (tag: Bytes)
    requires ctx.Valid() && |iv| == 12 && Sized(aad) && Sized(data[..])
    modifies data
    ensures (data[..], tag) == Seal(ctx, iv, aad, old(data[..]))
  {
    hide Sized, Gctr, IncFrom, Tag, J0;
    SizedMeans(data[..]);
    var counter := FirstCounter(iv);
    CtrApply(ctx, counter, data);
    SizedIs(data[..]);
    tag := ComputeTag(ctx, iv, aad, data[..]);
  }

  lemma SizedIs(s: Bytes)
    requires |s| < 0x1_0000_0000
    ensures Sized(s)
  {
  }

  /** The comparison that looks at every byte: diff stays zero while the bytes agree. */
  method SameTag(expected: Bytes, tag: Bytes) returns (same: bool)
    requires |expected| == 16 && |tag| == 16
    ensures same <==> expected == tag
  {
    hide *;
    var diff: Byte := 0;
    for i := 0 to 16
      invariant diff == 0 <==> expected[..i] == tag[..i]
    {
      DiffStep(diff, expected[i], tag[i]);
      assert expected[..i + 1] == expected[..i] + [expected[i]] && tag[..i + 1] == tag[..i] + [tag[i]];
      diff := OrDiff(diff, expected[i], tag[i]);
    }
    assert expected[..16] == expected && tag[..16] == tag;
    same := diff == 0;
  }

  function OrDiff(diff: Byte, a: Byte, b: Byte): Byte {
    diff | (a ^ b)
  }

  lemma DiffStep(diff: Byte, a: Byte, b: Byte)
    ensures OrDiff(diff, a, b) == 0 <==> diff == 0 && a == b
  {
  }

  /** kernel/gcm.h gcm_decrypt: the buffer changes only when the tag matches. */
  method Decrypt(ctx: Aes.Ctx, iv: Bytes, aad: Bytes, data: array<Byte>, tag: Bytes) returns (ok: bool)
    requires ctx.Valid() && |iv| == 12 && Sized(aad) && Sized(data[..]) && |tag| == 16
    modifies data
    ensures ok <==> Open(ctx, iv, aad, old(data[..]), tag).Accepted?
    ensures if ok then Open(ctx, iv, aad, old(data[..]), tag) == Accepted(data[..]) else data[..] == old(data[..])
  {
    hide Sized, Gctr, IncFrom, Tag, J0;
    var expected := ComputeTag(ctx, iv, aad, data[..]);
    ok := SameTag(expected, tag);
    if ok {
      var counter := FirstCounter(iv);
      CtrApply(ctx, counter, data);
    }
  }
}
