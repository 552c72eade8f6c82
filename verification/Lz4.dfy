/** kernel/lz.h: the LZ4 block decoder against the block format as a list of sequences. */
module Lz4 {
  import opened Octets
  import opened Options

  // ---------- the format ----------

  /** Literals, then a match of `len` bytes that starts `off` bytes back. */
  datatype Sequence = Sequence(lits: Bytes, off: nat, len: nat)

  /** The last sequence carries literals only; the low nibble of its token is not used. */
  datatype Tail = NoTail | Literals(lits: Bytes, low: nat)

  /** A match, byte by byte: it may run into the bytes it produces. */
  function CopyMatch(out: Bytes, off: nat, len: nat): (r: Bytes)
    requires 1 <= off <= |out|
    ensures |r| == |out| + len && r[..|out|] == out
    decreases len
  {
    if len == 0 then out else CopyMatch(out + [out[|out| - off]], off, len - 1)
  }

  /** Every byte of a match equals the byte `off` before it. */
  lemma {:induction false} MatchRepeats(out: Bytes, off: nat, len: nat, k: nat)
    requires 1 <= off <= |out| <= k < |out| + len
    ensures CopyMatch(out, off, len)[k] == CopyMatch(out, off, len)[k - off]
    decreases len
  {
    var next := out + [out[|out| - off]];
    var r := CopyMatch(next, off, len - 1);
    if k == |out| {
      assert r[..|next|] == next;
      assert r[k] == next[k] && r[k - off] == next[k - off];
    } else {
      MatchRepeats(next, off, len - 1, k);
    }
  }

  /** The sequences make sense after `out`, and everything they produce fits. */
  predicate ValidFrom(out: Bytes, ss: seq<Sequence>, tail: Tail, cap: nat)
    decreases |ss|
  {
    if |ss| == 0 then
      tail.Literals? ==> tail.low < 16 && |out| + |tail.lits| <= cap
    else
      var s := ss[0];
      && s.len >= 4 && 1 <= s.off <= |out| + |s.lits| && s.off < 0x1_0000
      && |out| + |s.lits| + s.len <= cap
      && ValidFrom(CopyMatch(out + s.lits, s.off, s.len), ss[1..], tail, cap)
  }

  /** The bytes that a block stands for. */
  function ExpandFrom(out: Bytes, ss: seq<Sequence>, tail: Tail, cap: nat): Bytes
    requires ValidFrom(out, ss, tail, cap)
    decreases |ss|
  {
    if |ss| == 0 then out + (if tail.Literals? then tail.lits else [])
    else ExpandFrom(CopyMatch(out + ss[0].lits, ss[0].off, ss[0].len), ss[1..], tail, cap)
  }

  /** The bytes that extend a length nibble of 15. */
  function Ext(v: nat): Bytes {
    if v >= 255 then [255] + Ext(v - 255) else [v]
  }

  function Nibble(n: nat): (b: nat)
    ensures b < 16
  {
    if n < 15 then n else 15
  }

  function Extended(n: nat): Bytes {
    if n < 15 then [] else Ext(n - 15)
  }

  function Token(lits: nat, low: nat): (b: Byte)
    requires low < 16
  {
    var t: int := 16 * Nibble(lits) + low;
    t
  }

  function SequenceBytes(s: Sequence): Bytes
    requires s.len >= 4 && s.off < 0x1_0000
  {
    var lo: int, hi: int := s.off % 256, s.off / 256;
    [Token(|s.lits|, Nibble(s.len - 4))] + Extended(|s.lits|) + s.lits + [lo, hi] + Extended(s.len - 4)
  }

  function TailBytes(t: Tail): Bytes
    requires t.Literals? ==> t.low < 16
  {
    if t.NoTail? then [] else [Token(|t.lits|, t.low)] + Extended(|t.lits|) + t.lits
  }

  predicate Wellformed(ss: seq<Sequence>, t: Tail) {
    (t.Literals? ==> t.low < 16) && forall i :: 0 <= i < |ss| ==> ss[i].len >= 4 && ss[i].off < 0x1_0000
  }

  function BlockBytes(ss: seq<Sequence>, t: Tail): Bytes
    requires Wellformed(ss, t)
  {
    if |ss| == 0 then TailBytes(t) else SequenceBytes(ss[0]) + BlockBytes(ss[1..], t)
  }

  // ---------- the decoder on values ----------

  /** The loop over extension bytes: their sum, and the position behind them. */
  function ReadExt(src: Bytes, p: nat): (r: Option<(nat, nat)>)
    ensures r.Some? ==> p < r.value.1 <= |src| && r.value.0 <= 255 * (r.value.1 - p)
    decreases |src| - p
  {
    if p >= |src| then None
    else if src[p] == 255 then
      var rest := ReadExt(src, p + 1);
      if rest.None? then None else Some((255 + rest.value.0, rest.value.1))
    else Some((src[p], p + 1))
  }

  function ReadLength(src: Bytes, p: nat, nibble: nat): (r: Option<(nat, nat)>)
    requires p <= |src|
    ensures r.Some? ==> p <= r.value.1 <= |src|
  {
    if nibble != 15 then Some((nibble, p))
    else
      var e := ReadExt(src, p);
      if e.None? then None else Some((15 + e.value.0, e.value.1))
  }

  /** What lz4_block_decode makes of src[p..] after the bytes `out`; None is its error. */
  function DecodeFrom(src: Bytes, p: nat, out: Bytes, cap: nat): Option<Bytes>
    requires p <= |src|
    decreases |src| - p
  {
    if p == |src| then Some(out)
    else
      var token := src[p];
      var l := ReadLength(src, p + 1, token / 16);
      if l.None? then None
      else
        var lit, q := l.value.0, l.value.1;
        if lit > |src| - q || |out| + lit > cap then None
        else
          var out1 := out + src[q..q + lit];
          var q1 := q + lit;
          if q1 == |src| then Some(out1)
          else if |src| - q1 < 2 then None
          else AfterLiterals(src, q1, token % 16, out1, cap)
  }

  /** The match part of a sequence, and the sequences behind it. */
  function AfterLiterals(src: Bytes, q: nat, low: nat, out: Bytes, cap: nat): Option<Bytes>
    requires q + 2 <= |src|
    decreases |src| - q, 0
  {
    var a: int, b: int := src[q], src[q + 1];
    var off := a + 256 * b;
    if off == 0 || off > |out| then None
    else
      var m := ReadLength(src, q + 2, low);
      if m.None? then None
      else if m.value.0 + 4 > cap - |out| then None
      else DecodeFrom(src, m.value.1, CopyMatch(out, off, m.value.0 + 4), cap)
  }

  // ---------- reading back what the format wrote ----------

  lemma {:induction false} ReadBackExt(src: Bytes, p: nat, v: nat)
    requires p + |Ext(v)| <= |src| && src[p..p + |Ext(v)|] == Ext(v)
    ensures ReadExt(src, p) == Some((v, p + |Ext(v)|))
    decreases v
  {
    var e := Ext(v);
    assert src[p] == src[p..p + |e|][0] == e[0];
    if v >= 255 {
      assert src[p + 1..p + 1 + |Ext(v - 255)|] == src[p..p + |e|][1..] == e[1..];
      ReadBackExt(src, p + 1, v - 255);
    }
  }

  lemma ReadBackLength(src: Bytes, p: nat, n: nat)
    requires p + |Extended(n)| <= |src| && src[p..p + |Extended(n)|] == Extended(n)
    ensures ReadLength(src, p, Nibble(n)) == Some((n, p + |Extended(n)|))
  {
    if n >= 15 { ReadBackExt(src, p, n - 15); }
  }

  lemma TokenParts(lits: nat, low: nat)
    requires low < 16
    ensures Token(lits, low) / 16 == Nibble(lits) && Token(lits, low) % 16 == low
  {
  }

  lemma Peel(src: Bytes, p: nat, a: Bytes, rest: Bytes)
    requires p <= |src| && src[p..] == a + rest
    ensures p + |a| <= |src| && src[p..p + |a|] == a && src[p + |a|..] == rest
  {
    assert src[p..][..|a|] == a && src[p..][|a|..] == rest;
  }

  /** An extension is a run of 255s and one smaller byte, which add up to what it extends by. */
  lemma {:induction false} ExtIs(v: nat)
    ensures |Ext(v)| == v / 255 + 1 && Ext(v)[|Ext(v)| - 1] == v % 255
    ensures forall i :: 0 <= i < |Ext(v)| - 1 ==> Ext(v)[i] == 255
  {
    if v >= 255 {
      ExtIs(v - 255);
      assert (v - 255) / 255 == v / 255 - 1 && (v - 255) % 255 == v % 255;
    }
  }

  /** The layout of a sequence: the token with the two lengths, 15 meaning extended, the literals,
      the offset with its low byte first. */
  lemma SequenceLayout(s: Sequence)
    requires s.len >= 4 && s.off < 0x1_0000
    ensures var b, n, m := SequenceBytes(s), |s.lits|, s.len - 4;
      var q := if n < 15 then 1 else 1 + |Ext(n - 15)|;
      && |b| >= q + n + 2
      && b[0] == 16 * (if n < 15 then n else 15) + (if m < 15 then m else 15)
      && b[1..q] == (if n < 15 then [] else Ext(n - 15))
      && b[q..q + n] == s.lits && b[q + n] == s.off % 256 && b[q + n + 1] == s.off / 256
      && b[q + n + 2..] == (if m < 15 then [] else Ext(m - 15))
  {
    hide Ext;
    var src := SequenceBytes(s);
    assert src[0..] == src + [];
    var q, e := SequenceAt(src, 0, s, []);
    assert src[e..] == [] && src[..e] == src;
  }

  /** A last sequence of literals is read back. */
  lemma ReadBackTail(src: Bytes, p: nat, out: Bytes, t: Tail, cap: nat)
    requires p <= |src| && ValidFrom(out, [], t, cap) && src[p..] == TailBytes(t)
    ensures DecodeFrom(src, p, out, cap) == Some(ExpandFrom(out, [], t, cap))
  {
    hide Extended, Token, ReadLength;
    if t.Literals? {
      var n := |t.lits|;
      assert src[p..] == [Token(n, t.low)] + (Extended(n) + t.lits);
      Peel(src, p, [Token(n, t.low)], Extended(n) + t.lits);
      Peel(src, p + 1, Extended(n), t.lits);
      assert src[p] == src[p..p + 1][0];
      TokenParts(n, t.low);
      ReadBackLength(src, p + 1, n);
      var q := p + 1 + |Extended(n)|;
      assert src[q..q + n] == src[q..] == t.lits;
    } else {
      assert out + [] == out;
    }
  }

  lemma OffsetBytes(off: nat)
    requires off < 0x1_0000
    ensures 0 <= off % 256 < 256 && 0 <= off / 256 < 256 && off % 256 + 256 * (off / 256) == off
  {
  }

  lemma Regroup(a: Bytes, b: Bytes, c: Bytes, d: Bytes, e: Bytes, f: Bytes)
    ensures a + b + c + d + e + f == a + (b + (c + (d + (e + f))))
  {
  }

  /** The pieces of a sequence, where they lie. */
  lemma SequenceAt(src: Bytes, p: nat, s: Sequence, rest: Bytes) returns (q: nat, e: nat)
    requires p <= |src| && s.len >= 4 && s.off < 0x1_0000 && src[p..] == SequenceBytes(s) + rest
    ensures q == p + 1 + |Extended(|s.lits|)| && e == q + |s.lits| + 2 + |Extended(s.len - 4)| && e <= |src|
    ensures src[p] == Token(|s.lits|, Nibble(s.len - 4)) && src[p + 1..q] == Extended(|s.lits|)
    ensures src[q..q + |s.lits|] == s.lits
    ensures src[q + |s.lits|] == s.off % 256 && src[q + |s.lits| + 1] == s.off / 256
    ensures src[q + |s.lits| + 2..e] == Extended(s.len - 4) && src[e..] == rest
  {
    hide *;
    var n, m := |s.lits|, s.len - 4;
    var lo: int, hi: int := s.off % 256, s.off / 256;
    var t: Bytes, x: Bytes, y: Bytes := [Token(n, Nibble(m))], Extended(n), Extended(m);
    q := p + 1 + |x|;
    e := q + n + 2 + |y|;
    var after := SequencePieces(s, rest);
    Peel(src, p, t, x + after);
    assert src[p] == src[p..p + 1][0];
    Peel(src, p + 1, x, after);
    OffsetBytes(s.off);
    LastPieces(src, q, s.lits, lo, hi, y, rest);
  }

  lemma SequencePieces(s: Sequence, rest: Bytes) returns (after: Bytes)
    requires s.len >= 4 && s.off < 0x1_0000
    ensures var lo: int, hi: int := s.off % 256, s.off / 256;
      after == s.lits + ([lo, hi] + (Extended(s.len - 4) + rest))
    ensures SequenceBytes(s) + rest == [Token(|s.lits|, Nibble(s.len - 4))] + (Extended(|s.lits|) + after)
  {
    hide Extended, Token, Nibble;
    var lo: int, hi: int := s.off % 256, s.off / 256;
    after := s.lits + ([lo, hi] + (Extended(s.len - 4) + rest));
    Regroup([Token(|s.lits|, Nibble(s.len - 4))], Extended(|s.lits|), s.lits, [lo, hi], Extended(s.len - 4), rest);
  }

  lemma LastPieces(src: Bytes, q: nat, lits: Bytes, lo: Byte, hi: Byte, y: Bytes, rest: Bytes)
    requires q <= |src| && src[q..] == lits + ([lo, hi] + (y + rest))
    ensures var r, e := q + |lits|, q + |lits| + 2 + |y|;
      e <= |src| && src[q..r] == lits && src[r] == lo && src[r + 1] == hi && src[r + 2..e] == y && src[e..] == rest
  {
    var n := |lits|;
    Peel(src, q, lits, [lo, hi] + (y + rest));
    Peel(src, q + n, [lo, hi], y + rest);
    assert src[q + n] == src[q + n..q + n + 2][0] && src[q + n + 1] == src[q + n..q + n + 2][1];
    Peel(src, q + n + 2, y, rest);
  }

  lemma BlockStep(out: Bytes, ss: seq<Sequence>, t: Tail, cap: nat)
    requires |ss| > 0 && ValidFrom(out, ss, t, cap) && Wellformed(ss, t)
    ensures var s := ss[0];
      && s.len >= 4 && 1 <= s.off <= |out| + |s.lits| && s.off < 0x1_0000 && |out| + |s.lits| + s.len <= cap
      && ValidFrom(CopyMatch(out + s.lits, s.off, s.len), ss[1..], t, cap) && Wellformed(ss[1..], t)
      && BlockBytes(ss, t) == SequenceBytes(s) + BlockBytes(ss[1..], t)
      && ExpandFrom(out, ss, t, cap) == ExpandFrom(CopyMatch(out + s.lits, s.off, s.len), ss[1..], t, cap)
  {
    hide CopyMatch, SequenceBytes, TailBytes;
  }

  /** One sequence is read back. */
  lemma ReadBackSequence(src: Bytes, p: nat, out: Bytes, s: Sequence, rest: Bytes, cap: nat) returns (e: nat)
    requires p <= |src| && s.len >= 4 && s.off < 0x1_0000 && src[p..] == SequenceBytes(s) + rest
    requires 1 <= s.off <= |out| + |s.lits| && |out| + |s.lits| + s.len <= cap
    ensures p < e <= |src| && src[e..] == rest
    ensures DecodeFrom(src, p, out, cap) == DecodeFrom(src, e, CopyMatch(out + s.lits, s.off, s.len), cap)
  {
    hide *;
    var n, m := |s.lits|, s.len - 4;
    var q;
    q, e := SequenceAt(src, p, s, rest);
    TokenParts(n, Nibble(m));
    ReadBackLength(src, p + 1, n);
    ReadBackLength(src, q + n + 2, m);
    OffsetBytes(s.off);
    OneSequence(src, p, out, cap, n, q, m, e, s.off);
  }

  /** Decoding the bytes of a list of valid sequences returns their expansion. */
  lemma {:induction false} DecodesBlock(src: Bytes, p: nat, out: Bytes, ss: seq<Sequence>, t: Tail, cap: nat)
    requires p <= |src| && ValidFrom(out, ss, t, cap) && Wellformed(ss, t) && src[p..] == BlockBytes(ss, t)
    ensures DecodeFrom(src, p, out, cap) == Some(ExpandFrom(out, ss, t, cap))
    decreases |ss|
  {
    if |ss| == 0 {
      assert ss == [];
      ReadBackTail(src, p, out, t, cap);
    } else {
      hide *;
      var s := ss[0];
      BlockStep(out, ss, t, cap);
      var e := ReadBackSequence(src, p, out, s, BlockBytes(ss[1..], t), cap);
      DecodesBlock(src, e, CopyMatch(out + s.lits, s.off, s.len), ss[1..], t, cap);
    }
  }

  /** Decoding one sequence whose parts have been read. */
  lemma OneSequence(src: Bytes, p: nat, out: Bytes, cap: nat, n: nat, q: nat, m: nat, e: nat, off: nat)
    requires p < |src| && ReadLength(src, p + 1, src[p] / 16) == Some((n, q))
    requires q + n + 2 <= |src| && ReadLength(src, q + n + 2, src[p] % 16) == Some((m, e))
    requires src[q + n] == off % 256 && src[q + n + 1] == off / 256 && off < 0x1_0000
    requires 1 <= off <= |out| + n && |out| + n + m + 4 <= cap
    ensures DecodeFrom(src, p, out, cap) == DecodeFrom(src, e, CopyMatch(out + src[q..q + n], off, m + 4), cap)
  {
    hide ReadLength, CopyMatch;
    OffsetBytes(off);
  }

  // ---------- whatever decodes is a block ----------

  lemma {:induction false} ExtRead(src: Bytes, p: nat)
    requires ReadExt(src, p).Some?
    ensures var (v, q) := ReadExt(src, p).value; p < q <= |src| && src[p..q] == Ext(v)
    decreases |src| - p
  {
    var (v, q) := ReadExt(src, p).value;
    if src[p] == 255 {
      ExtRead(src, p + 1);
      assert src[p..q] == [src[p]] + src[p + 1..q];
    } else {
      assert src[p..q] == [src[p]];
    }
  }

  lemma LengthRead(src: Bytes, p: nat, nibble: nat)
    requires p <= |src| && nibble < 16 && ReadLength(src, p, nibble).Some?
    ensures var (n, q) := ReadLength(src, p, nibble).value;
      p <= q <= |src| && Nibble(n) == nibble && src[p..q] == Extended(n)
  {
    if nibble == 15 {
      ExtRead(src, p);
    } else {
      assert src[p..p] == [];
    }
  }

  lemma TokenOf(t: Byte, n: nat)
    requires Nibble(n) == t / 16
    ensures Token(n, t % 16) == t
  {
  }

  /** The bytes of a tail that was read. */
  lemma TailRead(src: Bytes, p: nat, n: nat, q: nat)
    requires p < |src| && ReadLength(src, p + 1, src[p] / 16) == Some((n, q)) && q + n == |src|
    ensures src[p..] == TailBytes(Literals(src[q..], src[p] % 16))
  {
    hide ReadLength, Extended, Token, Nibble;
    LengthRead(src, p + 1, src[p] / 16);
    TokenOf(src[p], n);
    assert src[p..] == [src[p]] + src[p + 1..q] + src[q..];
  }

  lemma SequenceRead(src: Bytes, p: nat, n: nat, q: nat, m: nat, e: nat, off: nat)
    requires p < |src| && ReadLength(src, p + 1, src[p] / 16) == Some((n, q))
    requires q + n + 2 <= |src| && ReadLength(src, q + n + 2, src[p] % 16) == Some((m, e))
    requires src[q + n] == off % 256 && src[q + n + 1] == off / 256 && off < 0x1_0000
    ensures e <= |src| && src[p..e] == SequenceBytes(Sequence(src[q..q + n], off, m + 4))
  {
    hide ReadLength, Extended, Token, Nibble;
    LengthRead(src, p + 1, src[p] / 16);
    LengthRead(src, q + n + 2, src[p] % 16);
    TokenOf(src[p], n);
    var lo: int, hi: int := off % 256, off / 256;
    assert src[q + n..q + n + 2] == [lo, hi];
    assert src[p..e] == [src[p]] + src[p + 1..q] + src[q..q + n] + src[q + n..q + n + 2] + src[q + n + 2..e];
  }

  /** What a successful step of the decoder has read. */
  lemma StepParts(src: Bytes, p: nat, out: Bytes, cap: nat) returns (n: nat, q: nat, last: bool, m: nat, e: nat, off: nat)
    requires p < |src| && DecodeFrom(src, p, out, cap).Some?
    ensures ReadLength(src, p + 1, src[p] / 16) == Some((n, q)) && p < q && q + n <= |src| && |out| + n <= cap
    ensures last <==> q + n == |src|
    ensures last ==> DecodeFrom(src, p, out, cap) == Some(out + src[q..])
    ensures !last ==> q + n + 2 <= e <= |src| && ReadLength(src, q + n + 2, src[p] % 16) == Some((m, e))
    ensures !last ==> src[q + n] == off % 256 && src[q + n + 1] == off / 256 && off < 0x1_0000
    ensures !last ==> 1 <= off <= |out| + n && |out| + n + m + 4 <= cap
    ensures !last ==> DecodeFrom(src, p, out, cap) == DecodeFrom(src, e, CopyMatch(out + src[q..q + n], off, m + 4), cap)
  {
    hide ReadLength, CopyMatch;
    var l := ReadLength(src, p + 1, src[p] / 16);
    n, q := l.value.0, l.value.1;
    last := q + n == |src|;
    m, e, off := 0, 0, 0;
    if last {
      assert src[q..q + n] == src[q..];
    } else {
      var a: int, b: int := src[q + n], src[q + n + 1];
      off := a + 256 * b;
      OffsetIs(a, b);
      var r := ReadLength(src, q + n + 2, src[p] % 16);
      m, e := r.value.0, r.value.1;
    }
  }

  lemma OffsetIs(a: int, b: int)
    requires 0 <= a < 256 && 0 <= b < 256
    ensures (a + 256 * b) % 256 == a && (a + 256 * b) / 256 == b && 0 <= a + 256 * b < 0x1_0000
  {
  }

  /** Every input that decodes is the serialisation of valid sequences with that expansion. */
  lemma {:induction false} DecodedIsBlock(src: Bytes, p: nat, out: Bytes, cap: nat) returns (ss: seq<Sequence>, t: Tail)
    requires p <= |src| && |out| <= cap && DecodeFrom(src, p, out, cap).Some?
    ensures ValidFrom(out, ss, t, cap) && Wellformed(ss, t) && src[p..] == BlockBytes(ss, t)
    ensures DecodeFrom(src, p, out, cap).value == ExpandFrom(out, ss, t, cap)
    decreases |src| - p
  {
    hide ReadLength, CopyMatch, Extended, Token, Nibble, SequenceBytes, DecodeFrom;
    if p == |src| {
      ss, t := [], NoTail;
      assert src[p..] == [];
      DecodeEnd(src, p, out, cap);
      assert out + [] == out;
    } else {
      var n, q, last, m, e, off := StepParts(src, p, out, cap);
      if last {
        ss, t := [], Literals(src[q..], src[p] % 16);
        TailRead(src, p, n, q);
      } else {
        var s := Sequence(src[q..q + n], off, m + 4);
        var next := CopyMatch(out + s.lits, off, m + 4);
        SequenceRead(src, p, n, q, m, e, off);
        var rest;
        rest, t := DecodedIsBlock(src, e, next, cap);
        ss := [s] + rest;
        assert ss[1..] == rest;
        assert src[p..] == src[p..e] + src[e..];
      }
    }
  }

  lemma DecodeEnd(src: Bytes, p: nat, out: Bytes, cap: nat)
    requires p == |src|
    ensures DecodeFrom(src, p, out, cap) == Some(out)
  {
  }

  /** An input decodes to o exactly when it is the serialisation of a valid block that
      expands to o. */
  lemma DecodesExactlyBlocks(src: Bytes, cap: nat, o: Bytes)
    ensures DecodeFrom(src, 0, [], cap) == Some(o) <==>
      exists ss, t :: ValidFrom([], ss, t, cap) && Wellformed(ss, t) && src == BlockBytes(ss, t) && o == ExpandFrom([], ss, t, cap)
  {
    hide DecodeFrom, ValidFrom, BlockBytes, ExpandFrom, Wellformed;
    assert src[0..] == src;
    if DecodeFrom(src, 0, [], cap) == Some(o) {
      var ss, t := DecodedIsBlock(src, 0, [], cap);
    }
    if ss, t :| ValidFrom([], ss, t, cap) && Wellformed(ss, t) && src == BlockBytes(ss, t) && o == ExpandFrom([], ss, t, cap) {
      DecodesBlock(src, 0, [], ss, t, cap);
    }
  }

  // ---------- the code ----------

  /** The loop over extension bytes.  An input below 2^24 bytes keeps the u32 sum in range. */
  method ReadMore(src: Bytes, p: nat, start: nat) returns (ok: bool, n: nat, q: nat)
    requires p <= |src| < 0x100_0000 && start <= 19
    ensures ok == ReadExt(src, p).Some?
    ensures ok ==> (n, q) == (start + ReadExt(src, p).value.0, ReadExt(src, p).value.1)
  {
    hide ReadExt;
    n, q := start, p;
    var b: int := 255;
    ghost var whole := ReadExt(src, p);
    ExtBound(src, p);
    while b == 255
      invariant p <= q <= |src| && n >= start && n - start <= 255 * (q - p)
      invariant b == 255 ==> (ReadExt(src, q).None? <==> whole.None?)
      invariant b == 255 && whole.Some? ==>
        whole.value.0 == n - start + ReadExt(src, q).value.0 && whole.value.1 == ReadExt(src, q).value.1
      invariant b != 255 ==> whole.Some? && whole.value.0 == n - start && whole.value.1 == q
      decreases |src| - q, b
    {
      ExtOnce(src, q);
      if q >= |src| { return false, n, q; }
      b := src[q];
      q := q + 1;
      n := (n + b) % 0x1_0000_0000;
    }
    ok := true;
  }

  lemma ExtBound(src: Bytes, p: nat)
    ensures ReadExt(src, p).Some? ==> p < ReadExt(src, p).value.1 <= |src|
  {
  }

  lemma ExtOnce(src: Bytes, q: nat)
    ensures q >= |src| ==> ReadExt(src, q).None?
    ensures q < |src| && src[q] == 255 ==>
      (ReadExt(src, q).None? <==> ReadExt(src, q + 1).None?)
      && (ReadExt(src, q).Some? ==>
            ReadExt(src, q).value == (255 + ReadExt(src, q + 1).value.0, ReadExt(src, q + 1).value.1))
    ensures q < |src| && src[q] != 255 ==>
      ReadExt(src, q).Some? && ReadExt(src, q).value.0 == src[q] && ReadExt(src, q).value.1 == q + 1
  {
  }

  method ReadCount(src: Bytes, p: nat, nibble: nat, base: nat) returns (ok: bool, n: nat, q: nat)
    requires p <= |src| < 0x100_0000 && nibble < 16 && base <= 4
    ensures ok == ReadLength(src, p, nibble).Some?
    ensures ok ==> (n, q) == (base + ReadLength(src, p, nibble).value.0, ReadLength(src, p, nibble).value.1)
  {
    hide ReadExt;
    ok, n, q := true, base + nibble, p;
    if nibble == 15 { ok, n, q := ReadMore(src, p, base + 15); }
  }

  /** Literals are copied forward. */
  method CopyLiterals(src: Bytes, s: nat, dst: array<Byte>, d: nat, n: nat)
    requires s + n <= |src| && d + n <= dst.Length
    modifies dst
    ensures dst[..d + n] == old(dst[..d]) + src[s..s + n]
  {
    ghost var was := dst[..d];
    for i := 0 to n
      invariant dst[..d + i] == was + src[s..s + i]
    {
      dst[d + i] := src[s + i];
      assert dst[..d + i + 1] == dst[..d + i] + [src[s + i]];
      assert src[s..s + i + 1] == src[s..s + i] + [src[s + i]];
    }
  }

  /** A match is copied byte by byte, so that it may overlap what it writes. */
  method CopyBack(dst: array<Byte>, d: nat, off: nat, n: nat)
    requires 1 <= off <= d && d + n <= dst.Length
    modifies dst
    ensures dst[..d + n] == CopyMatch(old(dst[..d]), off, n)
  {
    hide CopyMatch;
    ghost var goal := CopyMatch(dst[..d], off, n);
    for i := 0 to n
      invariant CopyMatch(dst[..d + i], off, n - i) == goal
    {
      CopyOnce(dst[..d + i], off, n - i);
      ghost var cur := dst[..d + i];
      dst[d + i] := dst[d + i - off];
      assert dst[..d + i + 1] == cur + [cur[|cur| - off]];
    }
    CopyNone(dst[..d + n], off);
  }

  lemma CopyOnce(out: Bytes, off: nat, n: nat)
    requires 1 <= off <= |out| && n > 0
    ensures CopyMatch(out, off, n) == CopyMatch(out + [out[|out| - off]], off, n - 1)
  {
  }

  lemma CopyNone(out: Bytes, off: nat)
    requires 1 <= off <= |out|
    ensures CopyMatch(out, off, 0) == out
  {
  }

  /** kernel/lz.h lz4_block_decode: the number of bytes produced, 0 on any error. */
  method Decode(src: Bytes, dst: array<Byte>) returns (produced: nat)
    requires |src| < 0x100_0000 && dst.Length < 0x1_0000_0000
    modifies dst
    ensures var r := DecodeFrom(src, 0, [], dst.Length);
      if r.Some? then produced == |r.value| <= dst.Length && dst[..produced] == r.value else produced == 0
  {
    hide DecodeFrom, AfterLiterals, ReadLength, ReadExt, CopyMatch;
    var s: nat, d: nat := 0, 0;
    ghost var whole := DecodeFrom(src, 0, [], dst.Length);
    assert dst[..0] == [];
    while s < |src|
      invariant s <= |src| && d <= dst.Length && DecodeFrom(src, s, dst[..d], dst.Length) == whole
      decreases |src| - s
    {
      ghost var out := dst[..d];
      var token := src[s];
      ByteNibbles(token);
      DecodeCases(src, s, out, dst.Length);
      var ok, lit, q := ReadCount(src, s + 1, token / 16, 0);
      if !ok { return 0; }
      LengthBounds(src, s + 1, token / 16);
      if lit > |src| - q || lit > dst.Length - d { return 0; }
      CopyLiterals(src, q, dst, d, lit);
      d := d + lit;
      s := q + lit;
      if s == |src| {
        DecodeEnd(src, s, dst[..d], dst.Length);
        return d;
      }
      if |src| - s < 2 { return 0; }
      var off := src[s] as int + 256 * src[s + 1] as int;
      if off == 0 || off > d { return 0; }
      var ok2, len, e := ReadCount(src, s + 2, token % 16, 4);
      if !ok2 { return 0; }
      LengthBounds(src, s + 2, token % 16);
      if len > dst.Length - d { return 0; }
      CopyBack(dst, d, off, len);
      d := d + len;
      s := e;
    }
    DecodeEnd(src, s, dst[..d], dst.Length);
    produced := d;
  }

  lemma ByteNibbles(b: Byte)
    ensures b / 16 < 16 && b % 16 < 16
  {
  }

  lemma LengthBounds(src: Bytes, p: nat, nibble: nat)
    requires p <= |src| && ReadLength(src, p, nibble).Some?
    ensures p <= ReadLength(src, p, nibble).value.1 <= |src|
  {
  }

  /** One round of the decoder, case by case as the code returns or goes on. */
  lemma DecodeCases(src: Bytes, p: nat, out: Bytes, cap: nat)
    requires p < |src| && |out| <= cap
    ensures var l := ReadLength(src, p + 1, src[p] / 16);
      && (l.None? ==> DecodeFrom(src, p, out, cap).None?)
      && (l.Some? ==>
            var lit, q := l.value.0, l.value.1;
            if lit > |src| - q || lit > cap - |out| then DecodeFrom(src, p, out, cap).None?
            else
              var q1, out1 := q + lit, out + src[q..q + lit];
              if q1 == |src| then DecodeFrom(src, p, out, cap) == DecodeFrom(src, q1, out1, cap)
              else if |src| - q1 < 2 then DecodeFrom(src, p, out, cap).None?
              else MatchCases(src, q1, src[p] % 16, out1, cap, DecodeFrom(src, p, out, cap)))
  {
    hide ReadLength, CopyMatch;
    var l := ReadLength(src, p + 1, src[p] / 16);
    if l.Some? {
      var lit, q := l.value.0, l.value.1;
      if lit <= |src| - q && lit <= cap - |out| && q + lit == |src| {
        DecodeEnd(src, |src|, out + src[q..q + lit], cap);
      }
    }
  }

  ghost predicate MatchCases(src: Bytes, q: nat, low: nat, out: Bytes, cap: nat, r: Option<Bytes>)
    requires q + 2 <= |src|
  {
    var a: int, b: int := src[q], src[q + 1];
    var off := a + 256 * b;
    if off == 0 || off > |out| then r.None?
    else
      var m := ReadLength(src, q + 2, low);
      if m.None? || m.value.0 + 4 > cap - |out| then r.None?
      else r == DecodeFrom(src, m.value.1, CopyMatch(out, off, m.value.0 + 4), cap)
  }
}
