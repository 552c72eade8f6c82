/** kernel/dns.h:85-166: domain names on the wire (RFC 1035 sections 3.1 and 4.1.4).  Host
    names and packets are byte sequences; a C string ends where its sequence ends. */
module DnsName {
  import opened Octets
  import opened Options

  const DOT: Byte := 46

  /** Positions plus the longest step stay in a u16 for packets of at most this size. */
  const MAX_PACKET := 0xFF40

  // ---------- names as lists of labels ----------

  function Lower(b: Byte): Byte {
    if 65 <= b <= 90 then (var l: int := b + 32; l) else b
  }

  function LowerAll(s: Bytes): (r: Bytes)
    ensures |r| == |s|
  {
    seq(|s|, i requires 0 <= i < |s| => Lower(s[i]))
  }

  /** The position of the first dot at or after i, or the end. */
  function NextDot(host: Bytes, i: nat): (j: nat)
    requires i <= |host|
    ensures i <= j <= |host| && (j < |host| ==> host[j] == DOT) && forall k :: i <= k < j ==> host[k] != DOT
    decreases |host| - i
  {
    if i == |host| || host[i] == DOT then i else NextDot(host, i + 1)
  }

  /** The labels of a host name from position i on. */
  function Labels(host: Bytes, i: nat): (ls: seq<Bytes>)
    requires i <= |host|
    ensures |ls| > 0
    decreases |host| - i
  {
    var j := NextDot(host, i);
    if j == |host| then [host[i..j]] else [host[i..j]] + Labels(host, j + 1)
  }

  /** Labels in lower case with dots between them. */
  function Dotted(ls: seq<Bytes>): Bytes
    decreases |ls|
  {
    if |ls| == 0 then []
    else if |ls| == 1 then LowerAll(ls[0])
    else Dotted(ls[..|ls| - 1]) + [DOT] + LowerAll(ls[|ls| - 1])
  }

  /** Each label behind its length, then the root label. */
  function Wire(ls: seq<Bytes>): Bytes {
    if |ls| == 0 then [0] else LabelBytes(ls[0]) + Wire(ls[1..])
  }

  function LabelBytes(l: Bytes): (r: Bytes)
    ensures |r| == |l| + 1
  {
    var n: int := |l| % 256;
    [n] + l
  }

  /** Nonempty labels of at most 63 bytes. */
  predicate Proper(ls: seq<Bytes>) {
    forall i :: 0 <= i < |ls| ==> 1 <= |ls[i]| <= 63
  }

  // ---------- dns_encode_name ----------

  /** The label being written started at byte `start` of the host; the labels before it are
      on the wire, behind them a free length byte and the label's bytes so far. */
  ghost predicate EncodeInv(out: Bytes, host: Bytes, i: nat, start: nat, hole: nat, pos: nat, all: Bytes)
  {
    && start <= i <= |host| && NextDot(host, start) >= i
    && hole < pos <= |out| && pos == hole + 1 + (i - start)
    && out[hole + 1..pos] == host[start..i]
    && all == out[..hole] + Wire(Labels(host, start))
  }

  lemma EncodeStart(out: Bytes, host: Bytes)
    requires |out| >= 1
    ensures EncodeInv(out, host, 0, 0, 0, 1, Wire(Labels(host, 0)))
  {
    assert out[1..1] == [] && host[0..0] == [] && out[..0] == [];
  }

  /** An ordinary byte of a label. */
  lemma EncodeByte(out: Bytes, host: Bytes, i: nat, start: nat, hole: nat, pos: nat, all: Bytes)
    requires EncodeInv(out, host, i, start, hole, pos, all) && i < |host| && host[i] != DOT && pos < |out|
    ensures EncodeInv(out[pos := host[i]], host, i + 1, start, hole, pos + 1, all)
  {
    hide Labels, Wire;
    var next := out[pos := host[i]];
    assert next[hole + 1..pos + 1] == out[hole + 1..pos] + [host[i]];
    assert host[start..i + 1] == host[start..i] + [host[i]];
    assert next[..hole] == out[..hole];
  }

  lemma WireStep(host: Bytes, start: nat, i: nat)
    requires start <= i <= |host| && NextDot(host, start) == i
    ensures i < |host| ==> Wire(Labels(host, start)) == LabelBytes(host[start..i]) + Wire(Labels(host, i + 1))
    ensures i == |host| ==> Wire(Labels(host, start)) == LabelBytes(host[start..i]) + [0]
  {
    if i < |host| {
      assert ([host[start..i]] + Labels(host, i + 1))[1..] == Labels(host, i + 1);
    } else {
      assert [host[start..i]][1..] == [];
      assert Wire([]) == [0];
    }
  }

  /** The end of a label: its length goes into the hole. */
  lemma EncodeLabel(out: Bytes, host: Bytes, i: nat, start: nat, hole: nat, pos: nat, all: Bytes, n: Byte)
    requires EncodeInv(out, host, i, start, hole, pos, all) && (i == |host| || host[i] == DOT) && n == (i - start) % 256
    ensures out[hole := n][..pos] == out[..hole] + LabelBytes(host[start..i])
    ensures i < |host| && pos < |out| ==> EncodeInv(out[hole := n], host, i + 1, i + 1, pos, pos + 1, all)
    ensures i == |host| ==> all == out[hole := n][..pos] + [0]
  {
    hide Labels, Wire;
    var next := out[hole := n];
    assert NextDot(host, start) == i;
    WireStep(host, start, i);
    assert next[..pos] == next[..hole] + [next[hole]] + next[hole + 1..pos];
    assert next[..hole] == out[..hole] && next[hole + 1..pos] == out[hole + 1..pos];
    assert LabelBytes(host[start..i]) == [n] + host[start..i];
    if i < |host| {
      assert out[..hole] + (LabelBytes(host[start..i]) + Wire(Labels(host, i + 1)))
        == (out[..hole] + LabelBytes(host[start..i])) + Wire(Labels(host, i + 1));
      if pos < |out| {
        assert next[pos + 1..pos + 1] == [] && host[i + 1..i + 1] == [];
      }
    } else {
      assert out[..hole] + (LabelBytes(host[start..i]) + [0]) == (out[..hole] + LabelBytes(host[start..i])) + [0];
    }
  }

  /** kernel/dns.h dns_encode_name, for every host that fits the buffer. */
  method EncodeName(out: array<Byte>, host: Bytes) returns (len: nat)
    requires |host| + 2 <= out.Length && |host| + 2 < 0x1_0000
    modifies out
    ensures len <= out.Length && out[..len] == Wire(Labels(host, 0))
  {
    hide *;
    ghost var all := Wire(Labels(host, 0));
    var hole, pos := 0, 1;
    var count: Byte := 0;
    ghost var start := 0;
    EncodeStart(out[..], host);
    var i := 0;
    while true
      invariant 0 <= start <= i <= |host| && 0 <= hole < pos == i + 1 && count == (i - start) % 256
      invariant EncodeInv(out[..], host, i, start, hole, pos, all)
      decreases |host| - i
    {
      ghost var s := out[..];
      if i == |host| || host[i] == 46 {
        EncodeLabelAt(s, host, i, start, hole, pos, all, count);
        out[hole] := count;
        assert out[..] == s[hole := count];
        if i == |host| { break; }
        count := 0;
        hole := pos;
        pos := pos + 1;
        start := i + 1;
      } else {
        EncodeByteAt(s, host, i, start, hole, pos, all);
        out[pos] := host[i];
        assert out[..] == s[pos := host[i]];
        pos := pos + 1;
        var c: int := count;
        NextCount(c, i - start);
        count := (c + 1) % 256;
      }
      i := i + 1;
    }
    ghost var t := out[..];
    out[pos] := 0;
    assert out[..pos + 1] == t[..pos] + [0];
    len := pos + 1;
  }

  lemma NextCount(c: int, n: int)
    requires c == n % 256
    ensures (c + 1) % 256 == (n + 1) % 256
  {
  }

  lemma EncodeByteAt(out: Bytes, host: Bytes, i: nat, start: nat, hole: nat, pos: nat, all: Bytes)
    requires EncodeInv(out, host, i, start, hole, pos, all) && i < |host| && host[i] != 46 && pos < |out|
    ensures EncodeInv(out[pos := host[i]], host, i + 1, start, hole, pos + 1, all)
  {
    EncodeByte(out, host, i, start, hole, pos, all);
  }

  lemma EncodeLabelAt(out: Bytes, host: Bytes, i: nat, start: nat, hole: nat, pos: nat, all: Bytes, n: Byte)
    requires EncodeInv(out, host, i, start, hole, pos, all) && start <= i && n == (i - start) % 256
    requires i == |host| || (i < |host| && host[i] == 46)
    ensures hole < |out|
    ensures i < |host| && pos < |out| ==> EncodeInv(out[hole := n], host, i + 1, i + 1, pos, pos + 1, all)
    ensures i == |host| && pos <= |out| ==> all == out[hole := n][..pos] + [0]
  {
    EncodeLabel(out, host, i, start, hole, pos, all, n);
  }

  // ---------- dns_skip_name ----------

  /** The position behind the name at p, if the packet does not end inside it. */
  function SkipTo(data: Bytes, p: nat): (r: Option<nat>)
    ensures r.Some? ==> p < r.value <= |data|
    decreases |data| - p
  {
    if p >= |data| then None
    else
      var b := data[p];
      if b >= 0xC0 then (if p + 2 > |data| then None else Some(p + 2))
      else if b == 0 then Some(p + 1)
      else SkipTo(data, p + 1 + b)
  }

  /** kernel/dns.h dns_skip_name: bytes consumed, 0 for a name that runs off the packet. */
  method SkipName(data: Bytes, offset: nat) returns (n: nat)
    requires |data| <= MAX_PACKET && offset < 0x1_0000
    ensures n == if SkipTo(data, offset).Some? then SkipTo(data, offset).value - offset else 0
  {
    var pos := offset;
    while pos < |data|
      invariant offset <= pos && SkipTo(data, pos) == SkipTo(data, offset)
      decreases |data| - pos
    {
      var b: int := data[pos];
      if b / 64 == 3 {
        if pos + 2 > |data| { return 0; }
        return (pos + 2 - offset) % 0x1_0000;
      }
      if b == 0 { return (pos + 1 - offset) % 0x1_0000; }
      pos := (pos + 1 + b) % 0x1_0000;
    }
    return 0;
  }

  // ---------- dns_decode_name ----------

  /** The labels of the name at p, following at most `hops` compression pointers, each to an
      earlier position. */
  function NameAt(data: Bytes, p: nat, hops: nat): Option<seq<Bytes>>
    decreases hops, |data| - p
  {
    if p >= |data| then None
    else
      var b: int := data[p];
      if b >= 0xC0 then
        if p + 1 >= |data| || Pointer(b, data[p + 1]) >= p || hops == 0 then None
        else NameAt(data, Pointer(b, data[p + 1]), hops - 1)
      else if b >= 0x40 then None
      else if b == 0 then Some([])
      else if p + 1 + b > |data| then None
      else
        var rest := NameAt(data, p + 1 + b, hops);
        if rest.None? then None else Some([data[p + 1..p + 1 + b]] + rest.value)
  }

  /** The 14-bit offset of a compression pointer. */
  function Pointer(b: int, low: Byte): nat
    requires 0xC0 <= b < 0x100
  {
    256 * (b - 0xC0) + low
  }

  /** The name with the labels already read in front. */
  function Behind(seen: seq<Bytes>, rest: Option<seq<Bytes>>): Option<seq<Bytes>> {
    if rest.None? then None else Some(seen + rest.value)
  }

  /** What fits the caller's buffer with its terminating zero. */
  function Fitting(name: Option<seq<Bytes>>, cap: nat): Option<Bytes> {
    if name.None? || |Dotted(name.value)| >= cap then None else Some(Dotted(name.value))
  }

  lemma DottedMore(seen: seq<Bytes>, l: Bytes)
    ensures Dotted(seen + [l]) == if |seen| == 0 then LowerAll(l) else Dotted(seen) + [DOT] + LowerAll(l)
  {
    assert (seen + [l])[..|seen|] == seen;
  }

  lemma {:induction false} DottedGrows(seen: seq<Bytes>, more: seq<Bytes>)
    ensures |Dotted(seen)| <= |Dotted(seen + more)|
    decreases |more|
  {
    hide LowerAll;
    if |more| == 0 {
      assert seen + more == seen;
    } else {
      var n := |more| - 1;
      DottedGrows(seen, more[..n]);
      assert seen + more == (seen + more[..n]) + [more[n]];
      DottedMore(seen + more[..n], more[n]);
    }
  }

  /** Nonempty labels make nonempty text. */
  lemma DottedNonempty(seen: seq<Bytes>)
    requires Proper(seen)
    ensures |Dotted(seen)| == 0 <==> |seen| == 0
  {
  }

  /** A name whose beginning does not fit does not fit. */
  lemma TooLong(seen: seq<Bytes>, rest: Option<seq<Bytes>>, cap: nat)
    requires |Dotted(seen)| >= cap
    ensures Fitting(Behind(seen, rest), cap).None?
  {
    if rest.Some? { DottedGrows(seen, rest.value); }
  }

  /** One label of the text, lower-cased, into the buffer. */
  method PutLabel(data: Bytes, p: nat, b: nat, text: Bytes) returns (r: Bytes)
    requires p + 1 + b <= |data|
    ensures r == text + LowerAll(data[p + 1..p + 1 + b])
  {
    r := text;
    for i := 0 to b
      invariant r == text + LowerAll(data[p + 1..p + 1 + i])
    {
      var c := data[p + 1 + i];
      if 65 <= c <= 90 {
        var l: int := c + 32;
        c := l;
      }
      assert data[p + 1..p + 1 + i + 1] == data[p + 1..p + 1 + i] + [data[p + 1 + i]];
      r := r + [c];
    }
  }

  /** kernel/dns.h dns_decode_name: the text of the name, or nothing for a malformed or too
      long one.  It ends on every packet, pointers that reach themselves included. */
  method DecodeName(data: Bytes, pos: nat, cap: nat) returns (text: Option<Bytes>)
    requires |data| <= MAX_PACKET && pos < 0x1_0000 && 1 <= cap <= MAX_PACKET
    ensures text == Fitting(NameAt(data, pos, 16), cap)
  {
    hide NameAt, Dotted, LowerAll, Fitting;
    ghost var whole := NameAt(data, pos, 16);
    ghost var seen: seq<Bytes> := [];
    var out: Bytes := [];
    var p: nat, hops: nat := pos, 0;
    DottedNothing(whole);
    while true
      invariant hops <= 16 && Proper(seen) && out == Dotted(seen) && |out| < cap
      invariant whole == Behind(seen, NameAt(data, p, 16 - hops))
      decreases 16 - hops, |data| - p
    {
      NameCases(data, p, 16 - hops);
      FitNone(cap);
      if p >= |data| { return None; }
      var b: int := data[p];
      if b / 64 == 3 {
        if p + 1 >= |data| { return None; }
        var ptr := Pointer(b, data[p + 1]);
        hops := hops + 1;
        if ptr >= p || hops > 16 { return None; }
        p := ptr;
        continue;
      }
      if b / 64 != 0 { return None; }
      if b == 0 {
        assert seen + [] == seen;
        FitSome(seen, cap);
        return Some(out);
      }
      if (p + 1 + b) % 0x1_0000 > |data| { return None; }
      ghost var l := data[p + 1..p + 1 + b];
      ghost var rest := NameAt(data, p + 1 + b, 16 - hops);
      DottedMore(seen, l);
      DottedNonempty(seen);
      LowerSize(l);
      BehindMore(seen, l, rest);
      if |Dotted(seen + [l])| >= cap { TooLong(seen + [l], rest, cap); }
      if |out| != 0 {
        if |out| + 1 >= cap { return None; }
        out := out + [46];
      }
      if (|out| + b) % 0x1_0000 >= cap { return None; }
      out := PutLabel(data, p, b, out);
      seen := seen + [l];
      p := (p + 1 + b) % 0x1_0000;
    }
  }

  lemma LowerSize(l: Bytes)
    ensures |LowerAll(l)| == |l|
  {
  }

  lemma DottedNothing(whole: Option<seq<Bytes>>)
    ensures Dotted([]) == [] && whole == Behind([], whole)
  {
    if whole.Some? { assert [] + whole.value == whole.value; }
  }

  lemma FitNone(cap: nat)
    ensures Fitting(None, cap).None?
  {
  }

  lemma FitSome(seen: seq<Bytes>, cap: nat)
    requires |Dotted(seen)| < cap
    ensures Fitting(Some(seen), cap) == Some(Dotted(seen))
  {
  }

  lemma BehindMore(seen: seq<Bytes>, l: Bytes, rest: Option<seq<Bytes>>)
    ensures rest.Some? ==> Behind(seen, Some([l] + rest.value)) == Behind(seen + [l], rest)
  {
    if rest.Some? { assert seen + ([l] + rest.value) == (seen + [l]) + rest.value; }
  }

  /** One round of the reading, case by case. */
  lemma NameCases(data: Bytes, p: nat, hops: nat)
    ensures p >= |data| ==> NameAt(data, p, hops).None?
    ensures p < |data| && data[p] / 64 == 3 ==>
      if p + 1 >= |data| || Pointer(data[p], data[p + 1]) >= p || hops == 0 then NameAt(data, p, hops).None?
      else NameAt(data, p, hops) == NameAt(data, Pointer(data[p], data[p + 1]), hops - 1)
    ensures p < |data| && (data[p] / 64 == 1 || data[p] / 64 == 2) ==> NameAt(data, p, hops).None?
    ensures p < |data| && data[p] == 0 ==> NameAt(data, p, hops) == Some([])
    ensures p < |data| && 1 <= data[p] < 64 ==>
      if p + 1 + data[p] > |data| then NameAt(data, p, hops).None?
      else
        var rest := NameAt(data, p + 1 + data[p], hops);
        NameAt(data, p, hops) == if rest.None? then None else Some([data[p + 1..p + 1 + data[p]]] + rest.value)
  {
  }

  /** A name that decodes can be skipped. */
  lemma {:induction false} DecodedSkips(data: Bytes, p: nat, hops: nat)
    requires NameAt(data, p, hops).Some?
    ensures SkipTo(data, p).Some?
    decreases |data| - p
  {
    var b: int := data[p];
    if 1 <= b < 0x40 {
      DecodedSkips(data, p + 1 + b, hops);
    }
  }

  // ---------- encoding and decoding ----------

  /** The labels on the wire are read back, wherever in a packet they stand. */
  lemma {:induction false} WireReadBack(data: Bytes, p: nat, ls: seq<Bytes>, hops: nat)
    requires Proper(ls) && p + |Wire(ls)| <= |data| && data[p..p + |Wire(ls)|] == Wire(ls)
    ensures NameAt(data, p, hops) == Some(ls) && SkipTo(data, p) == Some(p + |Wire(ls)|)
    decreases |ls|
  {
    if |ls| == 0 {
      assert data[p] == data[p..p + 1][0];
    } else {
      var l, rest := ls[0], ls[1..];
      var q := p + 1 + |l|;
      LabelThere(data, p, l, Wire(rest));
      WireReadBack(data, q, rest, hops);
      assert ls == [l] + rest;
    }
  }

  lemma LabelThere(data: Bytes, p: nat, l: Bytes, rest: Bytes)
    requires 1 <= |l| <= 63 && p + |l| + 1 + |rest| <= |data|
    requires data[p..p + |l| + 1 + |rest|] == LabelBytes(l) + rest
    ensures data[p] == |l| && data[p + 1..p + 1 + |l|] == l && data[p + 1 + |l|..p + 1 + |l| + |rest|] == rest
  {
    var w := data[p..p + |l| + 1 + |rest|];
    assert data[p] == w[0];
    forall k | 0 <= k < |l| ensures data[p + 1 + k] == l[k] {
      assert data[p + 1 + k] == w[1 + k];
    }
    forall k | 0 <= k < |rest| ensures data[p + 1 + |l| + k] == rest[k] {
      assert data[p + 1 + |l| + k] == w[1 + |l| + k];
    }
  }

  lemma LowerJoin(a: Bytes, b: Bytes)
    ensures LowerAll(a + b) == LowerAll(a) + LowerAll(b)
  {
  }

  lemma LowerDot()
    ensures LowerAll([DOT]) == [DOT]
  {
  }

  /** Joining the labels of a host again gives the host in lower case. */
  lemma {:induction false} LabelsJoin(host: Bytes, i: nat, seen: seq<Bytes>)
    requires i <= |host| && (if |seen| == 0 then i == 0 else i > 0 && host[i - 1] == DOT && Dotted(seen) == LowerAll(host[..i - 1]))
    ensures Dotted(seen + Labels(host, i)) == LowerAll(host)
    decreases |host| - i
  {
    hide Dotted, LowerAll;
    var j := NextDot(host, i);
    var l := host[i..j];
    DottedMore(seen, l);
    if |seen| == 0 {
      assert host[..j] == l;
    } else {
      assert host[..j] == host[..i - 1] + [DOT] + l;
      LowerJoin(host[..i - 1] + [DOT], l);
      LowerJoin(host[..i - 1], [DOT]);
      LowerDot();
    }
    assert Dotted(seen + [l]) == LowerAll(host[..j]);
    if j == |host| {
      assert host[..j] == host;
    } else {
      LabelsJoin(host, j + 1, seen + [l]);
      assert host[..j + 1 - 1] == host[..j];
      assert seen + ([l] + Labels(host, j + 1)) == (seen + [l]) + Labels(host, j + 1);
    }
  }

  /** The round trip: a host of proper labels, encoded anywhere in a packet, decodes to itself
      in lower case if that fits, and skipping consumes exactly the encoded bytes. */
  lemma NameRoundTrip(data: Bytes, p: nat, host: Bytes, cap: nat)
    requires Proper(Labels(host, 0)) && p + |Wire(Labels(host, 0))| <= |data| && |host| < cap
    requires data[p..p + |Wire(Labels(host, 0))|] == Wire(Labels(host, 0))
    ensures Fitting(NameAt(data, p, 16), cap) == Some(LowerAll(host))
    ensures SkipTo(data, p) == Some(p + |Wire(Labels(host, 0))|)
  {
    hide Dotted, Labels, Wire, NameAt, SkipTo;
    WireReadBack(data, p, Labels(host, 0), 16);
    LabelsJoin(host, 0, []);
    assert [] + Labels(host, 0) == Labels(host, 0);
  }

  // ---------- compressed names ----------

  /** Labels that stand together in a packet. */
  datatype Piece = Piece(at: nat, ls: seq<Bytes>) {
    function End(): nat {
      at + |Run(ls)|
    }
  }

  /** The labels behind their lengths, without an end. */
  function Run(ls: seq<Bytes>): Bytes {
    if |ls| == 0 then [] else LabelBytes(ls[0]) + Run(ls[1..])
  }

  predicate Holds(data: Bytes, p: Piece) {
    Proper(p.ls) && p.End() <= |data| && data[p.at..p.End()] == Run(p.ls)
  }

  /** A compression pointer of RFC 1035 section 4.1.4: two set bits and the 14 bits of an offset,
      the high byte first; the offset must lie before the pointer. */
  predicate PointsTo(data: Bytes, e: nat, q: nat) {
    e + 1 < |data| && q < e && q < 0x4000 && data[e] == 0xC0 + q / 256 && data[e + 1] == q % 256
  }

  /** A name at p: pieces that each lead to the next by a pointer, the last one ended by a zero. */
  ghost predicate Chain(data: Bytes, p: nat, c: seq<Piece>) {
    && |c| > 0 && c[0].at == p && (forall k :: 0 <= k < |c| ==> Holds(data, c[k]))
    && (forall k :: 0 <= k < |c| - 1 ==> PointsTo(data, c[k].End(), c[k + 1].at))
    && c[|c| - 1].End() < |data| && data[c[|c| - 1].End()] == 0
  }

  function Joined(c: seq<Piece>): seq<Bytes> {
    if |c| == 0 then [] else c[0].ls + Joined(c[1..])
  }

  /** One label at p. */
  predicate LabelAt(data: Bytes, p: nat, l: Bytes) {
    1 <= |l| <= 63 && p + 1 + |l| <= |data| && data[p] == |l| && data[p + 1..p + 1 + |l|] == l
  }

  lemma HoldsFirst(data: Bytes, at: nat, ls: seq<Bytes>)
    requires |ls| > 0
    ensures Holds(data, Piece(at, ls))
      <==> LabelAt(data, at, ls[0]) && Holds(data, Piece(at + 1 + |ls[0]|, ls[1..]))
    ensures Piece(at, ls).End() == Piece(at + 1 + |ls[0]|, ls[1..]).End()
  {
    var l, rest := ls[0], Run(ls[1..]);
    assert Run(ls) == LabelBytes(l) + rest && |Run(ls)| == 1 + |l| + |rest|;
    if Holds(data, Piece(at, ls)) {
      LabelThere(data, at, l, rest);
    }
  }

  /** The first piece loses its first label. */
  lemma ChainFirst(data: Bytes, p: nat, c: seq<Piece>)
    requires |c| > 0 && |c[0].ls| > 0
    ensures var l := c[0].ls[0]; var d := [Piece(p + 1 + |l|, c[0].ls[1..])] + c[1..];
      && (Chain(data, p, c) <==> c[0].at == p && LabelAt(data, p, l) && Chain(data, p + 1 + |l|, d))
      && Joined(c) == [l] + Joined(d) && |d| == |c|
  {
    hide Holds, PointsTo, LabelAt, Run;
    var l := c[0].ls[0];
    var d := [Piece(p + 1 + |l|, c[0].ls[1..])] + c[1..];
    HoldsFirst(data, c[0].at, c[0].ls);
    assert d[1..] == c[1..] && c[0].ls == [l] + c[0].ls[1..];
    assert forall k :: 1 <= k < |c| ==> d[k] == c[k];
    assert c[0] == Piece(c[0].at, c[0].ls);
    if c[0].at == p {
      assert d[0].End() == c[0].End();
      assert forall k :: 0 <= k < |c| ==> d[k].End() == c[k].End();
      assert Holds(data, c[0]) <==> LabelAt(data, p, l) && Holds(data, d[0]);
    }
  }

  lemma NoLabelFirst(data: Bytes, p: nat, c: seq<Piece>)
    requires Chain(data, p, c) && |c[0].ls| == 0
    ensures |c| == 1 ==> p < |data| && data[p] == 0 && Joined(c) == []
    ensures |c| > 1 ==> PointsTo(data, p, c[1].at) && Chain(data, c[1].at, c[1..]) && Joined(c) == Joined(c[1..])
  {
    hide PointsTo, Holds;
    assert c[0].End() == p;
    if |c| == 1 {
      assert c[1..] == [];
    }
  }

  lemma PointerRead(data: Bytes, p: nat, q: nat)
    requires PointsTo(data, p, q)
    ensures p + 1 < |data| && data[p] >= 0xC0 && Pointer(data[p], data[p + 1]) == q < p
  {
  }

  /** A name that its pieces lead through is read, and skipped where its first piece ends. */
  lemma {:induction false} ChainReads(data: Bytes, p: nat, c: seq<Piece>, hops: nat)
    requires Chain(data, p, c) && |c| - 1 <= hops
    ensures NameAt(data, p, hops) == Some(Joined(c))
    ensures SkipTo(data, p) == Some(c[0].End() + if |c| == 1 then 1 else 2)
    decreases |c|, |c[0].ls|
  {
    hide Joined, Chain, PointsTo, Run, Pointer;
    ChainNonempty(data, p, c);
    if |c[0].ls| > 0 {
      var l := c[0].ls[0];
      var d := [Piece(p + 1 + |l|, c[0].ls[1..])] + c[1..];
      ChainFirst(data, p, c);
      HoldsFirst(data, p, c[0].ls);
      assert c[0] == Piece(p, c[0].ls);
      ChainReads(data, p + 1 + |l|, d, hops);
    } else {
      NoLabelFirst(data, p, c);
      EmptyRun(c[0]);
      if |c| > 1 {
        PointerRead(data, p, c[1].at);
        ChainReads(data, c[1].at, c[1..], hops - 1);
      }
    }
  }

  lemma ChainNonempty(data: Bytes, p: nat, c: seq<Piece>)
    requires Chain(data, p, c)
    ensures |c| > 0 && c[0].at == p
  {
  }

  lemma EmptyRun(p: Piece)
    requires |p.ls| == 0
    ensures p.End() == p.at
  {
  }

  /** What is read stands in pieces in the packet. */
  lemma {:induction false} ReadIsChain(data: Bytes, p: nat, hops: nat) returns (c: seq<Piece>)
    requires NameAt(data, p, hops).Some?
    ensures Chain(data, p, c) && |c| - 1 <= hops && Joined(c) == NameAt(data, p, hops).value
    decreases hops, |data| - p
  {
    hide Joined, Chain, PointsTo, Run, Pointer;
    var b: int := data[p];
    if b >= 0xC0 {
      var q := Pointer(b, data[p + 1]);
      var d := ReadIsChain(data, q, hops - 1);
      c := [Piece(p, [])] + d;
      PointerPoints(data, p);
      ChainBehind(data, p, q, d);
    } else if b == 0 {
      c := [Piece(p, [])];
      ChainEnd(data, p);
    } else {
      var l := data[p + 1..p + 1 + b];
      var d := ReadIsChain(data, p + 1 + b, hops);
      ChainNonempty(data, p + 1 + b, d);
      c := [Piece(p, [l] + d[0].ls)] + d[1..];
      assert ([l] + d[0].ls)[1..] == d[0].ls;
      assert [Piece(p + 1 + |l|, d[0].ls)] + d[1..] == d;
      assert [Piece(p + 1 + |l|, c[0].ls[1..])] + c[1..] == d;
      ChainFirst(data, p, c);
    }
  }

  lemma PointerPoints(data: Bytes, p: nat)
    requires p + 1 < |data| && data[p] >= 0xC0 && Pointer(data[p], data[p + 1]) < p
    ensures PointsTo(data, p, Pointer(data[p], data[p + 1]))
  {
  }

  lemma ChainEnd(data: Bytes, p: nat)
    requires p < |data| && data[p] == 0
    ensures Chain(data, p, [Piece(p, [])]) && Joined([Piece(p, [])]) == []
  {
    assert Holds(data, Piece(p, []));
    assert [Piece(p, [])][1..] == [];
  }

  lemma NothingHolds(data: Bytes, p: nat, q: nat)
    requires PointsTo(data, p, q)
    ensures Holds(data, Piece(p, []))
  {
    assert data[p..p] == [];
  }

  lemma ChainBehind(data: Bytes, p: nat, q: nat, d: seq<Piece>)
    requires PointsTo(data, p, q) && Chain(data, q, d)
    ensures var c := [Piece(p, [])] + d; Chain(data, p, c) && Joined(c) == Joined(d)
  {
    hide PointsTo;
    var c := [Piece(p, [])] + d;
    EmptyRun(c[0]);
    NothingHolds(data, p, q);
    assert c[1..] == d && forall k :: 0 <= k < |d| ==> c[k + 1] == d[k];
    forall k | 0 <= k < |c| - 1
      ensures PointsTo(data, c[k].End(), c[k + 1].at)
    {
      if k > 0 { assert c[k] == d[k - 1]; }
    }
    forall k | 0 <= k < |c|
      ensures Holds(data, c[k])
    {
      if k > 0 { assert c[k] == d[k - 1]; }
    }
  }

  /** Exactly the names whose pieces lead to a zero byte over at most that many pointers, each to
      an earlier place, are read, and as the labels of the pieces in order. */
  lemma ReadExactlyWhen(data: Bytes, p: nat, hops: nat, ls: seq<Bytes>)
    ensures NameAt(data, p, hops) == Some(ls) <==> exists c :: Chain(data, p, c) && |c| - 1 <= hops && Joined(c) == ls
  {
    hide Chain, Joined, NameAt;
    if NameAt(data, p, hops) == Some(ls) {
      var c := ReadIsChain(data, p, hops);
    }
    if c :| Chain(data, p, c) && |c| - 1 <= hops && Joined(c) == ls {
      ChainReads(data, p, c, hops);
    }
  }

  /** A compressed name is read back: labels, then a pointer to labels on the wire before it. */
  lemma CompressedReadBack(data: Bytes, p: nat, pre: seq<Bytes>, q: nat, ls: seq<Bytes>, hops: nat)
    requires Proper(pre) && Proper(ls) && hops >= 1
    requires p + |Run(pre)| + 1 < |data| && data[p..p + |Run(pre)|] == Run(pre)
    requires q < p + |Run(pre)| && q < 0x4000
    requires data[p + |Run(pre)|] == 0xC0 + q / 256 && data[p + |Run(pre)| + 1] == q % 256
    requires q + |Wire(ls)| <= |data| && data[q..q + |Wire(ls)|] == Wire(ls)
    ensures NameAt(data, p, hops) == Some(pre + ls) && SkipTo(data, p) == Some(p + |Run(pre)| + 2)
  {
    hide NameAt, SkipTo, Run, Wire, Joined, Chain;
    var c := [Piece(p, pre), Piece(q, ls)];
    WireThere(data, q, ls);
    TwoPieces(data, p, c);
    ChainReads(data, p, c, hops);
  }

  lemma TwoPieces(data: Bytes, p: nat, c: seq<Piece>)
    requires |c| == 2 && c[0].at == p && Holds(data, c[0]) && Holds(data, c[1]) && PointsTo(data, c[0].End(), c[1].at)
    requires c[1].End() < |data| && data[c[1].End()] == 0
    ensures Chain(data, p, c) && Joined(c) == c[0].ls + c[1].ls
  {
    hide Holds, PointsTo;
    assert c[1..] == [c[1]] && c[1..][1..] == [];
    assert Joined(c[1..]) == c[1].ls;
  }

  lemma WireThere(data: Bytes, q: nat, ls: seq<Bytes>)
    requires Proper(ls) && q + |Wire(ls)| <= |data| && data[q..q + |Wire(ls)|] == Wire(ls)
    ensures var e := Piece(q, ls).End(); Holds(data, Piece(q, ls)) && e < |data| && data[e] == 0
  {
    hide Run, Wire;
    WireIsRun(ls);
    var w, n := data[q..q + |Wire(ls)|], |Run(ls)|;
    assert data[q..q + n] == w[..n] && data[q + n] == w[n];
  }

  lemma {:induction false} WireIsRun(ls: seq<Bytes>)
    ensures Wire(ls) == Run(ls) + [0]
    decreases |ls|
  {
    if |ls| > 0 {
      WireIsRun(ls[1..]);
      assert LabelBytes(ls[0]) + (Run(ls[1..]) + [0]) == (LabelBytes(ls[0]) + Run(ls[1..])) + [0];
    }
  }
}
