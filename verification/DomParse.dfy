/** kernel/dom.h:645-809: the tokenizer.  For every byte string it terminates, the builder's
    invariant holds after every token, and while the arenas have room every token does to the
    document exactly what its relation says. */
module DomParse {
  import opened Options
  import opened DomTree
  import opened DomArena
  import opened DomTags
  import opened DomChars
  import opened Scanning
  import opened DomBuild

  // ---------- attribute values ----------

  /** The code point at k of an attribute value, and where the next one starts. */
  function ValueCharAt(t: Tables, v: Bytes, k: nat): (r: (nat, nat))
    requires k < |v|
  {
    var e := if v[k] == '&' then t.entity(v[k + 1..], true) else None;
    if e.Some? then (k + 1 + e.value.0, e.value.1)
    else
      var u := Utf8(v[k..]);
      (k + u.0, u.1)
  }

  lemma ValueCharMoves(t: Tables, v: Bytes, k: nat)
    requires k < |v| && t.Bounded()
    ensures k < ValueCharAt(t, v, k).0 <= |v|
  {
    hide Utf8;
    if v[k] == '&' {
      assert t.entity(v[k + 1..], true).Some? ==> t.entity(v[k + 1..], true).value.0 <= |v[k + 1..]|;
    }
  }

  /** The bytes one code point of a value leaves in the pool: line breaks become blanks. */
  function ValueShown(t: Tables, cp: nat): Bytes {
    if cp == 13 || cp == 10 || cp == 9 || cp == 12 then " "
    else if cp >= 0x80 then t.drawn(cp)
    else if cp >= 0x20 && cp != 0x7F then [cp as char] else ""
  }

  ghost function ValueText(t: Tables, v: Bytes, k: nat): Bytes
    requires t.Bounded()
    decreases |v| - k
  {
    if k >= |v| then ""
    else
      ValueCharMoves(t, v, k);
      ValueShown(t, ValueCharAt(t, v, k).1) + ValueText(t, v, ValueCharAt(t, v, k).0)
  }

  lemma ValueOnce(t: Tables, v: Bytes, k: nat)
    requires t.Bounded()
    ensures k >= |v| ==> ValueText(t, v, k) == ""
    ensures k < |v| ==>
      var r := ValueCharAt(t, v, k);
      ValueText(t, v, k) == ValueShown(t, r.1) + ValueText(t, v, r.0)
  {
  }

  /** dom_pool_putc over several bytes. */
  method PutAll(d: Dom, out: Bytes)
    requires |d.pool| <= 0x4_0000
    modifies d`pool, d`truncated
    ensures |d.pool| <= 0x4_0000 && old(d.pool) <= d.pool && (old(d.truncated) ==> d.truncated)
    ensures !d.truncated ==> d.pool == old(d.pool) + out
  {
    assert old(d.pool) + out[..0] == old(d.pool);
    for j := 0 to |out|
      invariant |d.pool| <= 0x4_0000 && old(d.pool) <= d.pool && (old(d.truncated) ==> d.truncated)
      invariant !d.truncated ==> d.pool == old(d.pool) + out[..j]
    {
      if |d.pool| + 8 < 0x4_0000 { d.pool := d.pool + [out[j]]; } else { d.truncated := true; }
      assert out[..j + 1] == out[..j] + [out[j]];
    }
    assert out[..|out|] == out;
  }

  /** The value loop of dom_parse_attrs. */
  method PutValue(d: Dom, t: Tables, v: Bytes)
    requires |d.pool| <= 0x4_0000 && t.Bounded()
    modifies d`pool, d`truncated
    ensures |d.pool| <= 0x4_0000 && old(d.pool) <= d.pool && (old(d.truncated) ==> d.truncated)
    ensures !d.truncated ==> d.pool == old(d.pool) + ValueText(t, v, 0)
  {
    hide *;
    ghost var done := "";
    var k := 0;
    assert old(d.pool) + done == old(d.pool) && done + ValueText(t, v, 0) == ValueText(t, v, 0);
    while k < |v| && !d.truncated
      invariant k <= |v| && |d.pool| <= 0x4_0000 && old(d.pool) <= d.pool && (old(d.truncated) ==> d.truncated)
      invariant !d.truncated ==> d.pool == old(d.pool) + done
      invariant ValueText(t, v, 0) == done + ValueText(t, v, k)
      decreases |v| - k
    {
      ValueCharMoves(t, v, k);
      ValueOnce(t, v, k);
      var r := ValueCharAt(t, v, k);
      var out := ValueShown(t, r.1);
      PutAll(d, out);
      Shift(done, out, ValueText(t, v, r.0), old(d.pool));
      done := done + out;
      k := r.0;
    }
    if !d.truncated {
      ValueOnce(t, v, k);
      assert done + "" == done;
    }
  }

  // ---------- scanning ----------

  predicate NotWs(c: char) {
    !IsWs(c)
  }

  predicate IsGt(c: char) {
    c == '>'
  }

  predicate IsLt(c: char) {
    c == '<'
  }

  predicate IsDouble(c: char) {
    c == '"'
  }

  predicate IsSingle(c: char) {
    c == '\''
  }

  predicate EndsName(c: char) {
    IsWs(c) || c == '/' || c == '>'
  }

  predicate EndsBare(c: char) {
    IsWs(c) || c == '>'
  }

  /** Behind the next '>', or the end. */
  function Behind(h: Bytes, i: nat): (r: nat)
    requires i <= |h|
    ensures i <= r <= |h| && (i < |h| ==> i < r)
  {
    var j := Scan(h, i, IsGt);
    if j < |h| then j + 1 else |h|
  }

  method SkipBehind(h: Bytes, i: nat) returns (r: nat)
    requires i <= |h|
    ensures r == Behind(h, i)
  {
    var j := Skip(h, i, IsGt);
    r := if j < |h| then j + 1 else |h|;
  }

  /** The lower-case name h[ns..j], cut to 15 bytes. */
  function NameOf(h: Bytes, ns: nat, j: nat): Bytes
    requires ns <= j <= |h|
  {
    LowerAll(if j - ns > 15 then h[ns..ns + 15] else h[ns..j])
  }

  predicate SlashGt(h: Bytes, i: nat) {
    i + 1 < |h| && h[i] == '/' && h[i + 1] == '>'
  }

  /** Over the blanks and slashes before an attribute, and whether a "/>" was among them. */
  function ToAttr(h: Bytes, i: nat): (r: (nat, bool))
    requires i <= |h|
    ensures i <= r.0 <= |h| && (r.0 < |h| ==> !IsWs(h[r.0]) && h[r.0] != '/')
    decreases |h| - i
  {
    if i < |h| && (IsWs(h[i]) || h[i] == '/') then
      var r := ToAttr(h, i + 1);
      (r.0, r.1 || SlashGt(h, i))
    else (i, false)
  }

  method SkipToAttr(h: Bytes, i0: nat) returns (i: nat, selfclose: bool)
    requires i0 <= |h|
    ensures (i, selfclose) == ToAttr(h, i0)
  {
    i, selfclose := i0, false;
    while i < |h| && (IsWs(h[i]) || h[i] == '/')
      invariant i0 <= i <= |h| && ToAttr(h, i0) == (ToAttr(h, i).0, ToAttr(h, i).1 || selfclose)
    {
      if h[i] == '/' && i + 1 < |h| && h[i + 1] == '>' { selfclose := true; }
      i := i + 1;
    }
  }

  predicate EndsAttr(h: Bytes, i: nat)
    requires i < |h|
  {
    IsWs(h[i]) || h[i] == '=' || h[i] == '>' || SlashGt(h, i)
  }

  /** The end of the attribute name that starts at or before i. */
  function AttrEnd(h: Bytes, i: nat): (r: nat)
    requires i <= |h|
    ensures i <= r <= |h| && (r < |h| ==> EndsAttr(h, r)) && forall k :: i <= k < r ==> !EndsAttr(h, k)
    decreases |h| - i
  {
    if i == |h| || EndsAttr(h, i) then i else AttrEnd(h, i + 1)
  }

  /** An attribute: its name, its value h[vs..ve] and the offset behind it. */
  datatype AttrText = AttrText(name: Bytes, vs: nat, ve: nat, next: nat)

  /** The end of a quoted value. */
  function QuoteEnd(h: Bytes, q: char, i: nat): (r: nat)
    requires i <= |h|
    ensures i <= r <= |h|
  {
    if q == '"' then Scan(h, i, IsDouble) else Scan(h, i, IsSingle)
  }

  /** What follows an attribute's name at p: perhaps '=' and a value.  The value h[vs..ve] and
      the offset behind it. */
  function ValueAt(h: Bytes, p: nat): (r: (nat, nat, nat))
    requires p <= |h|
    ensures p <= r.0 <= r.1 <= r.2 <= |h| && (p < |h| && h[p] == '=' ==> p < r.2)
  {
    if p < |h| && h[p] == '=' then
      var v := Scan(h, p + 1, NotWs);
      if v < |h| && (h[v] == '"' || h[v] == '\'') then
        var e := QuoteEnd(h, h[v], v + 1);
        (v + 1, e, if e < |h| then e + 1 else e)
      else
        var e := Scan(h, v, EndsBare);
        (v, e, e)
    else (p, p, p)
  }

  /** The attribute that starts at i: its name, blanks, and what follows. */
  function AttrAt(h: Bytes, i: nat): (r: AttrText)
    requires i <= |h|
    ensures r.vs <= r.ve <= r.next <= |h|
  {
    var e := AttrEnd(h, i);
    var v := ValueAt(h, Scan(h, e, NotWs));
    AttrText(NameOf(h, i, e), v.0, v.1, v.2)
  }

  lemma AttrMoves(h: Bytes, i: nat)
    requires i < |h| && !IsWs(h[i]) && h[i] != '/' && h[i] != '>'
    ensures i < AttrAt(h, i).next
  {
    hide ValueAt, NameOf;
    if h[i] == '=' {
      assert AttrEnd(h, i) == i && Scan(h, i, NotWs) == i;
    } else {
      assert !EndsAttr(h, i);
    }
  }

  method ReadValue(h: Bytes, p: nat) returns (vs: nat, ve: nat, next: nat)
    requires p <= |h|
    ensures (vs, ve, next) == ValueAt(h, p)
  {
    hide Scan;
    if p >= |h| || h[p] != '=' { return p, p, p; }
    var i := Skip(h, p + 1, NotWs);
    if i < |h| && (h[i] == '"' || h[i] == '\'') {
      var e;
      if h[i] == '"' { e := Skip(h, i + 1, IsDouble); } else { e := Skip(h, i + 1, IsSingle); }
      return i + 1, e, if e < |h| then e + 1 else e;
    }
    var e := Skip(h, i, EndsBare);
    return i, e, e;
  }

  method OneAttr(h: Bytes, i0: nat) returns (a: AttrText)
    requires i0 <= |h|
    ensures a == AttrAt(h, i0)
  {
    hide NameOf, ValueAt, Scan, EndsAttr;
    var i := i0;
    while i < |h| && !EndsAttr(h, i)
      invariant i0 <= i <= |h| && AttrEnd(h, i) == AttrEnd(h, i0)
    {
      i := i + 1;
    }
    var p := Skip(h, i, NotWs);
    var vs, ve, next := ReadValue(h, p);
    a := AttrText(NameOf(h, i0, i), vs, ve, next);
  }

  // ---------- attributes ----------

  /** A kept attribute goes to the end of the arena, its value to the end of the pool. */
  ghost function Taken(t: Tables, id: nat, v: Bytes, attrs: seq<Attr>, pool: Bytes): (seq<Attr>, Bytes)
    requires t.Bounded()
  {
    var text := ValueText(t, v, 0);
    (attrs + [Attr(id, if |text| > 65535 then 65535 else |text|, |pool|)], pool + text)
  }

  method KeepAttr(d: Dom, t: Tables, id: nat, v: Bytes, ghost first: nat, ghost mark: nat)
    requires d.Loose() && t.Bounded() && |d.attrs| < 24576 && Above(d.nodes, d.attrs, d.pool, first, mark)
    modifies d`attrs, d`pool, d`truncated
    ensures d.Loose() && Above(d.nodes, d.attrs, d.pool, first, mark) && (old(d.truncated) ==> d.truncated)
    ensures Kept(d.nodes, old(d.pool), d.nodes, d.pool) && old(d.pool) <= d.pool && old(d.attrs) <= d.attrs
    ensures !d.truncated ==> (d.attrs, d.pool) == Taken(t, id, v, old(d.attrs), old(d.pool))
  {
    hide *;
    ghost var a0 := d.attrs;
    var start := |d.pool|;
    ghost var p0 := d.pool;
    LooseSizes(d);
    PutValue(d, t, v);
    var vl := |d.pool| - start;
    var vlen := if vl > 65535 then 65535 else vl;
    ghost var more := d.pool[start..];
    assert d.pool == p0 + more;
    ValueStep(d.nodes, a0, p0, d.stk, d.inHead, more, id, vlen);
    AboveStays(d.nodes, a0, p0, first, mark, [Attr(id, vlen, start)], more);
    if !d.truncated { TakenIs(t, id, v, a0, p0, d.pool); }
    d.attrs := d.attrs + [Attr(id, vlen, start)];
    LooseIs(d);
  }

  lemma TakenIs(t: Tables, id: nat, v: Bytes, attrs: seq<Attr>, pool: Bytes, pool': Bytes)
    requires t.Bounded() && pool' == pool + ValueText(t, v, 0)
    ensures var n := |pool'| - |pool|;
      Taken(t, id, v, attrs, pool) == (attrs + [Attr(id, if n > 65535 then 65535 else n, |pool|)], pool')
  {
    hide ValueText;
  }

  lemma LooseSizes(d: Dom)
    requires d.Loose()
    ensures BuilderOk(d.nodes, d.attrs, d.pool, d.stk, d.inHead, 0) && |d.pool| <= 0x4_0000 && |d.attrs| <= 24576
  {
    hide ArenaOk, StackOk;
  }

  lemma LooseIs(d: Dom)
    requires BuilderOk(d.nodes, d.attrs, d.pool, d.stk, d.inHead, 0)
    ensures d.Loose()
  {
  }

  lemma ValueStep(ns: Nodes, attrs: seq<Attr>, pool: Bytes, stk: seq<nat>, inHead: bool, more: Bytes, id: nat, vlen: nat)
    requires BuilderOk(ns, attrs, pool, stk, inHead, 0) && vlen <= |more| && |attrs| < 24576 && |pool + more| <= 0x4_0000
    ensures BuilderOk(ns, attrs + [Attr(id, vlen, |pool|)], pool + more, stk, inHead, 0)
    ensures Kept(ns, pool, ns, pool + more)
  {
    hide ArenaOk, StackOk, Kept;
    AddValue(ns, attrs, pool, more, id, vlen);
  }

  /** What the attributes of one tag leave: the arenas, the offset behind the tag, and whether
      it closes itself. */
  datatype AttrRun = AttrRun(attrs: seq<Attr>, pool: Bytes, next: nat, selfclose: bool)

  /** All attributes from i to the end of the tag: those with a known name are kept while there
      is room, the others are passed over. */
  ghost function AttrsFrom(t: Tables, h: Bytes, i: nat, attrs: seq<Attr>, pool: Bytes): AttrRun
    requires t.Bounded() && i <= |h|
    decreases |h| - i
  {
    var w := ToAttr(h, i);
    if w.0 >= |h| then AttrRun(attrs, pool, |h|, w.1)
    else if h[w.0] == '>' then AttrRun(attrs, pool, w.0 + 1, w.1)
    else
      AttrMoves(h, w.0);
      var x := AttrAt(h, w.0);
      var id := t.attrId(x.name);
      var kept := if id != 0 && |attrs| < 24576 then Taken(t, id, h[x.vs..x.ve], attrs, pool) else (attrs, pool);
      var r := AttrsFrom(t, h, x.next, kept.0, kept.1);
      r.(selfclose := r.selfclose || w.1)
  }

  lemma AttrsOnce(t: Tables, h: Bytes, i: nat, attrs: seq<Attr>, pool: Bytes)
    requires t.Bounded() && i <= |h|
    ensures var w := ToAttr(h, i);
      && i <= w.0 <= |h|
      && (w.0 == |h| ==> AttrsFrom(t, h, i, attrs, pool) == AttrRun(attrs, pool, |h|, w.1))
      && (w.0 < |h| && h[w.0] == '>' ==> AttrsFrom(t, h, i, attrs, pool) == AttrRun(attrs, pool, w.0 + 1, w.1))
      && (w.0 < |h| && h[w.0] != '>' ==>
           var x := AttrAt(h, w.0);
           var kept := if t.attrId(x.name) != 0 && |attrs| < 24576 then Taken(t, t.attrId(x.name), h[x.vs..x.ve], attrs, pool)
                       else (attrs, pool);
           w.0 < x.next <= |h| && x.vs <= x.ve <= |h|
           && var r := AttrsFrom(t, h, x.next, kept.0, kept.1);
              AttrsFrom(t, h, i, attrs, pool) == r.(selfclose := r.selfclose || w.1))
  {
    hide ToAttr, AttrAt, Taken;
    var w := ToAttr(h, i);
    if w.0 < |h| && h[w.0] != '>' { AttrMoves(h, w.0); }
  }

  /** kernel/dom.h dom_parse_attrs: the kept attributes lie above the marks; nothing below
      them has changed. */
  method ParseAttrs(d: Dom, t: Tables, h: Bytes, i0: nat) returns (i: nat, selfclose: bool)
    requires d.Loose() && t.Bounded() && i0 <= |h|
    modifies d`attrs, d`pool, d`truncated
    ensures d.Loose() && Above(d.nodes, d.attrs, d.pool, |old(d.attrs)|, |old(d.pool)|)
    ensures Kept(d.nodes, old(d.pool), d.nodes, d.pool) && (old(d.truncated) ==> d.truncated) && i0 <= i <= |h|
    ensures !d.truncated ==> AttrsFrom(t, h, i0, old(d.attrs), old(d.pool)) == AttrRun(d.attrs, d.pool, i, selfclose)
  {
    hide *;
    ghost var a0, p0 := d.attrs, d.pool;
    AboveStart(d);
    KeptNothing(d.nodes, d.pool);
    i, selfclose := i0, false;
    ghost var whole := AttrsFrom(t, h, i0, a0, p0);
    assert whole == whole.(selfclose := whole.selfclose || false);
    while true
      invariant d.Loose() && Above(d.nodes, d.attrs, d.pool, |a0|, |p0|) && i0 <= i <= |h|
      invariant Kept(d.nodes, p0, d.nodes, d.pool) && p0 <= d.pool && (old(d.truncated) ==> d.truncated)
      invariant !d.truncated ==>
        var r := AttrsFrom(t, h, i, d.attrs, d.pool); whole == r.(selfclose := r.selfclose || selfclose)
      decreases |h| - i
    {
      AttrsOnce(t, h, i, d.attrs, d.pool);
      var sc;
      i, sc := SkipToAttr(h, i);
      if sc { selfclose := true; }
      if i >= |h| { return |h|, selfclose; }
      if h[i] == '>' { return i + 1, selfclose; }
      var a := OneAttr(h, i);
      i := a.next;
      var id := t.attrId(a.name);
      if id != 0 && |d.attrs| < 24576 {
        ghost var p1 := d.pool;
        KeepAttr(d, t, id, h[a.vs..a.ve], |a0|, |p0|);
        KeptTwice(d.nodes, p0, d.nodes, p1, d.nodes, d.pool);
      }
    }
  }

  lemma AboveStart(d: Dom)
    requires d.Loose()
    ensures Above(d.nodes, d.attrs, d.pool, |d.attrs|, |d.pool|)
  {
    hide ArenaOk, StackOk, Above;
    AboveNow(d.nodes, d.attrs, d.pool);
  }

  // ---------- raw text ----------

  /** h has "</name" at k, followed by what can follow a tag name. */
  predicate ClosesAt(h: Bytes, k: nat, name: Bytes) {
    && k + 2 + |name| <= |h| && h[k] == '<' && h[k + 1] == '/'
    && LowerAll(h[k + 2..k + 2 + |name|]) == name
    && (k + 2 + |name| < |h| ==> EndsName(h[k + 2 + |name|]))
  }

  /** The next "</name" at or after i, or the end. */
  function CloseAt(h: Bytes, i: nat, name: Bytes): (k: nat)
    requires i <= |h|
    ensures i <= k <= |h| && (k < |h| ==> ClosesAt(h, k, name)) && forall j :: i <= j < k ==> !ClosesAt(h, j, name)
    decreases |h| - i
  {
    if i == |h| || ClosesAt(h, i, name) then i else CloseAt(h, i + 1, name)
  }

  /** dom_find_close. */
  method FindClose(h: Bytes, i0: nat, name: Bytes) returns (k: nat)
    requires i0 <= |h|
    ensures k == CloseAt(h, i0, name)
  {
    hide ClosesAt;
    k := i0;
    while k + 2 + |name| <= |h|
      invariant i0 <= k <= |h| && CloseAt(h, k, name) == CloseAt(h, i0, name)
    {
      var here := IsClose(h, k, name);
      if here { return; }
      k := k + 1;
    }
    NoneClose(h, k, name);
    k := |h|;
  }

  /** The loop body of dom_find_close. */
  method IsClose(h: Bytes, k: nat, name: Bytes) returns (b: bool)
    requires k + 2 + |name| <= |h|
    ensures b == ClosesAt(h, k, name)
  {
    if h[k] != '<' || h[k + 1] != '/' { return false; }
    var tail := h[k + 2..k + 2 + |name|];
    for j := 0 to |name|
      invariant forall n :: 0 <= n < j ==> Lower(tail[n]) == name[n]
    {
      if Lower(h[k + 2 + j]) != name[j] {
        assert LowerAll(tail)[j] != name[j];
        return false;
      }
    }
    assert LowerAll(tail) == name;
    return k + 2 + |name| >= |h| || EndsName(h[k + 2 + |name|]);
  }

  lemma {:induction false} NoneClose(h: Bytes, k: nat, name: Bytes)
    requires k <= |h| && k + 2 + |name| > |h|
    ensures CloseAt(h, k, name) == |h|
    decreases |h| - k
  {
    if k < |h| { NoneClose(h, k + 1, name); }
  }

  /** Raw text goes to the sink byte by byte, line ends as line feeds. */
  method EmitRaw(d: Dom, h: Bytes, i: nat, k: nat)
    requires d.Valid() && i <= k <= |h|
    modifies d`nodes, d`pool, d`txt, d`truncated
    ensures d.Valid() && Kept(old(d.nodes), old(d.pool), d.nodes, d.pool) && (old(d.truncated) ==> d.truncated)
    ensures !d.truncated ==> d.Now() == RawAdded(h, i, k, old(d.Now()))
  {
    hide *;
    KeptNothing(d.nodes, d.pool);
    d.Open();
    d.NowIs();
    ghost var a, n0, x0, cur, len := d.Now(), d.nodes, d.txt, d.stk[|d.stk| - 1], |d.pool|;
    SunkenNone(n0, x0, cur, len);
    ghost var done := "";
    assert old(d.pool) + done == old(d.pool) && done + RawOf(h, i, k) == RawOf(h, i, k);
    var q := i;
    while q < k && !d.truncated
      invariant i <= q <= k && d.Valid() && Kept(old(d.nodes), old(d.pool), d.nodes, d.pool)
      invariant (old(d.truncated) ==> d.truncated)
      invariant !d.truncated ==> d.pool == old(d.pool) + done && (d.nodes, d.txt) == Sunken(n0, x0, cur, len, |done|)
      invariant RawOf(h, i, k) == done + RawOf(h, q, k)
      decreases k - q
    {
      RawOnce(h, q, k);
      if h[q] == '\r' && q + 1 < k && h[q + 1] == '\n' {
        q := q + 1;
      } else {
        ghost var ns, p := d.nodes, d.pool;
        var c := if h[q] == '\r' then '\n' else h[q];
        SunkenMore(n0, x0, cur, len, |done|);
        d.TextByte(c);
        KeptTwice(old(d.nodes), old(d.pool), ns, p, d.nodes, d.pool);
        Shift(done, [c], RawOf(h, q + 1, k), old(d.pool));
        done := done + [c];
        q := q + 1;
      }
    }
    d.NowIs();
    if !d.truncated {
      RawEnd(h, q, k);
      assert done + "" == done;
      RawAddedIs(h, i, k, a, d.Now());
    }
  }

  ghost function RawAdded(h: Bytes, i: nat, k: nat, a: Page): Page
    requires i <= k <= |h|
  {
    if |a.stk| == 0 then a
    else
      var text := RawOf(h, i, k);
      var r := Sunken(a.nodes, a.txt, a.stk[|a.stk| - 1], |a.pool|, |text|);
      a.(nodes := r.0, txt := r.1, pool := a.pool + text)
  }

  lemma RawAddedIs(h: Bytes, i: nat, k: nat, a: Page, b: Page)
    requires i <= k <= |h| && |a.stk| > 0
    requires var text := RawOf(h, i, k);
      var r := Sunken(a.nodes, a.txt, a.stk[|a.stk| - 1], |a.pool|, |text|);
      b == a.(nodes := r.0, txt := r.1, pool := a.pool + text)
    ensures b == RawAdded(h, i, k, a)
  {
    hide RawOf, Sunken;
  }

  lemma RawOnce(h: Bytes, q: nat, k: nat)
    requires q < k <= |h|
    ensures RawOf(h, q, k) == if h[q] == '\r' && q + 1 < k && h[q + 1] == '\n' then RawOf(h, q + 1, k)
                              else [if h[q] == '\r' then '\n' else h[q]] + RawOf(h, q + 1, k)
  {
  }

  lemma RawEnd(h: Bytes, q: nat, k: nat)
    requires q == k <= |h|
    ensures RawOf(h, q, k) == ""
  {
  }

  /** The contents of a raw-text element: markup means nothing in them, and character
      references only in a title or a textarea, which also drops a first line feed. */
  ghost function WithRaw(t: Tables, h: Bytes, i: nat, k: nat, tag: Tag, a: Page): Page
    requires t.Bounded() && i <= k <= |h|
  {
    if i == k then a
    else if Rawness(tag) == 2 then WithText(t, h[i..k], true, a.(skipLf := tag == Textarea))
    else RawAdded(h, i, k, a.(skipLf := tag == Textarea))
  }

  method RawContents(d: Dom, t: Tables, h: Bytes, i: nat, k: nat, tag: Tag)
    requires d.Valid() && t.Bounded() && i <= k <= |h|
    modifies d`nodes, d`pool, d`txt, d`truncated, d`stk, d`inHead, d`skipLf
    ensures d.Valid() && Kept(old(d.nodes), old(d.pool), d.nodes, d.pool) && (old(d.truncated) ==> d.truncated)
    ensures !d.skipLf
    ensures !d.truncated ==> d.Now() == WithRaw(t, h, i, k, tag, old(d.Now())).(skipLf := false)
  {
    hide WithText, RawAdded, Rawness, BuilderOk, Kept, ArenaOk, RawOf, Dom.Valid;
    KeptNothing(d.nodes, d.pool);
    if tag == Textarea { d.skipLf := true; }
    if k > i {
      d.skipLf := tag == Textarea;
      if Rawness(tag) == 2 {
        d.AddText(t, h[i..k], true);
      } else {
        EmitRaw(d, h, i, k);
      }
    }
    d.skipLf := false;
  }

  /** A raw-text element from behind its start tag: its contents, and its end tag. */
  ghost predicate RawDone(t: Tables, h: Bytes, i: nat, tag: Tag, a: Page, b: Page, next: nat)
    requires t.Bounded() && i <= |h|
  {
    var k := CloseAt(h, i, t.tagName(tag));
    next == Behind(h, k) && EndDone(WithRaw(t, h, i, k, tag, a).(skipLf := false, txt := 0), tag, b)
  }

  lemma RawDoneIs(t: Tables, h: Bytes, i: nat, tag: Tag, a: Page, c: Page, b: Page)
    requires t.Bounded() && i <= |h|
    requires c == WithRaw(t, h, i, CloseAt(h, i, t.tagName(tag)), tag, a).(skipLf := false)
    requires EndDone(c.(txt := 0), tag, b)
    ensures RawDone(t, h, i, tag, a, b, Behind(h, CloseAt(h, i, t.tagName(tag))))
  {
    hide WithRaw, EndDone, CloseAt, Behind;
  }

  method RawElement(d: Dom, t: Tables, h: Bytes, i: nat, tag: Tag) returns (next: nat)
    requires d.Valid() && t.Bounded() && i <= |h|
    modifies d
    ensures d.Valid() && Kept(old(d.nodes), old(d.pool), d.nodes, d.pool) && (old(d.truncated) ==> d.truncated)
    ensures i <= next <= |h|
    ensures !d.truncated ==> RawDone(t, h, i, tag, old(d.Now()), d.Now(), next)
  {
    hide *;
    ghost var a := d.Now();
    var k := FindClose(h, i, t.tagName(tag));
    RawContents(d, t, h, i, k, tag);
    next := SkipBehind(h, k);
    ghost var ns, p := d.nodes, d.pool;
    ghost var c := d.Now();
    d.NowIs();
    d.ValidIsLoose();
    d.ResetSink();
    d.NowIs();
    assert d.Now() == c.(txt := 0);
    d.End(tag);
    KeptTwice(old(d.nodes), old(d.pool), ns, p, d.nodes, d.pool);
    if !d.truncated { RawDoneIs(t, h, i, tag, a, c, d.Now()); }
  }

  // ---------- tags ----------

  /** The tag a name stands for; "image" is read as "img". */
  function TagAt(t: Tables, h: Bytes, ns: nat, j: nat): Tag
    requires ns <= j <= |h| && ns < |h|
  {
    var name := NameOf(h, ns, j);
    var tag := t.tagId(name);
    if tag == Unknown && name == "image" && h[ns] == 'i' then Img else tag
  }

  predicate DropsLine(tag: Tag) {
    tag == Pre || tag == Listing
  }

  /** What stands behind a start tag belongs to it: everything after <plaintext>, the raw
      text of a raw-text element, or nothing. */
  ghost predicate Inside(t: Tables, h: Bytes, i: nat, tag: Tag, selfclose: bool, el: nat, a: Page, b: Page, next: nat)
    requires t.Bounded() && i <= |h|
  {
    if tag == Plaintext && el != 0 then b == WithText(t, h[i..], false, a) && next == |h|
    else if Rawness(tag) != 0 && el != 0 && !(selfclose && a.foreign > 0) then RawDone(t, h, i, tag, a, b, next)
    else b == a && next == i
  }

  /** The document behind the attributes of a tag. */
  ghost function WithAttrs(a: Page, r: AttrRun, tag: Tag): Page {
    a.(attrs := r.attrs, pool := r.pool, skipLf := a.skipLf && !DropsLine(tag) && tag != Textarea)
  }

  /** A start tag from its name on. */
  ghost predicate StartDone(t: Tables, h: Bytes, ns: nat, a: Page, b: Page, next: nat)
    requires t.Bounded() && ns < |h|
  {
    var j := Scan(h, ns, EndsName);
    var tag := TagAt(t, h, ns, j);
    var r := AttrsFrom(t, h, j, a.attrs, a.pool);
    r.next <= |h| && exists c: Page, el: nat ::
      Started(WithAttrs(a, r, tag), tag, |a.attrs|, |a.pool|, r.selfclose, c, el)
      && Inside(t, h, r.next, tag, r.selfclose, el, c.(skipLf := c.skipLf || DropsLine(tag)), b, next)
  }

  lemma StartDoneIs(t: Tables, h: Bytes, ns: nat, a: Page, r: AttrRun, c: Page, el: nat, b: Page, next: nat)
    requires t.Bounded() && ns < |h| && r.next <= |h|
    requires var j := Scan(h, ns, EndsName);
      var tag := TagAt(t, h, ns, j);
      && r == AttrsFrom(t, h, j, a.attrs, a.pool)
      && Started(WithAttrs(a, r, tag), tag, |a.attrs|, |a.pool|, r.selfclose, c, el)
      && Inside(t, h, r.next, tag, r.selfclose, el, c.(skipLf := c.skipLf || DropsLine(tag)), b, next)
    ensures StartDone(t, h, ns, a, b, next)
  {
    hide TagAt, AttrsFrom, Started, Inside, WithAttrs, DropsLine;
  }

  lemma InsideIs(t: Tables, h: Bytes, i: nat, tag: Tag, selfclose: bool, el: nat, a: Page, b: Page, next: nat)
    requires t.Bounded() && i <= |h|
    requires if tag == Plaintext && el != 0 then b == WithText(t, h[i..], false, a) && next == |h|
             else if Rawness(tag) != 0 && el != 0 && !(selfclose && a.foreign > 0) then RawDone(t, h, i, tag, a, b, next)
             else b == a && next == i
    ensures Inside(t, h, i, tag, selfclose, el, a, b, next)
  {
    hide WithText, RawDone, Rawness;
  }

  method Contents(d: Dom, t: Tables, h: Bytes, i: nat, tag: Tag, selfclose: bool, el: nat) returns (next: nat)
    requires d.Valid() && t.Bounded() && i <= |h|
    modifies d
    ensures d.Valid() && Kept(old(d.nodes), old(d.pool), d.nodes, d.pool) && (old(d.truncated) ==> d.truncated)
    ensures i <= next <= |h|
    ensures !d.truncated ==> Inside(t, h, i, tag, selfclose, el, old(d.Now()), d.Now(), next)
  {
    hide *;
    KeptNothing(d.nodes, d.pool);
    d.NowIs();
    ghost var a := d.Now();
    next := i;
    if tag == Plaintext && el != 0 {
      d.AddText(t, h[i..], false);
      next := |h|;
    } else if Rawness(tag) != 0 && el != 0 && !(selfclose && d.foreign > 0) {
      next := RawElement(d, t, h, i, tag);
    }
    if !d.truncated { InsideIs(t, h, i, tag, selfclose, el, a, d.Now(), next); }
  }

  lemma WithAttrsIs(a: Page, r: AttrRun, tag: Tag, b: Page)
    requires b == a.(attrs := r.attrs, pool := r.pool,
                     skipLf := if tag == Pre || tag == Listing || tag == Textarea then false else a.skipLf)
    ensures b == WithAttrs(a, r, tag) && DropsLine(tag) == (tag == Pre || tag == Listing)
  {
  }

  /** The name and the attributes of a start tag. */
  method TagAndAttrs(d: Dom, t: Tables, h: Bytes, ns: nat) returns (tag: Tag, i: nat, selfclose: bool)
    requires d.Valid() && t.Bounded() && ns < |h|
    modifies d`attrs, d`pool, d`truncated, d`skipLf
    ensures d.Loose() && Above(d.nodes, d.attrs, d.pool, |old(d.attrs)|, |old(d.pool)|)
    ensures Kept(d.nodes, old(d.pool), d.nodes, d.pool) && (old(d.truncated) ==> d.truncated) && ns <= i <= |h|
    ensures tag == TagAt(t, h, ns, Scan(h, ns, EndsName)) && DropsLine(tag) == (tag == Pre || tag == Listing)
    ensures !d.truncated ==>
      var r := AttrsFrom(t, h, Scan(h, ns, EndsName), old(d.attrs), old(d.pool));
      r.next == i && r.selfclose == selfclose && d.Now() == WithAttrs(old(d.Now()), r, tag)
  {
    hide *;
    d.NowIs();
    ghost var a := d.Now();
    var j := Skip(h, ns, EndsName);
    tag := ReadTag(t, h, ns, j);
    d.ValidIsLoose();
    i, selfclose := ParseAttrs(d, t, h, j);
    if tag == Pre || tag == Listing || tag == Textarea { d.skipLf := false; }
    d.NowIs();
    DropsIs(tag);
    if !d.truncated { WithAttrsIs(a, AttrsFrom(t, h, j, a.attrs, a.pool), tag, d.Now()); }
  }

  lemma DropsIs(tag: Tag)
    ensures DropsLine(tag) == (tag == Pre || tag == Listing)
  {
  }

  method ReadTag(t: Tables, h: Bytes, ns: nat, j: nat) returns (tag: Tag)
    requires ns <= j <= |h| && ns < |h|
    ensures tag == TagAt(t, h, ns, j)
  {
    hide NameOf;
    var name := NameOf(h, ns, j);
    tag := t.tagId(name);
    if tag == Unknown && name == "image" && h[ns] == 'i' { tag := Img; }
  }

  method StartTag(d: Dom, t: Tables, h: Bytes, ns: nat) returns (next: nat)
    requires d.Valid() && t.Bounded() && ns < |h|
    modifies d
    ensures d.Valid() && Kept(old(d.nodes), old(d.pool), d.nodes, d.pool) && (old(d.truncated) ==> d.truncated)
    ensures ns <= next <= |h|
    ensures !d.truncated ==> StartDone(t, h, ns, old(d.Now()), d.Now(), next)
  {
    hide *;
    ghost var n0, p0 := d.nodes, d.pool;
    d.NowIs();
    ghost var a := d.Now();
    var mark, afirst := |d.pool|, |d.attrs|;
    var tag, i, selfclose := TagAndAttrs(d, t, h, ns);
    ghost var n1, p1 := d.nodes, d.pool;
    var el := d.Start(tag, afirst, mark, selfclose);
    KeptTwice(n0, p0, n1, p1, d.nodes, d.pool);
    d.NowIs();
    ghost var c := d.Now();
    if tag == Pre || tag == Listing { d.skipLf := true; }
    d.NowIs();
    ghost var n2, p2 := d.nodes, d.pool;
    next := Contents(d, t, h, i, tag, selfclose, el);
    KeptTwice(n0, p0, n2, p2, d.nodes, d.pool);
    if !d.truncated {
      StartDoneIs(t, h, ns, a, AttrsFrom(t, h, Scan(h, ns, EndsName), a.attrs, a.pool), c, el, d.Now(), next);
    }
  }

  /** Behind "</" at i: an end tag, whose attributes mean nothing, or something to skip. */
  ghost predicate EndTagDone(t: Tables, h: Bytes, i: nat, a: Page, b: Page, next: nat)
    requires i + 1 < |h|
  {
    if i + 2 < |h| && IsAlpha(h[i + 2]) then
      var j := Scan(h, i + 2, EndsName);
      next == Behind(h, j) && EndDone(a, t.tagId(NameOf(h, i + 2, j)), b)
    else next == Behind(h, i + 2) && b == a
  }

  method EndTag(d: Dom, t: Tables, h: Bytes, i: nat) returns (next: nat)
    requires d.Valid() && i + 1 < |h|
    modifies d
    ensures d.Valid() && Kept(old(d.nodes), old(d.pool), d.nodes, d.pool) && (old(d.truncated) ==> d.truncated)
    ensures i + 1 < next <= |h|
    ensures !d.truncated ==> EndTagDone(t, h, i, old(d.Now()), d.Now(), next)
  {
    hide *;
    KeptNothing(d.nodes, d.pool);
    EndTagCases(t, h, i, d.Now());
    if i + 2 < |h| && IsAlpha(h[i + 2]) {
      var j := Skip(h, i + 2, EndsName);
      var tag := t.tagId(NameOf(h, i + 2, j));
      next := SkipBehind(h, j);
      d.End(tag);
      return;
    }
    if i + 2 < |h| && h[i + 2] == '>' { return i + 3; }
    next := SkipBehind(h, i + 2);
  }

  lemma EndTagCases(t: Tables, h: Bytes, i: nat, a: Page)
    requires i + 1 < |h|
    ensures i + 2 < |h| && IsAlpha(h[i + 2]) ==>
      var j := Scan(h, i + 2, EndsName);
      forall b :: EndDone(a, t.tagId(NameOf(h, i + 2, j)), b) ==> EndTagDone(t, h, i, a, b, Behind(h, j))
    ensures !(i + 2 < |h| && IsAlpha(h[i + 2])) ==> EndTagDone(t, h, i, a, a, Behind(h, i + 2))
    ensures i + 2 < |h| && h[i + 2] == '>' ==> Behind(h, i + 2) == i + 3
  {
    hide EndDone, NameOf;
  }

  predicate EndsComment(h: Bytes, j: nat) {
    j + 2 < |h| && h[j] == '-' && h[j + 1] == '-' && (h[j + 2] == '>' || (h[j + 2] == '!' && j + 3 < |h| && h[j + 3] == '>'))
  }

  /** Behind the next "-->" or "--!>", or the end. */
  function CommentScan(h: Bytes, j: nat): (r: nat)
    requires j <= |h|
    ensures j <= r <= |h|
    decreases |h| - j
  {
    if j + 2 >= |h| then |h|
    else if EndsComment(h, j) then j + (if h[j + 2] == '>' then 3 else 4)
    else CommentScan(h, j + 1)
  }

  /** Behind a comment whose text starts at j; "<!-->" and "<!--->" are whole comments. */
  function CommentEnd(h: Bytes, j: nat): (r: nat)
    requires j <= |h|
    ensures j <= r <= |h|
  {
    if j < |h| && h[j] == '>' then j + 1
    else if j + 1 < |h| && h[j] == '-' && h[j + 1] == '>' then j + 2
    else CommentScan(h, j)
  }

  method SkipComment(h: Bytes, j0: nat) returns (next: nat)
    requires j0 <= |h|
    ensures next == CommentEnd(h, j0)
  {
    var j := j0;
    if j < |h| && h[j] == '>' { return j + 1; }
    if j + 1 < |h| && h[j] == '-' && h[j + 1] == '>' { return j + 2; }
    while j + 2 < |h| && !EndsComment(h, j)
      invariant j0 <= j <= |h| && CommentScan(h, j) == CommentScan(h, j0)
    {
      j := j + 1;
    }
    if j + 2 >= |h| { return |h|; }
    next := j + (if h[j + 2] == '>' then 3 else 4);
  }

  // ---------- the tokenizer ----------

  /** Behind "<!" or "<?" at i. */
  function BehindDeclaration(h: Bytes, i: nat): (r: nat)
    requires i + 1 < |h|
    ensures i + 1 < r <= |h|
  {
    if h[i + 1] == '!' && i + 3 < |h| && h[i + 2] == '-' && h[i + 3] == '-' then CommentEnd(h, i + 4) else Behind(h, i + 2)
  }

  /** One token of the document from i on: what it does to the builder, and where the next
      one starts. */
  ghost predicate Token(t: Tables, h: Bytes, i: nat, a: Page, b: Page, next: nat)
    requires t.Bounded() && i < |h|
  {
    if h[i] != '<' then next == Scan(h, i, IsLt) && b == WithText(t, h[i..next], true, a)
    else if i + 1 < |h| && (h[i + 1] == '!' || h[i + 1] == '?') then next == BehindDeclaration(h, i) && b == a
    else if i + 1 < |h| && h[i + 1] == '/' then EndTagDone(t, h, i, a, b, next)
    else if i + 1 < |h| && IsAlpha(h[i + 1]) then StartDone(t, h, i + 1, a, b, next)
    else next == i + 1 && b == WithText(t, "<", false, a)
  }

  lemma TokenIs(t: Tables, h: Bytes, i: nat, a: Page, b: Page, next: nat)
    requires t.Bounded() && i < |h|
    requires if h[i] != '<' then next == Scan(h, i, IsLt) && b == WithText(t, h[i..next], true, a)
             else if i + 1 < |h| && (h[i + 1] == '!' || h[i + 1] == '?') then next == BehindDeclaration(h, i) && b == a
             else if i + 1 < |h| && h[i + 1] == '/' then EndTagDone(t, h, i, a, b, next)
             else if i + 1 < |h| && IsAlpha(h[i + 1]) then StartDone(t, h, i + 1, a, b, next)
             else next == i + 1 && b == WithText(t, "<", false, a)
    ensures Token(t, h, i, a, b, next)
  {
    hide WithText, BehindDeclaration, EndTagDone, StartDone, IsAlpha;
  }

  method SkipDeclaration(h: Bytes, i: nat) returns (next: nat)
    requires i + 1 < |h|
    ensures next == BehindDeclaration(h, i)
  {
    hide CommentEnd, Behind;
    if h[i + 1] == '!' && i + 3 < |h| && h[i + 2] == '-' && h[i + 3] == '-' {
      next := SkipComment(h, i + 4);
      return;
    }
    next := SkipBehind(h, i + 2);
  }

  /** One token of markup, from its '<' on. */
  method Markup(d: Dom, t: Tables, h: Bytes, i: nat) returns (next: nat)
    requires d.Valid() && t.Bounded() && i < |h| && h[i] == '<'
    modifies d
    ensures d.Valid() && Kept(old(d.nodes), old(d.pool), d.nodes, d.pool) && (old(d.truncated) ==> d.truncated)
    ensures i < next <= |h|
    ensures !d.truncated ==> Token(t, h, i, old(d.Now()), d.Now(), next)
  {
    hide *;
    KeptNothing(d.nodes, d.pool);
    ghost var a := d.Now();
    if i + 1 < |h| && (h[i + 1] == '!' || h[i + 1] == '?') {
      next := SkipDeclaration(h, i);
    } else if i + 1 < |h| && h[i + 1] == '/' {
      next := EndTag(d, t, h, i);
    } else if i + 1 < |h| && IsAlpha(h[i + 1]) {
      next := StartTag(d, t, h, i + 1);
    } else {
      d.AddText(t, "<", false);
      next := i + 1;
    }
    if !d.truncated { TokenIs(t, h, i, a, d.Now(), next); }
  }

  /** The document before each token and at the end, and where the tokens start: from the
      blank document, token by token, to the end of the bytes. */
  ghost predicate Tokenized(t: Tables, h: Bytes, pages: seq<Page>, cuts: seq<nat>, i: nat)
    requires t.Bounded()
  {
    && |pages| == |cuts| > 0 && pages[0] == Blank() && cuts[0] == 0 && cuts[|cuts| - 1] == i <= |h|
    && forall k :: 0 <= k < |cuts| - 1 ==>
         cuts[k] < cuts[k + 1] && cuts[k] < |h| && Token(t, h, cuts[k], pages[k], pages[k + 1], cuts[k + 1])
  }

  lemma TokenizedMore(t: Tables, h: Bytes, pages: seq<Page>, cuts: seq<nat>, i: nat, b: Page, next: nat)
    requires t.Bounded() && Tokenized(t, h, pages, cuts, i) && i < next <= |h|
    requires Token(t, h, i, pages[|pages| - 1], b, next)
    ensures Tokenized(t, h, pages + [b], cuts + [next], next)
  {
    hide Token, Blank;
    var ps, cs := pages + [b], cuts + [next];
    forall k | 0 <= k < |cs| - 1
      ensures cs[k] < cs[k + 1] && cs[k] < |h| && Token(t, h, cs[k], ps[k], ps[k + 1], cs[k + 1])
    {
      if k < |cuts| - 1 { assert Token(t, h, cuts[k], pages[k], pages[k + 1], cuts[k + 1]); }
    }
  }

  lemma TokenizedNone(t: Tables, h: Bytes)
    requires t.Bounded()
    ensures Tokenized(t, h, [Blank()], [0], 0)
  {
    hide Blank;
  }

  ghost predicate AllOk(pages: seq<Page>) {
    forall k :: 0 <= k < |pages| ==> PageOk(pages[k])
  }

  lemma AllOkMore(pages: seq<Page>, p: Page)
    requires AllOk(pages) && PageOk(p)
    ensures AllOk(pages + [p])
  {
    hide PageOk;
  }

  /** kernel/dom.h dom_parse: for every byte string it ends, with every document on the way
      valid.  The documents are what the tokens, one after the other, make of a blank one: all
      tokens of the byte string if no arena filled up, otherwise those before the token in
      which one did, and nothing they made is lost. */
  method Parse(t: Tables, h: Bytes) returns (d: Dom, ghost pages: seq<Page>, ghost cuts: seq<nat>)
    requires t.Bounded()
    ensures fresh(d) && d.Valid() && AllOk(pages)
    ensures |pages| == |cuts| > 0 && cuts[|cuts| - 1] <= |h| && Tokenized(t, h, pages, cuts, cuts[|cuts| - 1])
    ensures !d.truncated ==> cuts[|cuts| - 1] == |h| && d.Now() == pages[|pages| - 1].(txt := 0)
    ensures d.truncated ==>
      cuts[|cuts| - 1] < |h| && Kept(pages[|pages| - 1].nodes, pages[|pages| - 1].pool, d.nodes, d.pool)
  {
    hide *;
    d := new Dom();
    TokenizedNone(t, h);
    d.ValidPage();
    pages, cuts := [Blank()], [0];
    FirstOk();
    ghost var i0 := 0;
    var i := 0;
    while i < |h| && !d.truncated
      invariant fresh(d) && d.Valid() && i <= |h| && |pages| > 0 && AllOk(pages) && i0 <= |h|
      invariant Tokenized(t, h, pages, cuts, i0)
      invariant !d.truncated ==> i0 == i && d.Now() == pages[|pages| - 1]
      invariant d.truncated ==> i0 < |h| && Kept(pages[|pages| - 1].nodes, pages[|pages| - 1].pool, d.nodes, d.pool)
      decreases |h| - i
    {
      var next;
      ghost var a := d.Now();
      d.NowIs();
      if h[i] != '<' {
        next := Skip(h, i, IsLt);
        LtIs(h, i);
        d.AddText(t, h[i..next], true);
        if !d.truncated { TokenIs(t, h, i, a, d.Now(), next); }
      } else {
        next := Markup(d, t, h, i);
      }
      if !d.truncated {
        TokenizedMore(t, h, pages, cuts, i, d.Now(), next);
        d.ValidPage();
        AllOkMore(pages, d.Now());
        pages, cuts := pages + [d.Now()], cuts + [next];
        i0 := next;
      }
      i := next;
    }
    d.NowIs();
    d.ValidIsLoose();
    d.ResetSink();
    d.NowIs();
    TokenizedEnds(t, h, pages, cuts, i0);
  }

  lemma FirstOk()
    requires PageOk(Blank())
    ensures AllOk([Blank()])
  {
    hide PageOk, Blank;
  }

  lemma TokenizedEnds(t: Tables, h: Bytes, pages: seq<Page>, cuts: seq<nat>, i: nat)
    requires t.Bounded() && Tokenized(t, h, pages, cuts, i)
    ensures |pages| == |cuts| > 0 && cuts[|cuts| - 1] == i
  {
    hide Token, Blank;
  }

  lemma LtIs(h: Bytes, i: nat)
    requires i < |h|
    ensures IsLt(h[i]) == (h[i] == '<')
  {
  }
}
