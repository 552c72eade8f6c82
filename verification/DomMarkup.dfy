/** kernel/dom.h:369-382, 645-806: markup written in its plain form is read back: code points from
    UTF-8, text, attributes, start and end tags, and comments. */
module DomMarkup {
  import opened Options
  import opened DomTags
  import opened DomArena
  import opened DomChars
  import opened DomParse
  import opened Scanning

  // ---------- what stands where ----------

  predicate At(h: Bytes, i: nat, s: Bytes) {
    i + |s| <= |h| && h[i..i + |s|] == s
  }

  lemma AtJoined(h: Bytes, i: nat, a: Bytes, b: Bytes)
    ensures At(h, i, a + b) <==> At(h, i, a) && At(h, i + |a|, b)
  {
    if At(h, i, a + b) {
      var s := h[i..i + |a + b|];
      assert h[i..i + |a|] == s[..|a|] && h[i + |a|..i + |a| + |b|] == s[|a|..];
    }
  }

  lemma AtChar(h: Bytes, i: nat, s: Bytes, k: nat)
    requires At(h, i, s) && k < |s|
    ensures h[i + k] == s[k]
  {
    assert h[i..i + |s|][k] == h[i + k];
  }

  lemma ScanAt(h: Bytes, i: nat, s: Bytes, stop: char -> bool)
    requires At(h, i, s) && (forall k :: 0 <= k < |s| ==> !stop(s[k]))
    requires i + |s| < |h| ==> stop(h[i + |s|])
    ensures Scan(h, i, stop) == i + |s|
  {
    forall k | i <= k < i + |s| ensures !stop(h[k]) {
      AtChar(h, i, s, k - i);
    }
    ScanIs(h, i, i + |s|, stop);
  }

  // ---------- code points ----------

  /** The UTF-8 bytes of a code point (RFC 3629 section 3). */
  function Encoded(cp: nat): (s: Bytes)
    requires cp < 0x11_0000
    ensures 1 <= |s| <= 4
  {
    if cp < 0x80 then [cp as char]
    else if cp < 0x800 then [(0xC0 + cp / 64) as char, (0x80 + cp % 64) as char]
    else if cp < 0x1_0000 then [(0xE0 + cp / 4096) as char, (0x80 + cp / 64 % 64) as char, (0x80 + cp % 64) as char]
    else
      [(0xF0 + cp / 0x4_0000) as char, (0x80 + cp / 4096 % 64) as char, (0x80 + cp / 64 % 64) as char,
       (0x80 + cp % 64) as char]
  }

  lemma Tail(x: nat)
    requires x < 64
    ensures IsTail((0x80 + x) as char) && (0x80 + x) % 64 == x
  {
  }

  /** Every code point is decoded from its bytes, whatever follows them. */
  lemma EncodedRead(cp: nat, rest: Bytes)
    requires cp < 0x11_0000
    ensures Utf8(Encoded(cp) + rest) == (|Encoded(cp)|, cp)
  {
    var s := Encoded(cp) + rest;
    Tail(cp % 64);
    Tail(cp / 64 % 64);
    Tail(cp / 4096 % 64);
    if cp < 0x80 {
      assert s[0] == cp as char;
    } else if cp < 0x800 {
      assert s[0] as int == 0xC0 + cp / 64 && s[1] as int == 0x80 + cp % 64;
      assert (0xC0 + cp / 64) % 32 == cp / 64;
    } else if cp < 0x1_0000 {
      ThreeBytes(cp, s);
    } else {
      FourBytes(cp, s);
    }
  }

  lemma ThreeBytes(cp: nat, s: Bytes)
    requires 0x800 <= cp < 0x1_0000 && |s| >= 3
    requires s[0] as int == 0xE0 + cp / 4096 && s[1] as int == 0x80 + cp / 64 % 64 && s[2] as int == 0x80 + cp % 64
    ensures Utf8(s) == (3, cp)
  {
    var a, b, c := cp / 4096, cp / 64 % 64, cp % 64;
    assert cp / 64 == 64 * a + b && cp == 64 * (64 * a + b) + c;
    assert (0xE0 + a) % 16 == a;
    Tail(b);
    Tail(c);
  }

  lemma FourBytes(cp: nat, s: Bytes)
    requires 0x1_0000 <= cp < 0x11_0000 && |s| >= 4
    requires s[0] as int == 0xF0 + cp / 0x4_0000 && s[1] as int == 0x80 + cp / 4096 % 64
    requires s[2] as int == 0x80 + cp / 64 % 64 && s[3] as int == 0x80 + cp % 64
    ensures Utf8(s) == (4, cp)
  {
    var a, b, c, d := cp / 0x4_0000, cp / 4096 % 64, cp / 64 % 64, cp % 64;
    assert cp / 4096 == 64 * a + b && cp / 64 == 64 * (64 * a + b) + c && cp == 64 * (64 * (64 * a + b) + c) + d;
    assert (0xF0 + a) % 8 == a;
    Tail(b);
    Tail(c);
    Tail(d);
  }

  // ---------- text ----------

  /** A printable character that means nothing to the tokenizer. */
  predicate IsPlain(c: char) {
    ' ' <= c <= '~' && c != '<' && c != '&'
  }

  predicate AllPlain(s: Bytes) {
    forall k :: 0 <= k < |s| ==> IsPlain(s[k])
  }

  /** Printable characters are drawn as themselves. */
  ghost predicate DrawsAscii(t: Tables) {
    forall cp: nat :: 0x20 <= cp < 0x7F ==> t.drawn(cp) == [cp as char]
  }

  lemma PlainChar(t: Tables, h: Bytes, i: nat, decode: bool, pre: bool)
    requires i < |h| && IsPlain(h[i]) && DrawsAscii(t)
    ensures CharAt(t, h, i, decode) == (i + 1, h[i] as nat) && Shown(t, h[i] as nat, pre) == [h[i]]
  {
    assert h[i..][0] == h[i];
  }

  /** Text of plain characters is kept as it is. */
  lemma {:induction false} PlainText(t: Tables, h: Bytes, i: nat, decode: bool, pre: bool)
    requires t.Bounded() && DrawsAscii(t) && AllPlain(h) && i <= |h|
    ensures TextOf(t, h, i, decode, pre) == h[i..]
    decreases |h| - i
  {
    hide CharAt, Shown, IsPlain;
    if i < |h| {
      PlainChar(t, h, i, decode, pre);
      PlainText(t, h, i + 1, decode, pre);
      assert h[i..] == [h[i]] + h[i + 1..];
    }
  }

  lemma PlainValueChar(t: Tables, v: Bytes, k: nat)
    requires k < |v| && IsPlain(v[k])
    ensures ValueCharAt(t, v, k) == (k + 1, v[k] as nat) && ValueShown(t, v[k] as nat) == [v[k]]
  {
    assert v[k..][0] == v[k];
  }

  /** So is the value of an attribute. */
  lemma {:induction false} PlainValue(t: Tables, v: Bytes, k: nat)
    requires t.Bounded() && AllPlain(v) && k <= |v|
    ensures ValueText(t, v, k) == v[k..]
    decreases |v| - k
  {
    hide ValueCharAt, ValueShown, IsPlain;
    if k < |v| {
      PlainValueChar(t, v, k);
      PlainValue(t, v, k + 1);
      assert v[k..] == [v[k]] + v[k + 1..];
    }
  }

  /** Raw text without carriage returns is kept byte by byte, and a line end of two bytes is one
      line feed. */
  lemma {:induction false} RawKept(h: Bytes, q: nat, k: nat)
    requires q <= k <= |h| && forall j :: q <= j < k ==> h[j] != '\r'
    ensures RawOf(h, q, k) == h[q..k]
    decreases k - q
  {
    if q < k {
      RawKept(h, q + 1, k);
      assert h[q..k] == [h[q]] + h[q + 1..k];
    }
  }

  lemma RawLineEnd(h: Bytes, q: nat, k: nat)
    requires q + 1 < k <= |h| && h[q] == '\r' && h[q + 1] == '\n'
    ensures RawOf(h, q, k) == "\n" + RawOf(h, q + 2, k)
  {
    assert RawOf(h, q + 1, k) == ['\n'] + RawOf(h, q + 2, k);
  }

  // ---------- comments ----------

  /** A comment ends behind the first "-->" or "--!>" of its text and nowhere else. */
  lemma {:induction false} CommentMeans(h: Bytes, j: nat, e: nat)
    requires j <= e && EndsComment(h, e) && forall k :: j <= k < e ==> !EndsComment(h, k)
    ensures CommentScan(h, j) == e + if h[e + 2] == '>' then 3 else 4
    decreases e - j
  {
    if j < e {
      CommentMeans(h, j + 1, e);
    }
  }

  lemma {:induction false} CommentOpen(h: Bytes, j: nat)
    requires j <= |h| && forall k :: j <= k < |h| ==> !EndsComment(h, k)
    ensures CommentScan(h, j) == |h|
    decreases |h| - j
  {
    if j < |h| {
      CommentOpen(h, j + 1);
    }
  }

  // ---------- attributes ----------

  /** How an attribute's value is set off: by a quote of either kind, or by nothing. */
  datatype Quoting = Double | Single | Bare

  /** name="value", name='value' or name=value behind a blank. */
  datatype Attribute = Attribute(name: Bytes, value: Bytes, quoting: Quoting) {
    ghost predicate Valid() {
      && |name| > 0 && (forall k :: 0 <= k < |name| ==> IsNameChar(name[k]))
      && (forall k :: 0 <= k < |value| ==> IsValueChar(value[k], quoting)) && (quoting == Bare ==> |value| > 0)
    }

    function Mark(): Bytes {
      match quoting
      case Double => "\""
      case Single => "'"
      case Bare => ""
    }

    function Text(): Bytes {
      " " + name + "=" + Mark() + value + Mark()
    }
  }

  predicate IsNameChar(c: char) {
    !IsWs(c) && c != '=' && c != '>' && c != '/'
  }

  /** A plain character that does not end the value; a bare value holds no quotes. */
  predicate IsValueChar(c: char, q: Quoting) {
    IsPlain(c) && (q != Single ==> c != '"') && (q != Double ==> c != '\'') && (q == Bare ==> c != ' ' && c != '>')
  }

  function AttrsText(xs: seq<Attribute>): Bytes {
    if |xs| == 0 then "" else xs[0].Text() + AttrsText(xs[1..])
  }

  /** The parts of an attribute that stands at i, and the character behind it. */
  lemma AttrParts(h: Bytes, i: nat, a: Attribute)
    requires At(h, i, a.Text())
    ensures var e := i + 1 + |a.name|; var v := e + 1 + |a.Mark()|;
      && e < |h| && h[i] == ' ' && At(h, i + 1, a.name) && h[e] == '=' && At(h, e + 1, a.Mark())
      && At(h, v, a.value) && At(h, v + |a.value|, a.Mark()) && v + |a.value| + |a.Mark()| == i + |a.Text()|
  {
    hide *;
    var m := a.Mark();
    TextParts(a);
    AtJoined(h, i, " ", a.name + ("=" + (m + (a.value + m))));
    AtJoined(h, i + 1, a.name, "=" + (m + (a.value + m)));
    var e := i + 1 + |a.name|;
    AtJoined(h, e, "=", m + (a.value + m));
    AtJoined(h, e + 1, m, a.value + m);
    AtJoined(h, e + 1 + |m|, a.value, m);
    AtChar(h, i, " ", 0);
    AtChar(h, e, "=", 0);
    AtBound(h, e, "=");
  }

  lemma TextParts(a: Attribute)
    ensures var m := a.Mark(); a.Text() == " " + (a.name + ("=" + (m + (a.value + m))))
    ensures |a.Text()| == 2 + |a.name| + 2 * |a.Mark()| + |a.value|
  {
    hide Attribute.Mark;
    var m := a.Mark();
    assert a.Text() == " " + a.name + "=" + m + a.value + m;
  }

  lemma AtBound(h: Bytes, i: nat, s: Bytes)
    requires At(h, i, s)
    ensures i + |s| <= |h|
  {
  }

  lemma {:induction false} NameEnds(h: Bytes, i: nat, n: nat)
    requires i + n < |h| && h[i + n] == '=' && forall k :: i <= k < i + n ==> IsNameChar(h[k])
    ensures AttrEnd(h, i) == i + n
    decreases n
  {
    if n > 0 { NameEnds(h, i + 1, n - 1); }
  }

  /** The value of an attribute, found behind its '='. */
  lemma ValueFound(h: Bytes, e: nat, a: Attribute)
    requires a.Valid() && e < |h| && h[e] == '=' && At(h, e + 1, a.Mark())
    requires At(h, e + 1 + |a.Mark()|, a.value) && At(h, e + 1 + |a.Mark()| + |a.value|, a.Mark())
    requires var z := e + 1 + 2 * |a.Mark()| + |a.value|; z < |h| && (h[z] == ' ' || h[z] == '>')
    ensures var v := e + 1 + |a.Mark()|; ValueAt(h, e) == (v, v + |a.value|, v + |a.value| + |a.Mark()|)
  {
    hide Scan, At, Attribute.Valid, ValueAt;
    ValueChars(a);
    match a.quoting
    case Double => QuotedFound(h, e, a, '"');
    case Single => QuotedFound(h, e, a, '\'');
    case Bare => BareFound(h, e, a);
  }

  lemma QuotedFound(h: Bytes, e: nat, a: Attribute, q: char)
    requires a.quoting == (if q == '"' then Double else Single) && (q == '"' || q == '\'') && e < |h| && h[e] == '='
    requires At(h, e + 1, [q]) && At(h, e + 2, a.value) && At(h, e + 2 + |a.value|, [q])
    requires forall k :: 0 <= k < |a.value| ==> a.value[k] != q
    ensures ValueAt(h, e) == (e + 2, e + 2 + |a.value|, e + 3 + |a.value|)
  {
    hide Scan, At;
    AtChar(h, e + 1, [q], 0);
    AtChar(h, e + 2 + |a.value|, [q], 0);
    AtBound(h, e + 2 + |a.value|, [q]);
    ScanIs(h, e + 1, e + 1, NotWs);
    if q == '"' { ScanAt(h, e + 2, a.value, IsDouble); } else { ScanAt(h, e + 2, a.value, IsSingle); }
  }

  lemma BareFound(h: Bytes, e: nat, a: Attribute)
    requires e < |h| && h[e] == '=' && At(h, e + 1, a.value) && |a.value| > 0
    requires forall k :: 0 <= k < |a.value| ==>
      !EndsBare(a.value[k]) && a.value[k] != '"' && a.value[k] != '\'' && !IsWs(a.value[k])
    requires var z := e + 1 + |a.value|; z < |h| && (h[z] == ' ' || h[z] == '>')
    ensures ValueAt(h, e) == (e + 1, e + 1 + |a.value|, e + 1 + |a.value|)
  {
    hide Scan, At;
    AtChar(h, e + 1, a.value, 0);
    ScanIs(h, e + 1, e + 1, NotWs);
    ScanAt(h, e + 1, a.value, EndsBare);
  }

  lemma ValueChars(a: Attribute)
    requires a.Valid()
    ensures a.quoting == Double ==> forall k :: 0 <= k < |a.value| ==> a.value[k] != '"'
    ensures a.quoting == Single ==> forall k :: 0 <= k < |a.value| ==> a.value[k] != '\''
    ensures a.quoting == Bare ==> |a.value| > 0 && forall k :: 0 <= k < |a.value| ==>
      !EndsBare(a.value[k]) && a.value[k] != '"' && a.value[k] != '\'' && !IsWs(a.value[k])
    ensures AllPlain(a.value)
  {
    forall k | 0 <= k < |a.value|
      ensures IsValueChar(a.value[k], a.quoting)
    {
    }
  }

  /** An attribute is read back: its name in lower case, cut to 15 bytes, and its value. */
  lemma AttrRead(h: Bytes, i: nat, a: Attribute)
    requires a.Valid() && At(h, i, a.Text()) && i + |a.Text()| < |h|
    requires h[i + |a.Text()|] == ' ' || h[i + |a.Text()|] == '>'
    ensures ToAttr(h, i) == (i + 1, false)
    ensures var x := AttrAt(h, i + 1);
      && x.name == LowerAll(if |a.name| > 15 then a.name[..15] else a.name)
      && h[x.vs..x.ve] == a.value && x.next == i + |a.Text()|
  {
    hide Scan, IsNameChar, EndsAttr, ValueAt, LowerAll, Attribute.Valid, Attribute.Text, Attribute.Mark;
    var e := i + 1 + |a.name|;
    AttrParts(h, i, a);
    NameChars(h, i + 1, a);
    NameEnds(h, i + 1, |a.name|);
    ScanIs(h, e, e, NotWs);
    ValueFound(h, e, a);
    SkipsOne(h, i);
    assert h[i + 1..e] == a.name;
    assert |a.name| > 15 ==> h[i + 1..i + 16] == a.name[..15];
  }

  lemma NameChars(h: Bytes, i: nat, a: Attribute)
    requires a.Valid() && At(h, i, a.name)
    ensures |a.name| > 0 && i < |h| && IsNameChar(h[i])
    ensures forall k :: i <= k < i + |a.name| ==> k < |h| && IsNameChar(h[k])
  {
    hide IsNameChar;
    forall k | i <= k < i + |a.name| ensures k < |h| && IsNameChar(h[k]) {
      AtBound(h, i, a.name);
      AtChar(h, i, a.name, k - i);
    }
  }

  lemma SkipsOne(h: Bytes, i: nat)
    requires i + 1 < |h| && h[i] == ' ' && IsNameChar(h[i + 1])
    ensures ToAttr(h, i) == (i + 1, false)
  {
    assert ToAttr(h, i + 1) == (i + 1, false);
  }

  function NameId(t: Tables, a: Attribute): nat {
    t.attrId(LowerAll(if |a.name| > 15 then a.name[..15] else a.name))
  }

  /** What keeping the attributes leaves: those with a name of the table, in order, each with its
      value as it was written. */
  function KeptAll(t: Tables, xs: seq<Attribute>, attrs: seq<Attr>, pool: Bytes): (seq<Attr>, Bytes) {
    if |xs| == 0 then (attrs, pool)
    else
      var a, id := xs[0], NameId(t, xs[0]);
      if id == 0 || |attrs| >= 24576 then KeptAll(t, xs[1..], attrs, pool)
      else
        KeptAll(t, xs[1..], attrs + [Attr(id, if |a.value| > 65535 then 65535 else |a.value|, |pool|)], pool + a.value)
  }

  lemma TakenPlain(t: Tables, id: nat, v: Bytes, attrs: seq<Attr>, pool: Bytes)
    requires t.Bounded() && AllPlain(v)
    ensures Taken(t, id, v, attrs, pool)
      == (attrs + [Attr(id, if |v| > 65535 then 65535 else |v|, |pool|)], pool + v)
  {
    hide AllPlain, ValueText;
    PlainValue(t, v, 0);
    assert v[0..] == v;
  }

  function TagEnd(closed: bool): Bytes {
    if closed then " />" else ">"
  }

  lemma EndRead(h: Bytes, i: nat, closed: bool)
    requires At(h, i, TagEnd(closed))
    ensures var n := i + |TagEnd(closed)|; 0 < n <= |h| && ToAttr(h, i) == (n - 1, closed) && h[n - 1] == '>'
  {
    var s := TagEnd(closed);
    AtChar(h, i, s, |s| - 1);
    AtBound(h, i, s);
    if closed {
      AtChar(h, i, s, 0);
      AtChar(h, i, s, 1);
      assert ToAttr(h, i + 2) == (i + 2, false);
      assert ToAttr(h, i + 1) == (i + 2, true);
    }
  }

  lemma NextStarts(h: Bytes, i: nat, xs: seq<Attribute>, closed: bool)
    requires At(h, i, AttrsText(xs) + TagEnd(closed))
    ensures i < |h| && (h[i] == ' ' || h[i] == '>')
  {
    var s := AttrsText(xs) + TagEnd(closed);
    assert |s| > 0 && (s[0] == ' ' || s[0] == '>');
    AtBound(h, i, s);
    AtChar(h, i, s, 0);
  }

  /** All attributes of a tag are read back, in order, whatever stands behind the tag. */
  lemma {:induction false} AttrsRead(t: Tables, h: Bytes, i: nat, xs: seq<Attribute>, closed: bool,
                                     attrs: seq<Attr>, pool: Bytes)
    requires t.Bounded() && (forall k :: 0 <= k < |xs| ==> xs[k].Valid())
    requires At(h, i, AttrsText(xs) + TagEnd(closed)) && i <= |h|
    ensures var k := KeptAll(t, xs, attrs, pool);
      AttrsFrom(t, h, i, attrs, pool) == AttrRun(k.0, k.1, i + |AttrsText(xs) + TagEnd(closed)|, closed)
    decreases |xs|
  {
    hide At, ToAttr, AttrAt, Attribute.Valid, Attribute.Text, AttrsFrom, Taken, TagEnd, LowerAll;
    if |xs| == 0 {
      assert AttrsText(xs) + TagEnd(closed) == TagEnd(closed);
      EndRead(h, i, closed);
      AttrsOnce(t, h, i, attrs, pool);
    } else {
      var a, rest := xs[0], AttrsText(xs[1..]) + TagEnd(closed);
      assert AttrsText(xs) + TagEnd(closed) == a.Text() + rest;
      AtJoined(h, i, a.Text(), rest);
      AtBound(h, i, a.Text());
      NextStarts(h, i + |a.Text()|, xs[1..], closed);
      AttrRead(h, i, a);
      ValueChars(a);
      AttrsOnce(t, h, i, attrs, pool);
      NotAtEnd(h, i, a);
      var id, n := NameId(t, a), i + |a.Text()|;
      TakenPlain(t, id, a.value, attrs, pool);
      if id != 0 && |attrs| < 24576 {
        var attrs' := attrs + [Attr(id, if |a.value| > 65535 then 65535 else |a.value|, |pool|)];
        AttrsRead(t, h, n, xs[1..], closed, attrs', pool + a.value);
      } else {
        AttrsRead(t, h, n, xs[1..], closed, attrs, pool);
      }
    }
  }

  lemma NotAtEnd(h: Bytes, i: nat, a: Attribute)
    requires a.Valid() && At(h, i, a.Text())
    ensures i + 1 < |h| && h[i + 1] != '>'
  {
    hide IsNameChar, At, IsValueChar;
    AttrParts(h, i, a);
    NameChars(h, i + 1, a);
    NameCharIs(h[i + 1]);
  }

  lemma NameCharIs(c: char)
    requires IsNameChar(c)
    ensures c != '>'
  {
  }

  // ---------- tags ----------

  /** A tag's name: it starts with a letter and has neither blanks nor '/' nor '>' in it. */
  ghost predicate NameOk(name: Bytes) {
    |name| > 0 && IsAlpha(name[0]) && forall k :: 0 <= k < |name| ==> !EndsName(name[k])
  }

  /** The tag a name stands for. */
  function TagOfName(t: Tables, name: Bytes): Tag {
    t.tagId(LowerAll(if |name| > 15 then name[..15] else name))
  }

  lemma NameRead(t: Tables, h: Bytes, i: nat, name: Bytes)
    requires NameOk(name) && At(h, i, name) && (i + |name| < |h| ==> EndsName(h[i + |name|]))
    ensures i < |h| && IsAlpha(h[i]) && Scan(h, i, EndsName) == i + |name| <= |h|
    ensures t.tagId(NameOf(h, i, i + |name|)) == TagOfName(t, name)
    ensures TagOfName(t, name) != Unknown ==> TagAt(t, h, i, i + |name|) == TagOfName(t, name)
  {
    hide Scan, EndsName, IsAlpha, LowerAll;
    ScanAt(h, i, name, EndsName);
    AtChar(h, i, name, 0);
    AtBound(h, i, name);
    assert h[i..i + |name|] == name;
    assert |name| > 15 ==> h[i..i + 15] == name[..15];
  }
}
