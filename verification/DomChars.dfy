/** kernel/dom.h:243-379 and 430-466: from document bytes to the bytes of text nodes.  The
    tables of names, references and look-alikes are parameters. */
module DomChars {
  import opened Options
  import opened DomTags
  import opened Scanning

  /** The tables: character references (bytes consumed and code point), the bytes drawn for a
      code point, and the names of tags and attributes. */
  datatype Tables = Tables(entity: (Bytes, bool) -> Option<(nat, nat)>, drawn: nat -> Bytes,
                           tagId: Bytes -> Tag, tagName: Tag -> Bytes, attrId: Bytes -> nat)
  {
    /** dom_entity consumes something, and no more than there is. */
    ghost predicate Bounded() {
      forall s: Bytes, inAttr: bool :: entity(s, inAttr).Some? ==> 1 <= entity(s, inAttr).value.0 <= |s|
    }
  }

  predicate IsAlpha(c: char) {
    'A' <= c <= 'Z' || 'a' <= c <= 'z'
  }

  /** How long a UTF-8 sequence its first byte announces; 0 for a byte that cannot start one. */
  function Announced(c: int): nat {
    if 0xF0 <= c < 0xF8 then 4 else if 0xE0 <= c < 0xF0 then 3 else if 0xC2 <= c < 0xE0 then 2 else 0
  }

  predicate IsTail(c: char) {
    0x80 <= c as int < 0xC0
  }

  /** dom_utf8: bytes consumed and code point; a bad byte is U+FFFD on its own. */
  function Utf8(p: Bytes): (r: (nat, nat))
    requires |p| > 0
    ensures 1 <= r.0 <= |p|
  {
    var c := p[0] as int;
    var need := Announced(c);
    if c < 0x80 then (1, c)
    else if need == 0 || need > |p| then (1, 0xFFFD)
    else if need == 2 then
      if IsTail(p[1]) then (2, c % 32 * 64 + p[1] as int % 64) else (1, 0xFFFD)
    else if need == 3 then
      if IsTail(p[1]) && IsTail(p[2]) then (3, (c % 16 * 64 + p[1] as int % 64) * 64 + p[2] as int % 64) else (1, 0xFFFD)
    else
      if IsTail(p[1]) && IsTail(p[2]) && IsTail(p[3])
      then (4, ((c % 8 * 64 + p[1] as int % 64) * 64 + p[2] as int % 64) * 64 + p[3] as int % 64)
      else (1, 0xFFFD)
  }

  /** The bytes one code point of text leaves in the pool; pre is inside <pre> and its kin. */
  function Shown(t: Tables, cp: nat, pre: bool): Bytes {
    if cp == 9 && pre then "    "
    else if cp == 12 then " "
    else if cp == 9 then "\t"
    else if cp == 10 then "\n"
    else if cp < 0x20 || cp == 0x7F then ""
    else t.drawn(cp)
  }

  /** The code point at i and where the next one starts. */
  function CharAt(t: Tables, h: Bytes, i: nat, decode: bool): (r: (nat, nat))
    requires i < |h|
  {
    var e := if h[i] == '&' && decode then t.entity(h[i + 1..], false) else None;
    if e.Some? then (i + 1 + e.value.0, e.value.1)
    else if h[i] == '\r' then (if i + 1 < |h| && h[i + 1] == '\n' then i + 2 else i + 1, 10)
    else
      var u := Utf8(h[i..]);
      (i + u.0, u.1)
  }

  lemma CharAtMoves(t: Tables, h: Bytes, i: nat, decode: bool)
    requires i < |h| && t.Bounded()
    ensures i < CharAt(t, h, i, decode).0 <= |h|
  {
    hide Utf8;
    if h[i] == '&' && decode {
      assert t.entity(h[i + 1..], false).Some? ==> t.entity(h[i + 1..], false).value.0 <= |h[i + 1..]|;
    }
  }

  /** The text that h from i on amounts to. */
  ghost function TextOf(t: Tables, h: Bytes, i: nat, decode: bool, pre: bool): Bytes
    requires t.Bounded()
    decreases |h| - i
  {
    if i >= |h| then ""
    else
      CharAtMoves(t, h, i, decode);
      Shown(t, CharAt(t, h, i, decode).1, pre) + TextOf(t, h, CharAt(t, h, i, decode).0, decode, pre)
  }

  /** Raw text keeps its bytes, with line ends as single line feeds. */
  function RawOf(h: Bytes, q: nat, k: nat): Bytes
    requires q <= k <= |h|
    decreases k - q
  {
    if q == k then ""
    else if h[q] == '\r' && q + 1 < k && h[q + 1] == '\n' then RawOf(h, q + 1, k)
    else [if h[q] == '\r' then '\n' else h[q]] + RawOf(h, q + 1, k)
  }

  /** One line feed right after <pre> or <textarea> is dropped. */
  function Skipped(h: Bytes, skipLf: bool): (n: nat)
    ensures n <= |h|
  {
    if !skipLf then 0
    else if |h| > 0 && h[0] == '\n' then 1
    else if |h| > 1 && h[0] == '\r' && h[1] == '\n' then 2
    else 0
  }

  predicate IsPre(t: Tag) {
    t == Pre || t == Xmp || t == Textarea || t == Listing || t == Plaintext
  }

  function AnyPre(tags: seq<Tag>): bool
    decreases |tags|
  {
    |tags| > 0 && (IsPre(tags[|tags| - 1]) || AnyPre(tags[..|tags| - 1]))
  }

  predicate AllWs(h: Bytes) {
    forall k :: 0 <= k < |h| ==> IsWs(h[k])
  }
}
