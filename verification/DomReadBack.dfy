/** kernel/dom.h:546-809: a written tree is read back.  The markup of a forest of elements and
    texts, tokenized and built, leaves exactly the nodes of that forest. */
module DomReadBack {
  import opened DomTree
  import opened DomArena
  import opened DomTags
  import opened DomChars
  import opened DomBuild
  import opened DomParse
  import opened DomMarkup
  import opened Scanning

  // ---------- forests and their markup ----------

  /** Siblings: texts and elements in order. */
  datatype Forest =
    | Nothing
    | Words(text: Bytes, rest: Forest)
    | Element(name: Bytes, attrs: seq<Attribute>, children: Forest, rest: Forest)

  function Written(f: Forest): Bytes {
    match f
    case Nothing => ""
    case Words(x, rest) => x + Written(rest)
    case Element(name, xs, children, rest) => Start(name, xs) + (Written(children) + (End(name) + Written(rest)))
  }

  function Start(name: Bytes, xs: seq<Attribute>): Bytes {
    "<" + (name + (AttrsText(xs) + TagEnd(false)))
  }

  function End(name: Bytes): Bytes {
    "</" + (name + ">")
  }

  function Depth(f: Forest): nat {
    match f
    case Nothing => 0
    case Words(x, rest) => Depth(rest)
    case Element(name, xs, children, rest) =>
      if 1 + Depth(children) > Depth(rest) then 1 + Depth(children) else Depth(rest)
  }

  /** Elements that close nothing, hold markup, and are closed by their own end tag: the known
      tags without a rule of their own, and bold and italic text. */
  predicate Neutral(tag: Tag) {
    tag.Plain? || tag == B || tag == I
  }

  /** The elements are neutral, texts are plain and not empty, and no two of them adjoin. */
  ghost predicate Wellformed(t: Tables, f: Forest) {
    match f
    case Nothing => true
    case Words(x, rest) => |x| > 0 && AllPlain(x) && !rest.Words? && Wellformed(t, rest)
    case Element(name, xs, children, rest) =>
      && NameOk(name) && Neutral(TagOfName(t, name)) && (forall k :: 0 <= k < |xs| ==> xs[k].Valid())
      && Wellformed(t, children) && Wellformed(t, rest)
  }

  // ---------- the nodes of a forest ----------

  function Current(p: Page): nat {
    if |p.stk| > 0 then p.stk[|p.stk| - 1] else 0
  }

  /** A new last child of the current element. */
  function Grown(p: Page, kind: Kind, tag: Tag, a: nat, b: nat): Nodes {
    if Current(p) < |p.nodes| && p.nodes[Current(p)].last < |p.nodes|
    then DomTree.Append(p.nodes, Current(p), kind, tag, a, b) else p.nodes
  }

  /** A text node with the bytes of x. */
  function WithWords(p: Page, x: Bytes): Page {
    p.(nodes := Grown(p, Text, NoTag, |p.pool|, |x|), pool := p.pool + x, txt := |p.nodes|)
  }

  /** An element that owns the attributes behind those of p, open. */
  function WithNode(p: Page, tag: Tag, attrs: seq<Attr>, pool: Bytes): Page {
    p.(nodes := Grown(p, Elem, tag, |p.attrs|, if |attrs| > |p.attrs| then |attrs| - |p.attrs| else 0),
       attrs := attrs, pool := pool, stk := p.stk + [|p.nodes|], txt := 0)
  }

  /** An element with its attributes, open. */
  function WithElement(t: Tables, p: Page, tag: Tag, xs: seq<Attribute>): Page {
    var k := KeptAll(t, xs, p.attrs, p.pool);
    WithNode(p, tag, k.0, k.1)
  }

  /** The nodes of a forest under the current element: each node behind its elder siblings, each
      element before its children. */
  function Built(t: Tables, p: Page, f: Forest): Page
    decreases f
  {
    match f
    case Nothing => p
    case Words(x, rest) => Built(t, WithWords(p, x), rest)
    case Element(name, xs, children, rest) =>
      var inner := Built(t, WithElement(t, p, TagOfName(t, name), xs), children);
      Built(t, inner.(stk := p.stk, txt := 0), rest)
  }

  // ---------- neutral tags ----------

  /** What a neutral tag is not. */
  ghost predicate Ordinary(tag: Tag) {
    && MakesElement(tag) && !IsVoid(tag) && Rawness(tag) == 0 && !DropsLine(tag)
    && tag != Textarea && tag != Plaintext && tag != Svg && tag != Math && tag != Td && tag != Th && tag != Unknown
    && tag != Html && tag != Head && tag != Body && tag != Br && tag != P
  }

  lemma PlainOrdinary(tag: Tag)
    requires tag.Plain?
    ensures Ordinary(tag)
  {
  }

  lemma BoldOrdinary()
    ensures Ordinary(B)
  {
  }

  lemma ItalicOrdinary()
    ensures Ordinary(I)
  {
  }

  lemma NeutralOrdinary(tag: Tag)
    requires Neutral(tag)
    ensures Ordinary(tag)
  {
    hide Ordinary;
    BoldOrdinary();
    ItalicOrdinary();
    if tag.Plain? { PlainOrdinary(tag); }
  }

  /** Neutral tags close nothing when they open. */
  ghost predicate Quiet(tag: Tag) {
    !ClosesP(tag) && !IsHeading(tag) && EndScope(tag).Anywhere? && forall tags: seq<Tag> :: LeftOwn(tags, tag) == |tags|
  }

  lemma PlainQuiet(tag: Tag)
    requires tag.Plain?
    ensures Quiet(tag)
  {
    hide FindItem, Find, PopToContext, Cut, PopIf;
  }

  lemma BoldQuiet()
    ensures Quiet(B)
  {
    hide FindItem, Find, PopToContext, Cut, PopIf;
  }

  lemma ItalicQuiet()
    ensures Quiet(I)
  {
    hide FindItem, Find, PopToContext, Cut, PopIf;
  }

  lemma NeutralQuiet(tag: Tag)
    requires Neutral(tag)
    ensures Quiet(tag)
  {
    hide Quiet;
    BoldQuiet();
    ItalicQuiet();
    if tag.Plain? { PlainQuiet(tag); }
  }

  lemma NeutralLeft(tags: seq<Tag>, tag: Tag)
    requires Neutral(tag)
    ensures Left(tags, tag) == |tags|
  {
    NeutralQuiet(tag);
    hide LeftOwn, ClosesP, IsHeading, EndScope, Neutral, Find;
    assert tags[..|tags|] == tags;
  }

  lemma NeutralEnds(tags: seq<Tag>, tag: Tag)
    requires Neutral(tag) && |tags| > 0 && tags[|tags| - 1] == tag
    ensures EndLeft(tags, tag) == |tags| - 1
  {
    NeutralQuiet(tag);
    hide LeftOwn, ClosesP, IsHeading, EndScope, Neutral, Find, EndLeft, ScopeStop;
    EndClosesInScope(tags, tag, |tags| - 1);
  }

  // ---------- one token ----------

  /** In the body, with no line feed to drop. */
  ghost predicate Ready(p: Page) {
    PageOk(p) && !p.inHead && !p.skipLf
  }

  lemma ReadyIs(p: Page)
    requires Ready(p)
    ensures StackOk(p.nodes, p.stk, false) && !p.inHead && !p.skipLf && 2 <= |p.stk| <= 192
    ensures Current(p) < |p.nodes| && p.nodes[Current(p)].last < |p.nodes| && |p.nodes| > 0
    ensures forall k :: 0 <= k < |p.stk| ==> p.stk[k] < |p.nodes|
    ensures forall i :: 0 <= i < |p.nodes| ==> p.nodes[i].last < |p.nodes|
  {
    BuilderMeans(p.nodes, p.attrs, p.pool, p.stk, p.inHead, p.txt);
    LastsIn(p.nodes, p.attrs, p.pool);
    hide ArenaOk, StackOk;
  }

  lemma LastsIn(ns: Nodes, attrs: seq<Attr>, pool: Bytes)
    requires ArenaOk(ns, attrs, pool)
    ensures forall i :: 0 <= i < |ns| ==> ns[i].last < |ns|
  {
    hide Owns, ValuesBelow, Apart, TextNonempty;
    forall i | 0 <= i < |ns| ensures ns[i].last < |ns| {
      assert EndsOk(ns, i);
    }
  }

  /** No text before the next node runs on. */
  ghost predicate NoText(p: Page) {
    p.txt == 0 && Current(p) < |p.nodes| && p.nodes[Current(p)].last < |p.nodes|
    && (p.nodes[Current(p)].last != 0 ==> p.nodes[p.nodes[Current(p)].last].kind != Text)
  }

  lemma GrownText(ns: Nodes, cur: nat, len: nat, k: nat)
    requires cur < |ns| && ns[cur].last < |ns| && k >= 1
    ensures var r := DomTree.Append(ns, cur, Text, NoTag, len, 1);
      r[|ns| := r[|ns|].(b := r[|ns|].b + (k - 1))] == DomTree.Append(ns, cur, Text, NoTag, len, k)
  {
    var r, q := DomTree.Append(ns, cur, Text, NoTag, len, 1), DomTree.Append(ns, cur, Text, NoTag, len, k);
    assert forall i :: 0 <= i < |ns| ==> r[i] == q[i];
  }

  /** A text goes to a new node of its own. */
  lemma TextMade(ns: Nodes, cur: nat, len: nat, k: nat)
    requires cur < |ns| && ns[cur].last < |ns| && k >= 1 && |ns| > 0
    requires ns[cur].last != 0 ==> ns[ns[cur].last].kind != Text
    ensures Sunken(ns, 0, cur, len, k) == (DomTree.Append(ns, cur, Text, NoTag, len, k), |ns|)
  {
    hide DomTree.Append;
    SunkenGrows(ns, 0, cur, len, k);
    GrownText(ns, cur, len, k);
    AppendEnd(ns, cur, len);
  }

  lemma AppendEnd(ns: Nodes, cur: nat, len: nat)
    requires cur < |ns| && ns[cur].last < |ns|
    ensures DomTree.Append(ns, cur, Text, NoTag, len, 1)[|ns|].b == 1
  {
  }

  lemma PlainBytes(t: Tables, x: Bytes, pre: bool)
    requires t.Bounded() && DrawsAscii(t) && AllPlain(x)
    ensures TextOf(t, x, Skipped(x, false), true, pre) == x
  {
    hide AllPlain, TextOf;
    PlainText(t, x, 0, true, pre);
    assert x[0..] == x;
  }

  lemma TextStep(t: Tables, x: Bytes, a: Page)
    requires t.Bounded() && DrawsAscii(t) && AllPlain(x) && |x| > 0 && Ready(a) && NoText(a)
    ensures WithText(t, x, true, a) == WithWords(a, x)
  {
    hide *;
    ReadyIs(a);
    CurrentIs(a);
    NoTextIs(a);
    PlainBytes(t, x, AnyPre(TagsOf(a.nodes, a.stk)));
    TextMade(a.nodes, Current(a), |a.pool|, |x|);
    WithTextBody(t, x, a);
    WordsAre(a, x);
  }

  lemma NoTextIs(a: Page)
    requires NoText(a)
    ensures a.txt == 0 && Current(a) < |a.nodes| && a.nodes[Current(a)].last < |a.nodes|
    ensures a.nodes[Current(a)].last != 0 ==> a.nodes[a.nodes[Current(a)].last].kind != Text
  {
    hide Current;
  }

  lemma WithTextBody(t: Tables, x: Bytes, a: Page)
    requires t.Bounded() && !a.inHead && !a.skipLf && |a.stk| > 0
    requires forall k :: 0 <= k < |a.stk| ==> a.stk[k] < |a.nodes|
    ensures var text := TextOf(t, x, Skipped(x, false), true, AnyPre(TagsOf(a.nodes, a.stk)));
      var r := Sunken(a.nodes, a.txt, a.stk[|a.stk| - 1], |a.pool|, |text|);
      WithText(t, x, true, a) == a.(nodes := r.0, txt := r.1, pool := a.pool + text, skipLf := false)
  {
    hide TextOf, Sunken, Skipped, AnyPre, TagsOf, AllWs;
  }

  lemma WordsAre(a: Page, x: Bytes)
    requires Current(a) < |a.nodes| && a.nodes[Current(a)].last < |a.nodes|
    ensures WithWords(a, x)
      == a.(nodes := DomTree.Append(a.nodes, Current(a), Text, NoTag, |a.pool|, |x|), pool := a.pool + x,
            txt := |a.nodes|)
  {
    hide DomTree.Append, Current;
  }

  /** Markup or the end comes at i. */
  predicate MarkupAt(h: Bytes, i: nat) {
    i == |h| || (i < |h| && h[i] == '<')
  }

  lemma TextToken(t: Tables, h: Bytes, i: nat, x: Bytes, a: Page, b: Page, next: nat)
    requires t.Bounded() && DrawsAscii(t) && AllPlain(x) && |x| > 0 && Ready(a) && NoText(a)
    requires At(h, i, x) && MarkupAt(h, i + |x|) && i < |h| && Token(t, h, i, a, b, next)
    ensures next == i + |x| && b == WithWords(a, x)
  {
    hide Scan, WithText, Ready, NoText, StartDone, EndTagDone, WithWords, Grown;
    AtChar(h, i, x, 0);
    ScanAt(h, i, x, IsLt);
    assert h[i..i + |x|] == x;
    TextStep(t, x, a);
  }

  lemma StartParts(h: Bytes, i: nat, name: Bytes, xs: seq<Attribute>)
    requires At(h, i, Start(name, xs)) && NameOk(name)
    ensures i + 1 < |h| && h[i] == '<' && IsAlpha(h[i + 1]) && h[i + 1] != '!' && h[i + 1] != '?' && h[i + 1] != '/'
    ensures At(h, i + 1, name) && At(h, i + 1 + |name|, AttrsText(xs) + TagEnd(false))
    ensures i + 1 + |name| < |h| && EndsName(h[i + 1 + |name|])
    ensures i + |Start(name, xs)| == i + 1 + |name| + |AttrsText(xs) + TagEnd(false)|
  {
    var tail := AttrsText(xs) + TagEnd(false);
    hide At, AttrsText, TagEnd, NameOk;
    AtJoined(h, i, "<", name + tail);
    AtJoined(h, i + 1, name, tail);
    AtChar(h, i, "<", 0);
    FirstLetter(h, i + 1, name);
    NextStarts(h, i + 1 + |name|, xs, false);
  }

  lemma FirstLetter(h: Bytes, i: nat, name: Bytes)
    requires At(h, i, name) && NameOk(name)
    ensures i < |h| && IsAlpha(h[i]) && h[i] != '!' && h[i] != '?' && h[i] != '/'
  {
    AtChar(h, i, name, 0);
    AtBound(h, i, name);
  }

  /** What opening a neutral element does. */
  lemma OrdinaryRow(ns: Nodes, stk: seq<nat>, tag: Tag, ns': Nodes, stk': seq<nat>)
    requires StackOk(ns, stk, false) && Ordinary(tag) && RowSupplied(ns, stk, false, tag, ns', stk')
    ensures ns' == ns && stk' == stk
  {
    hide StackOk, MakesElement, IsVoid, Rawness, DropsLine, Inserted;
  }

  lemma Opening(a: Page, tag: Tag, first: nat, mark: nat, c: Page, el: nat)
    requires Neutral(tag) && Started(a, tag, first, mark, false, c, el) && !a.inHead && |a.stk| < 192
    ensures Current(a) < |a.nodes| && a.nodes[Current(a)].last < |a.nodes| && el == |a.nodes| && first <= |a.attrs|
    ensures c == a.(nodes := DomTree.Append(a.nodes, Current(a), Elem, tag, first, |a.attrs| - first),
                    stk := a.stk + [|a.nodes|], txt := 0)
  {
    hide *;
    NeutralOrdinary(tag);
    StartedParts(a, tag, first, mark, c, el);
    OpenedNeutral(a.nodes, a.stk, tag, first, |a.attrs| - first, c.nodes, c.stk, c.inHead, el);
    CurrentIs(a);
  }

  lemma CurrentIs(a: Page)
    requires |a.stk| > 0
    ensures Current(a) == a.stk[|a.stk| - 1]
  {
  }

  /** In the body nothing is closed and no row is supplied. */
  lemma OpenedNeutral(ns: Nodes, stk: seq<nat>, tag: Tag, first: nat, n: nat, ns': Nodes, stk': seq<nat>,
                      inHead': bool, el: nat)
    requires StackOk(ns, stk, false) && Neutral(tag) && |stk| < 192
    requires Opened(ns, stk, false, tag, first, n, ns', stk', inHead', el, true)
    ensures |stk| > 0 && stk[|stk| - 1] < |ns| && ns[stk[|stk| - 1]].last < |ns| && el == |ns| && !inHead'
    ensures ns' == DomTree.Append(ns, stk[|stk| - 1], Elem, tag, first, n) && stk' == stk + [el]
  {
    NeutralOrdinary(tag);
    StackIn(ns, stk);
    NeutralLeft(TagsOf(ns, stk), tag);
    OpenedWhole(ns, stk, tag, first, n, ns', stk', inHead', el);
    hide *;
    var ns1, s1 :| RowSupplied(ns, stk, false, tag, ns1, s1) && Inserted(ns1, s1, ns', stk', tag, first, n, el, true);
    OrdinaryRow(ns, stk, tag, ns1, s1);
    InsertedParts(ns, stk, ns', stk', tag, first, n, el);
  }

  lemma OpenedWhole(ns: Nodes, stk: seq<nat>, tag: Tag, first: nat, n: nat, ns': Nodes, stk': seq<nat>,
                    inHead': bool, el: nat)
    requires StackOk(ns, stk, false) && (forall k :: 0 <= k < |stk| ==> stk[k] < |ns|)
    requires Left(TagsOf(ns, stk), tag) == |stk|
    requires Opened(ns, stk, false, tag, first, n, ns', stk', inHead', el, true)
    ensures !inHead' && exists ns1, s1 ::
      RowSupplied(ns, stk, false, tag, ns1, s1) && Inserted(ns1, s1, ns', stk', tag, first, n, el, true)
  {
    hide StackOk, Left, TagsOf, RowSupplied, Inserted, IsHeadish;
    assert stk[..|stk|] == stk;
  }

  lemma StackIn(ns: Nodes, stk: seq<nat>)
    requires StackOk(ns, stk, false)
    ensures forall k :: 0 <= k < |stk| ==> stk[k] < |ns|
  {
  }

  lemma InsertedParts(ns: Nodes, stk: seq<nat>, ns': Nodes, stk': seq<nat>, tag: Tag, a: nat, b: nat, n: nat)
    requires Inserted(ns, stk, ns', stk', tag, a, b, n, true) && |stk| < 192
    ensures n == |ns| && |stk| > 0 && stk[|stk| - 1] < |ns| && ns[stk[|stk| - 1]].last < |ns|
    ensures ns' == DomTree.Append(ns, stk[|stk| - 1], Elem, tag, a, b) && stk' == stk + [n]
  {
    hide DomTree.Append;
  }

  lemma StartedParts(a: Page, tag: Tag, first: nat, mark: nat, c: Page, el: nat)
    requires Ordinary(tag) && Started(a, tag, first, mark, false, c, el) && !a.inHead
    ensures StackOk(a.nodes, a.stk, false) && first <= |a.attrs|
    ensures c.txt == 0 && c.skipLf == a.skipLf && c.attrs == a.attrs && c.pool == a.pool && c.foreign == a.foreign
    ensures Opened(a.nodes, a.stk, false, tag, first, |a.attrs| - first, c.nodes, c.stk, c.inHead, el, true)
  {
    hide *;
    OrdinaryOpens(tag, a.foreign);
    StartedMaker(a, tag, first, mark, c, el);
  }

  lemma StartedMaker(a: Page, tag: Tag, first: nat, mark: nat, c: Page, el: nat)
    requires MakesElement(tag) && Started(a, tag, first, mark, false, c, el)
    ensures StackOk(a.nodes, a.stk, a.inHead) && first <= |a.attrs|
    ensures c.txt == 0 && c.skipLf == a.skipLf && c.attrs == a.attrs && c.pool == a.pool
    ensures c.foreign == a.foreign + Nesting(tag, false)
    ensures Opened(a.nodes, a.stk, a.inHead, tag, first, |a.attrs| - first, c.nodes, c.stk, c.inHead, el,
                   Opens(tag, false, a.foreign))
  {
    hide StackOk, Opened, MakesElement, Nesting, Opens, Absorbed;
  }

  lemma OrdinaryOpens(tag: Tag, foreign: nat)
    requires Ordinary(tag)
    ensures MakesElement(tag) && Opens(tag, false, foreign) && Nesting(tag, false) == 0
  {
    hide MakesElement, IsVoid, Rawness, DropsLine;
  }

  /** The start tag of a neutral element, with its attributes. */
  lemma StartToken(t: Tables, h: Bytes, i: nat, name: Bytes, xs: seq<Attribute>, a: Page, b: Page, next: nat)
    requires t.Bounded() && NameOk(name) && Neutral(TagOfName(t, name)) && (forall k :: 0 <= k < |xs| ==> xs[k].Valid())
    requires Ready(a) && |a.stk| < 192 && At(h, i, Start(name, xs)) && i < |h| && Token(t, h, i, a, b, next)
    ensures next == i + |Start(name, xs)| && b == WithElement(t, a, TagOfName(t, name), xs)
  {
    hide *;
    ReadyIs(a);
    StartParts(h, i, name, xs);
    TokenStart(t, h, i, a, b, next);
    var j, tag := i + 1 + |name|, TagOfName(t, name);
    NeutralOrdinary(tag);
    OrdinaryKnown(tag);
    NameRead(t, h, i + 1, name);
    AttrsRead(t, h, j, xs, false, a.attrs, a.pool);
    KeptMore(t, xs, a.attrs, a.pool);
    StartDoneParts(t, h, i + 1, j, tag, AttrsFrom(t, h, j, a.attrs, a.pool), a, b, next);
    ElementIs(t, a, tag, xs);
  }

  lemma TokenStart(t: Tables, h: Bytes, i: nat, a: Page, b: Page, next: nat)
    requires t.Bounded() && i + 1 < |h| && h[i] == '<' && IsAlpha(h[i + 1]) && Token(t, h, i, a, b, next)
    requires h[i + 1] != '!' && h[i + 1] != '?' && h[i + 1] != '/'
    ensures StartDone(t, h, i + 1, a, b, next)
  {
    hide StartDone, IsAlpha, WithText, EndTagDone, Scan, BehindDeclaration;
  }

  lemma OrdinaryKnown(tag: Tag)
    requires Ordinary(tag)
    ensures tag != Unknown
  {
    hide MakesElement, IsVoid, Rawness, DropsLine;
  }

  lemma {:induction false} KeptMore(t: Tables, xs: seq<Attribute>, attrs: seq<Attr>, pool: Bytes)
    ensures |attrs| <= |KeptAll(t, xs, attrs, pool).0|
    decreases |xs|
  {
    hide NameId;
    if |xs| > 0 {
      var a, id := xs[0], NameId(t, xs[0]);
      if id == 0 || |attrs| >= 24576 {
        KeptMore(t, xs[1..], attrs, pool);
      } else {
        var n := if |a.value| > 65535 then 65535 else |a.value|;
        KeptMore(t, xs[1..], attrs + [Attr(id, n, |pool|)], pool + a.value);
      }
    }
  }

  lemma StartDoneParts(t: Tables, h: Bytes, ns: nat, j: nat, tag: Tag, r: AttrRun, a: Page, b: Page, next: nat)
    requires t.Bounded() && ns <= j <= |h| && ns < |h| && j == Scan(h, ns, EndsName) && tag == TagAt(t, h, ns, j)
    requires r == AttrsFrom(t, h, j, a.attrs, a.pool) && !r.selfclose && |a.attrs| <= |r.attrs|
    requires StartDone(t, h, ns, a, b, next) && Neutral(tag) && Ready(a) && |a.stk| < 192
    ensures next == r.next && b == WithNode(a, tag, r.attrs, r.pool)
  {
    hide *;
    ReadyIs(a);
    var c, el := StartDoneOpened(t, h, ns, j, tag, r, a, b, next);
    var w := WithAttrs(a, r, tag);
    NeutralOrdinary(tag);
    WithAttrsPlain(a, r, tag);
    Opening(w, tag, |a.attrs|, |a.pool|, c, el);
    CurrentIs(a);
    CurrentIs(w);
    InsidePlain(t, h, r.next, tag, el, c, b, next);
    NodeIs(a, tag, r.attrs, r.pool);
  }

  lemma StartDoneOpened(t: Tables, h: Bytes, ns: nat, j: nat, tag: Tag, r: AttrRun, a: Page, b: Page, next: nat)
      returns (c: Page, el: nat)
    requires t.Bounded() && ns <= j <= |h| && ns < |h| && j == Scan(h, ns, EndsName) && tag == TagAt(t, h, ns, j)
    requires r == AttrsFrom(t, h, j, a.attrs, a.pool) && StartDone(t, h, ns, a, b, next)
    ensures r.next <= |h| && Started(WithAttrs(a, r, tag), tag, |a.attrs|, |a.pool|, r.selfclose, c, el)
    ensures Inside(t, h, r.next, tag, r.selfclose, el, c.(skipLf := c.skipLf || DropsLine(tag)), b, next)
  {
    hide AttrsFrom, TagAt, Scan, Started, Inside, WithAttrs, DropsLine;
    c, el :| Started(WithAttrs(a, r, tag), tag, |a.attrs|, |a.pool|, r.selfclose, c, el)
      && Inside(t, h, r.next, tag, r.selfclose, el, c.(skipLf := c.skipLf || DropsLine(tag)), b, next);
  }

  lemma WithAttrsPlain(a: Page, r: AttrRun, tag: Tag)
    requires Ordinary(tag) && !a.skipLf
    ensures WithAttrs(a, r, tag) == a.(attrs := r.attrs, pool := r.pool)
  {
    hide MakesElement, IsVoid, Rawness, DropsLine;
  }

  lemma InsidePlain(t: Tables, h: Bytes, i: nat, tag: Tag, el: nat, c: Page, b: Page, next: nat)
    requires t.Bounded() && i <= |h| && Ordinary(tag) && !c.skipLf
    requires Inside(t, h, i, tag, false, el, c.(skipLf := c.skipLf || DropsLine(tag)), b, next)
    ensures b == c && next == i
  {
    hide MakesElement, IsVoid, Rawness, DropsLine, WithText, RawDone;
  }

  lemma NodeIs(a: Page, tag: Tag, attrs: seq<Attr>, pool: Bytes)
    requires Current(a) < |a.nodes| && a.nodes[Current(a)].last < |a.nodes| && |a.attrs| <= |attrs|
    ensures WithNode(a, tag, attrs, pool)
      == a.(nodes := DomTree.Append(a.nodes, Current(a), Elem, tag, |a.attrs|, |attrs| - |a.attrs|), attrs := attrs,
            pool := pool, stk := a.stk + [|a.nodes|], txt := 0)
  {
    hide DomTree.Append, Current;
  }

  lemma ElementIs(t: Tables, a: Page, tag: Tag, xs: seq<Attribute>)
    ensures var k := KeptAll(t, xs, a.attrs, a.pool); WithElement(t, a, tag, xs) == WithNode(a, tag, k.0, k.1)
  {
    hide WithNode, KeptAll;
  }

  /** The end tag of the current element, if that is neutral. */
  lemma EndToken(t: Tables, h: Bytes, i: nat, name: Bytes, a: Page, b: Page, next: nat)
    requires t.Bounded() && NameOk(name) && Neutral(TagOfName(t, name)) && Ready(a)
    requires Current(a) < |a.nodes| && a.nodes[Current(a)].tag == TagOfName(t, name)
    requires At(h, i, End(name)) && i < |h| && Token(t, h, i, a, b, next)
    ensures |a.stk| > 0 && next == i + |End(name)| && b == a.(stk := a.stk[..|a.stk| - 1], txt := 0)
  {
    hide *;
    ReadyIs(a);
    EndParts(h, i, name);
    NameRead(t, h, i + 2, name);
    TokenEnd(t, h, i, a, b, next);
    var j, tag := i + 2 + |name|, TagOfName(t, name);
    BehindHere(h, j);
    EndDoneParts(t, h, i, j, tag, a, b, next);
    NeutralOrdinary(tag);
    CurrentIs(a);
    Closing(a, tag, b);
  }

  lemma EndParts(h: Bytes, i: nat, name: Bytes)
    requires At(h, i, End(name)) && NameOk(name)
    ensures i + 2 < |h| && h[i] == '<' && h[i + 1] == '/' && At(h, i + 2, name)
    ensures var j := i + 2 + |name|; j < |h| && h[j] == '>' && EndsName(h[j]) && i + |End(name)| == j + 1
  {
    hide At;
    AtJoined(h, i, "</", name + ">");
    AtJoined(h, i + 2, name, ">");
    AtChar(h, i, "</", 0);
    AtChar(h, i, "</", 1);
    AtChar(h, i + 2 + |name|, ">", 0);
    AtBound(h, i + 2 + |name|, ">");
  }

  lemma TokenEnd(t: Tables, h: Bytes, i: nat, a: Page, b: Page, next: nat)
    requires t.Bounded() && i + 1 < |h| && h[i] == '<' && h[i + 1] == '/' && Token(t, h, i, a, b, next)
    ensures EndTagDone(t, h, i, a, b, next)
  {
    hide StartDone, IsAlpha, WithText, EndTagDone, Scan, BehindDeclaration;
  }

  lemma BehindHere(h: Bytes, j: nat)
    requires j < |h| && h[j] == '>'
    ensures Behind(h, j) == j + 1
  {
  }

  lemma EndDoneParts(t: Tables, h: Bytes, i: nat, j: nat, tag: Tag, a: Page, b: Page, next: nat)
    requires i + 2 < |h| && IsAlpha(h[i + 2]) && j == Scan(h, i + 2, EndsName) && tag == t.tagId(NameOf(h, i + 2, j))
    requires EndTagDone(t, h, i, a, b, next)
    ensures next == Behind(h, j) && EndDone(a, tag, b)
  {
    hide IsAlpha, Scan, NameOf, Behind, EndDone;
  }

  lemma Closing(a: Page, tag: Tag, b: Page)
    requires Neutral(tag) && Ordinary(tag) && StackOk(a.nodes, a.stk, false) && !a.inHead && |a.stk| > 0
    requires forall k :: 0 <= k < |a.stk| ==> a.stk[k] < |a.nodes|
    requires a.nodes[a.stk[|a.stk| - 1]].tag == tag && EndDone(a, tag, b)
    ensures b == a.(stk := a.stk[..|a.stk| - 1], txt := 0)
  {
    hide *;
    TopTag(a.nodes, a.stk);
    NeutralEnds(TagsOf(a.nodes, a.stk), tag);
    EndDoneOrdinary(a, tag, b);
  }

  lemma TopTag(ns: Nodes, stk: seq<nat>)
    requires |stk| > 0 && forall k :: 0 <= k < |stk| ==> stk[k] < |ns|
    ensures |TagsOf(ns, stk)| == |stk| && TagsOf(ns, stk)[|stk| - 1] == ns[stk[|stk| - 1]].tag
  {
  }

  lemma EndDoneOrdinary(a: Page, tag: Tag, b: Page)
    requires Ordinary(tag) && StackOk(a.nodes, a.stk, false) && !a.inHead
    requires forall k :: 0 <= k < |a.stk| ==> a.stk[k] < |a.nodes|
    requires EndDone(a, tag, b)
    ensures b == a.(stk := a.stk[..EndLeft(TagsOf(a.nodes, a.stk), tag)], txt := 0)
  {
    OrdinaryEnds(tag, a.foreign);
    hide StackOk, Ordinary, EndLeft, TagsOf, Unnesting, Opened, PEnded;
  }

  lemma OrdinaryEnds(tag: Tag, foreign: nat)
    requires Ordinary(tag)
    ensures Unnesting(tag, foreign) == foreign
    ensures tag != Html && tag != Head && tag != Body && tag != Br && tag != P
  {
    hide MakesElement, IsVoid, Rawness, DropsLine;
  }

  // ---------- the tree that was written ----------

  ghost predicate Shaped(p: Page) {
    |p.stk| > 0 && Current(p) < |p.nodes| && forall i :: 0 <= i < |p.nodes| ==> p.nodes[i].last < |p.nodes|
  }

  /** Nodes ns of p are still there in q, and only the current element of p has other children. */
  ghost predicate Extends(p: Page, q: Page) {
    && |p.nodes| <= |q.nodes|
    && (forall i :: 0 <= i < |p.nodes| ==> p.nodes[i].kind == q.nodes[i].kind && p.nodes[i].tag == q.nodes[i].tag)
    && (forall i :: 0 <= i < |p.nodes| && i != Current(p) ==> p.nodes[i].last == q.nodes[i].last)
  }

  lemma GrownShape(p: Page, kind: Kind, tag: Tag, a: nat, b: nat)
    requires Shaped(p)
    ensures var r := Grown(p, kind, tag, a, b); var n := |p.nodes|;
      && |r| == n + 1 && r[n].kind == kind && r[n].tag == tag && r[n].last == 0 && r[Current(p)].last == n
      && (forall i :: 0 <= i < n ==> r[i].kind == p.nodes[i].kind && r[i].tag == p.nodes[i].tag)
      && (forall i :: 0 <= i < n && i != Current(p) ==> r[i].last == p.nodes[i].last)
      && (forall i :: 0 <= i <= n ==> r[i].last < n + 1)
  {
  }

  lemma WordsShape(p: Page, x: Bytes)
    requires Shaped(p)
    ensures var q := WithWords(p, x);
      Shaped(q) && Extends(p, q) && q.stk == p.stk && q.inHead == p.inHead && q.skipLf == p.skipLf
  {
    GrownShape(p, Text, NoTag, |p.pool|, |x|);
    hide Grown;
  }

  lemma NodeShape(p: Page, tag: Tag, attrs: seq<Attr>, pool: Bytes)
    requires Shaped(p)
    ensures var q := WithNode(p, tag, attrs, pool); var n := |p.nodes|;
      && Shaped(q) && Extends(p, q) && q.stk == p.stk + [n]
      && q.inHead == p.inHead && q.skipLf == p.skipLf && q.txt == 0
      && |q.nodes| == n + 1 && q.nodes[n].kind == Elem && q.nodes[n].tag == tag && q.nodes[n].last == 0
      && Current(q) == n && q.nodes[Current(p)].last == n
  {
    GrownShape(p, Elem, tag, |p.attrs|, if |attrs| > |p.attrs| then |attrs| - |p.attrs| else 0);
    NodeFields(p, tag, attrs, pool);
    hide Grown, WithNode, Current;
  }

  lemma NodeFields(p: Page, tag: Tag, attrs: seq<Attr>, pool: Bytes)
    ensures var q := WithNode(p, tag, attrs, pool);
      && q.nodes == Grown(p, Elem, tag, |p.attrs|, if |attrs| > |p.attrs| then |attrs| - |p.attrs| else 0)
      && q.stk == p.stk + [|p.nodes|] && q.inHead == p.inHead && q.skipLf == p.skipLf && q.txt == 0
      && Current(q) == |p.nodes|
  {
    hide Grown;
  }

  lemma ExtendsBoth(p: Page, q: Page, r: Page)
    requires Extends(p, q) && Extends(q, r) && (Current(q) == Current(p) || Current(q) >= |p.nodes|)
    ensures Extends(p, r)
  {
    hide Current;
  }

  /** After the children of an element its parent is current again, with that element as its last
      child. */
  lemma Reopened(p: Page, q: Page, r: Page)
    requires Shaped(p) && Shaped(q) && Shaped(r) && Extends(p, q) && Extends(q, r)
    requires |q.nodes| == |p.nodes| + 1 && Current(q) == |p.nodes| && q.nodes[Current(p)].last == |p.nodes|
    requires q.nodes[|p.nodes|].kind == Elem && r.stk == q.stk
    ensures var s := r.(stk := p.stk, txt := 0); Shaped(s) && Extends(p, s) && NoText(s) && Current(s) == Current(p)
  {
    ExtendsBoth(p, q, r);
  }

  /** Building a forest leaves what is there, and the stack. */
  lemma {:induction false} BuiltShape(t: Tables, p: Page, f: Forest)
    requires Shaped(p)
    ensures var r := Built(t, p, f);
      Shaped(r) && Extends(p, r) && r.stk == p.stk && r.inHead == p.inHead && r.skipLf == p.skipLf
    decreases f
  {
    hide Shaped, Extends, WithWords, WithNode, KeptAll, Current;
    match f
    case Nothing => ExtendsSelf(p);
    case Words(x, rest) =>
      var q := WithWords(p, x);
      WordsShape(p, x);
      SameCurrent(p, q);
      BuiltShape(t, q, rest);
      ExtendsBoth(p, q, Built(t, q, rest));
    case Element(name, xs, children, rest) =>
      var q := WithElement(t, p, TagOfName(t, name), xs);
      var k := KeptAll(t, xs, p.attrs, p.pool);
      NodeShape(p, TagOfName(t, name), k.0, k.1);
      BuiltShape(t, q, children);
      var r := Built(t, q, children);
      Reopened(p, q, r);
      var s := r.(stk := p.stk, txt := 0);
      BuiltShape(t, s, rest);
      ExtendsBoth(p, s, Built(t, s, rest));
  }

  lemma ExtendsSelf(p: Page)
    ensures Extends(p, p)
  {
  }

  lemma SameCurrent(p: Page, q: Page)
    requires p.stk == q.stk
    ensures Current(p) == Current(q)
  {
  }

  /** The documents before the tokens of h, and where the tokens start. */
  ghost predicate Steps(t: Tables, h: Bytes, pages: seq<Page>, cuts: seq<nat>)
    requires t.Bounded()
  {
    && |pages| == |cuts| > 0
    && forall k :: 0 <= k < |cuts| - 1 ==>
         cuts[k] < cuts[k + 1] && cuts[k] < |h| && Token(t, h, cuts[k], pages[k], pages[k + 1], cuts[k + 1])
  }

  lemma StepAt(t: Tables, h: Bytes, pages: seq<Page>, cuts: seq<nat>, m: nat)
    requires t.Bounded() && Steps(t, h, pages, cuts) && m < |cuts| && cuts[m] < cuts[|cuts| - 1]
    ensures m + 1 < |cuts| && cuts[m] < |h| && Token(t, h, cuts[m], pages[m], pages[m + 1], cuts[m + 1])
  {
    hide Token;
  }

  lemma ReadyShaped(p: Page)
    requires Ready(p)
    ensures Shaped(p) && 2 <= |p.stk|
  {
    ReadyIs(p);
    hide Ready, PageOk, StackOk;
  }

  lemma StartsMarkup(h: Bytes, i: nat, f: Forest)
    requires !f.Words? && At(h, i, Written(f))
    ensures f.Nothing? || (i < |h| && h[i] == '<')
  {
    if f.Element? {
      AtChar(h, i, Written(f), 0);
      AtBound(h, i, Written(f));
    }
  }

  /** Where h stands before a forest is read: its markup is there, more markup or the end follows,
      the builder is ready for it, and the tokens go at least as far as the markup. */
  ghost predicate Before(t: Tables, h: Bytes, pages: seq<Page>, cuts: seq<nat>, m: nat, f: Forest)
    requires t.Bounded()
  {
    && Steps(t, h, pages, cuts) && AllOk(pages) && m < |cuts| && DrawsAscii(t) && Wellformed(t, f)
    && At(h, cuts[m], Written(f)) && MarkupAt(h, cuts[m] + |Written(f)|) && cuts[m] + |Written(f)| <= cuts[|cuts| - 1]
    && Ready(pages[m]) && |pages[m].stk| + Depth(f) <= 192 && (f.Words? ==> NoText(pages[m]))
  }

  lemma PageReady(pages: seq<Page>, m: nat)
    requires AllOk(pages) && m < |pages| && !pages[m].inHead && !pages[m].skipLf
    ensures Ready(pages[m])
  {
    hide PageOk;
  }

  lemma BeforeWords(t: Tables, h: Bytes, pages: seq<Page>, cuts: seq<nat>, m: nat, f: Forest)
    requires t.Bounded() && f.Words? && Before(t, h, pages, cuts, m, f)
    ensures Steps(t, h, pages, cuts) && AllOk(pages) && m < |cuts| == |pages| && DrawsAscii(t)
    ensures |f.text| > 0 && AllPlain(f.text) && !f.rest.Words? && Wellformed(t, f.rest)
    ensures At(h, cuts[m], f.text) && At(h, cuts[m] + |f.text|, Written(f.rest))
    ensures |Written(f)| == |f.text| + |Written(f.rest)|
    ensures MarkupAt(h, cuts[m] + |Written(f)|) && cuts[m] + |Written(f)| <= cuts[|cuts| - 1]
    ensures Ready(pages[m]) && |pages[m].stk| + Depth(f.rest) <= 192 && NoText(pages[m])
  {
    hide At, AllOk, Token, Ready, NoText, MarkupAt, AllPlain, DrawsAscii;
    AtJoined(h, cuts[m], f.text, Written(f.rest));
  }

  lemma WordsRead(t: Tables, h: Bytes, pages: seq<Page>, cuts: seq<nat>, m: nat, f: Forest)
    requires t.Bounded() && f.Words? && Before(t, h, pages, cuts, m, f)
    ensures m + 1 < |cuts| == |pages| && cuts[m + 1] == cuts[m] + |f.text|
    ensures pages[m + 1] == WithWords(pages[m], f.text)
    ensures Before(t, h, pages, cuts, m + 1, f.rest)
    ensures cuts[m + 1] + |Written(f.rest)| == cuts[m] + |Written(f)|
  {
    hide *;
    BeforeWords(t, h, pages, cuts, m, f);
    var i, x := cuts[m], f.text;
    StepAt(t, h, pages, cuts, m);
    MarkupNext(h, i + |x|, f.rest);
    TextToken(t, h, i, x, pages[m], pages[m + 1], cuts[m + 1]);
    WordsFlags(pages[m], x);
    PageReady(pages, m + 1);
    BeforeIs(t, h, pages, cuts, m + 1, f.rest);
  }

  lemma BeforeIs(t: Tables, h: Bytes, pages: seq<Page>, cuts: seq<nat>, m: nat, f: Forest)
    requires t.Bounded() && Steps(t, h, pages, cuts) && AllOk(pages) && m < |cuts| == |pages| && DrawsAscii(t)
    requires Wellformed(t, f) && At(h, cuts[m], Written(f)) && MarkupAt(h, cuts[m] + |Written(f)|)
    requires cuts[m] + |Written(f)| <= cuts[|cuts| - 1] && Ready(pages[m]) && |pages[m].stk| + Depth(f) <= 192
    requires f.Words? ==> NoText(pages[m])
    ensures Before(t, h, pages, cuts, m, f)
  {
    hide At, AllOk, Steps, Ready, NoText, MarkupAt, Written, Wellformed, DrawsAscii, Depth;
  }

  lemma WordsFlags(p: Page, x: Bytes)
    requires Ready(p)
    ensures !p.inHead && !p.skipLf && !WithWords(p, x).inHead && !WithWords(p, x).skipLf && WithWords(p, x).stk == p.stk
  {
    hide PageOk, Grown;
  }

  /** Whatever follows a text is markup. */
  lemma MarkupNext(h: Bytes, i: nat, rest: Forest)
    requires !rest.Words? && At(h, i, Written(rest)) && MarkupAt(h, i + |Written(rest)|)
    ensures MarkupAt(h, i)
  {
    StartsMarkup(h, i, rest);
  }

  lemma BeforeElement(t: Tables, h: Bytes, pages: seq<Page>, cuts: seq<nat>, m: nat, f: Forest)
    requires t.Bounded() && f.Element? && Before(t, h, pages, cuts, m, f)
    ensures Steps(t, h, pages, cuts) && AllOk(pages) && m < |cuts| == |pages| && DrawsAscii(t)
    ensures NameOk(f.name) && Neutral(TagOfName(t, f.name)) && (forall k :: 0 <= k < |f.attrs| ==> f.attrs[k].Valid())
    ensures Wellformed(t, f.children) && Wellformed(t, f.rest)
    ensures Ready(pages[m]) && |pages[m].stk| + 1 + Depth(f.children) <= 192 && |pages[m].stk| + Depth(f.rest) <= 192
    ensures cuts[m] + |Written(f)| <= cuts[|cuts| - 1] && MarkupAt(h, cuts[m] + |Written(f)|)
    ensures At(h, cuts[m], Written(f))
  {
    hide At, AllOk, Token, Ready, NoText, MarkupAt, NameOk, Neutral, DrawsAscii, Written;
  }

  /** The parts of an element's markup. */
  lemma ElementParts(h: Bytes, i: nat, f: Forest)
    requires f.Element? && At(h, i, Written(f))
    ensures var c := i + |Start(f.name, f.attrs)|; var e := c + |Written(f.children)|; var r := e + |End(f.name)|;
      && At(h, i, Start(f.name, f.attrs)) && At(h, c, Written(f.children)) && At(h, e, End(f.name))
      && At(h, r, Written(f.rest)) && r + |Written(f.rest)| == i + |Written(f)|
      && MarkupAt(h, e) && i < c && e < r
  {
    hide *;
    var a, b, d, e := Start(f.name, f.attrs), Written(f.children), End(f.name), Written(f.rest);
    ElementText(f);
    ElementMarks(f.name, f.attrs);
    AtJoined(h, i, a, b + (d + e));
    AtJoined(h, i + |a|, b, d + e);
    AtJoined(h, i + |a| + |b|, d, e);
    AtChar(h, i + |a| + |b|, d, 0);
    AtBound(h, i + |a| + |b|, d);
    TagHere(h, i + |a| + |b|);
  }

  lemma ElementText(f: Forest)
    requires f.Element?
    ensures Written(f) == Start(f.name, f.attrs) + (Written(f.children) + (End(f.name) + Written(f.rest)))
  {
    hide Start, End;
  }

  lemma TagHere(h: Bytes, i: nat)
    requires i < |h| && h[i] == '<'
    ensures MarkupAt(h, i)
  {
  }

  lemma ElementMarks(name: Bytes, xs: seq<Attribute>)
    ensures |Start(name, xs)| > 0 && |End(name)| > 0 && End(name)[0] == '<'
  {
  }

  lemma ElementFlags(t: Tables, p: Page, f: Forest)
    requires f.Element? && Ready(p) && |p.stk| < 192
    ensures var q := WithElement(t, p, TagOfName(t, f.name), f.attrs);
      && !q.inHead && !q.skipLf && |q.stk| == |p.stk| + 1 && NoText(q) && Shaped(p) && Shaped(q) && Extends(p, q)
      && |q.nodes| == |p.nodes| + 1 && Current(q) == |p.nodes| && q.nodes[Current(p)].last == |p.nodes|
      && q.nodes[|p.nodes|].kind == Elem && q.nodes[|p.nodes|].tag == TagOfName(t, f.name)
      && q.stk == p.stk + [|p.nodes|]
  {
    ReadyShaped(p);
    var k := KeptAll(t, f.attrs, p.attrs, p.pool);
    NodeShape(p, TagOfName(t, f.name), k.0, k.1);
    hide WithNode, KeptAll, PageOk;
  }

  /** A forest that was written is read back: some tokens on, all of its markup is used up and the
      document has grown by exactly its nodes. */
  lemma {:induction false} ForestRead(t: Tables, h: Bytes, pages: seq<Page>, cuts: seq<nat>, m: nat, f: Forest)
      returns (n: nat)
    requires t.Bounded() && Before(t, h, pages, cuts, m, f)
    ensures m <= n < |cuts| == |pages| && m < |cuts| && cuts[n] == cuts[m] + |Written(f)|
    ensures pages[n] == Built(t, pages[m], f)
    decreases f
  {
    hide *;
    if f.Nothing? {
      n := m;
      NothingRead(t, h, pages, cuts, m, f);
    } else if f.Words? {
      WordsRead(t, h, pages, cuts, m, f);
      n := ForestRead(t, h, pages, cuts, m + 1, f.rest);
      BuiltWords(t, pages[m], f);
    } else {
      var k := OpeningRead(t, h, pages, cuts, m, f);
      var e := ForestRead(t, h, pages, cuts, k, f.children);
      ClosingRead(t, h, pages, cuts, m, f, e);
      n := ForestRead(t, h, pages, cuts, e + 1, f.rest);
      BuiltElement(t, pages[m], f);
    }
  }

  lemma NothingRead(t: Tables, h: Bytes, pages: seq<Page>, cuts: seq<nat>, m: nat, f: Forest)
    requires t.Bounded() && f.Nothing? && Before(t, h, pages, cuts, m, f)
    ensures m < |cuts| == |pages| && Written(f) == "" && Built(t, pages[m], f) == pages[m]
  {
    hide At, AllOk, Ready, MarkupAt, DrawsAscii, Token;
  }

  lemma BuiltWords(t: Tables, p: Page, f: Forest)
    requires f.Words?
    ensures Built(t, p, f) == Built(t, WithWords(p, f.text), f.rest)
  {
    hide WithWords;
  }

  lemma BuiltElement(t: Tables, p: Page, f: Forest)
    requires f.Element?
    ensures var inner := Built(t, WithElement(t, p, TagOfName(t, f.name), f.attrs), f.children);
      Built(t, p, f) == Built(t, inner.(stk := p.stk, txt := 0), f.rest)
  {
    hide WithElement;
  }

  /** The start tag is read, and the children come next. */
  lemma OpeningRead(t: Tables, h: Bytes, pages: seq<Page>, cuts: seq<nat>, m: nat, f: Forest) returns (k: nat)
    requires t.Bounded() && f.Element? && Before(t, h, pages, cuts, m, f)
    ensures k == m + 1 < |cuts| == |pages| && Before(t, h, pages, cuts, k, f.children)
    ensures cuts[k] == cuts[m] + |Start(f.name, f.attrs)|
    ensures pages[k] == WithElement(t, pages[m], TagOfName(t, f.name), f.attrs)
  {
    hide *;
    k := m + 1;
    BeforeElement(t, h, pages, cuts, m, f);
    ElementParts(h, cuts[m], f);
    StepAt(t, h, pages, cuts, m);
    StartToken(t, h, cuts[m], f.name, f.attrs, pages[m], pages[k], cuts[k]);
    ElementFlags(t, pages[m], f);
    PageReady(pages, k);
    BeforeIs(t, h, pages, cuts, k, f.children);
  }

  /** The end tag is read, and the younger siblings come next. */
  lemma ClosingRead(t: Tables, h: Bytes, pages: seq<Page>, cuts: seq<nat>, m: nat, f: Forest, e: nat)
    requires t.Bounded() && f.Element? && Before(t, h, pages, cuts, m, f)
    requires m < e < |cuts| == |pages|
    requires cuts[e] == cuts[m] + |Start(f.name, f.attrs)| + |Written(f.children)|
    requires pages[e] == Built(t, WithElement(t, pages[m], TagOfName(t, f.name), f.attrs), f.children)
    ensures e + 1 < |cuts| && Before(t, h, pages, cuts, e + 1, f.rest)
    ensures cuts[e + 1] + |Written(f.rest)| == cuts[m] + |Written(f)|
    ensures pages[e + 1] == pages[e].(stk := pages[m].stk, txt := 0)
  {
    hide *;
    var p, q := pages[m], WithElement(t, pages[m], TagOfName(t, f.name), f.attrs);
    BeforeElement(t, h, pages, cuts, m, f);
    ElementParts(h, cuts[m], f);
    ElementFlags(t, p, f);
    BuiltShape(t, q, f.children);
    StepAt(t, h, pages, cuts, e);
    PageReady(pages, e);
    TopIs(q, pages[e], |p.nodes|, TagOfName(t, f.name));
    EndToken(t, h, cuts[e], f.name, pages[e], pages[e + 1], cuts[e + 1]);
    assert pages[e].stk[..|pages[e].stk| - 1] == p.stk;
    Reopened(p, q, pages[e]);
    PageReady(pages, e + 1);
    BeforeIs(t, h, pages, cuts, e + 1, f.rest);
  }

  lemma TopIs(q: Page, r: Page, n: nat, tag: Tag)
    requires Extends(q, r) && Shaped(r) && r.stk == q.stk && Current(q) == n < |q.nodes| && q.nodes[n].tag == tag
    ensures Current(r) < |r.nodes| && r.nodes[Current(r)].tag == tag
  {
  }

  // ---------- a whole document ----------

  /** The blank document with the body open. */
  ghost function InBody(): Page {
    Blank().(stk := [1, 3], inHead := false)
  }

  /** The body's own tag opens it and makes no node. */
  lemma BodyToken(t: Tables, h: Bytes, b: Page, next: nat)
    requires t.Bounded() && t.tagId("body") == Body && At(h, 0, "<body>") && Token(t, h, 0, Blank(), b, next)
    ensures next == 6 && b == InBody()
  {
    hide *;
    BodyParts(h);
    NameRead(t, h, 1, "body");
    AttrsRead(t, h, 5, [], false, Blank().attrs, Blank().pool);
    NoAttrs(t, Blank().attrs, Blank().pool);
    TokenStart(t, h, 0, Blank(), b, next);
    BodyName(t);
    var r := AttrsFrom(t, h, 5, Blank().attrs, Blank().pool);
    var c, el := StartDoneOpened(t, h, 1, 5, Body, r, Blank(), b, next);
    BodyOpened(r, c, el);
    BodyInside(t, h, r.next, el, c, b, next);
  }

  lemma BodyParts(h: Bytes)
    requires At(h, 0, "<body>")
    ensures |h| >= 6 && h[0] == '<' && IsAlpha(h[1]) && h[1] != '!' && h[1] != '?' && h[1] != '/'
    ensures At(h, 1, "body") && NameOk("body") && At(h, 5, AttrsText([]) + TagEnd(false)) && EndsName(h[5])
  {
    var s := h[0..6];
    assert s == "<body>" && |s| == 6;
    assert forall k :: 0 <= k < 6 ==> h[k] == s[k];
    assert h[1..5] == s[1..5] == "body" && h[5..6] == s[5..6] == ">";
    assert AttrsText([]) + TagEnd(false) == ">";
    assert "body" == ['b', 'o', 'd', 'y'];
  }

  lemma NoAttrs(t: Tables, attrs: seq<Attr>, pool: Bytes)
    ensures KeptAll(t, [], attrs, pool) == (attrs, pool) && |AttrsText([]) + TagEnd(false)| == 1
  {
    assert AttrsText([]) + TagEnd(false) == ">";
  }

  lemma BodyName(t: Tables)
    requires t.tagId("body") == Body
    ensures TagOfName(t, "body") == Body && Body != Unknown && |"body"| == 4
  {
    assert "body" == ['b', 'o', 'd', 'y'];
    assert LowerAll("body") == "body";
  }

  lemma BodyOpened(r: AttrRun, c: Page, el: nat)
    requires r.attrs == Blank().attrs && r.pool == Blank().pool
    requires Started(WithAttrs(Blank(), r, Body), Body, |Blank().attrs|, |Blank().pool|, r.selfclose, c, el)
    ensures c == InBody() && el == 0 && !c.skipLf
  {
    var a := Blank();
    assert WithAttrs(a, r, Body) == a;
    hide StackOk, Opened;
    assert c.attrs == [] && c.pool == "";
  }

  lemma BodyInside(t: Tables, h: Bytes, i: nat, el: nat, c: Page, b: Page, next: nat)
    requires t.Bounded() && i <= |h| && el == 0 && !c.skipLf
    requires Inside(t, h, i, Body, false, el, c.(skipLf := c.skipLf || DropsLine(Body)), b, next)
    ensures b == c && next == i
  {
    hide WithText, RawDone, Rawness;
  }

  lemma BodyReady(pages: seq<Page>, m: nat)
    requires AllOk(pages) && m < |pages| && pages[m] == InBody()
    ensures Ready(pages[m]) && NoText(pages[m]) && |pages[m].stk| == 2
  {
    hide PageOk;
  }

  lemma TokenizedSteps(t: Tables, h: Bytes, pages: seq<Page>, cuts: seq<nat>)
    requires t.Bounded() && Tokenized(t, h, pages, cuts, |h|)
    ensures Steps(t, h, pages, cuts) && |cuts| == |pages| > 0 && pages[0] == Blank() && cuts[0] == 0
    ensures cuts[|cuts| - 1] == |h| && forall k :: 0 <= k < |cuts| - 1 ==> cuts[k] < |h|
  {
    hide Token, Blank;
  }

  /** A document that was written is read back: when no arena fills up, what the tokens of a body
      and a forest in it leave is the blank document with exactly the nodes of the forest in it. */
  lemma DocumentRead(t: Tables, h: Bytes, pages: seq<Page>, cuts: seq<nat>, f: Forest)
    requires t.Bounded() && t.tagId("body") == Body && DrawsAscii(t) && Wellformed(t, f) && Depth(f) <= 190
    requires h == "<body>" + Written(f) && Tokenized(t, h, pages, cuts, |h|) && AllOk(pages)
    ensures |pages| > 0 && pages[|pages| - 1] == Built(t, InBody(), f)
  {
    hide *;
    TokenizedSteps(t, h, pages, cuts);
    BodyThere(h, f);
    StepAt(t, h, pages, cuts, 0);
    BodyToken(t, h, pages[1], cuts[1]);
    BodyReady(pages, 1);
    BeforeIs(t, h, pages, cuts, 1, f);
    var n := ForestRead(t, h, pages, cuts, 1, f);
    assert n == |cuts| - 1;
  }

  lemma BodyThere(h: Bytes, f: Forest)
    requires h == "<body>" + Written(f)
    ensures |h| == 6 + |Written(f)| && At(h, 0, "<body>") && At(h, 6, Written(f)) && MarkupAt(h, 6 + |Written(f)|)
  {
    hide Written;
    assert |"<body>"| == 6 && h[6..] == Written(f) && h[0..6] == "<body>";
  }
}
