/** kernel/dom.h:120-145, 381-643: the tree builder.  Its arenas, the stack of open elements
    and the text sink are the fields of one object, changed one tag or one byte at a time. */
module DomBuild {
  import opened DomTree
  import opened DomArena
  import opened DomTags
  import opened DomChars
  import opened Scanning

  const NODE_MAX := 16384
  const ATTR_MAX := 24576
  const POOL_SIZE := 0x4_0000
  const STACK_MAX := 192

  type Nodes = seq<Node<Tag>>

  /** The nodes dom_reset makes: the document, html, head and body. */
  ghost predicate Based(ns: Nodes) {
    && |ns| >= 4
    && ns[1].kind == Elem && ns[1].tag == Html && ns[1].parent == 0
    && ns[2].kind == Elem && ns[2].tag == Head && ns[2].parent == 1
    && ns[3].kind == Elem && ns[3].tag == Body && ns[3].parent == 1
  }

  /** dom_stk is the path html, then head or body, down to the current element. */
  ghost predicate StackOk(ns: Nodes, stk: seq<nat>, inHead: bool) {
    && Based(ns) && 2 <= |stk| <= STACK_MAX
    && stk[0] == 1 && stk[1] == (if inHead then 2 else 3)
    && (forall k :: 0 <= k < |stk| ==> stk[k] < |ns| && ns[stk[k]].kind == Elem)
    && (forall k :: 1 <= k < |stk| ==> Under(ns, stk, k))
  }

  ghost predicate Under(ns: Nodes, stk: seq<nat>, k: nat)
    requires 1 <= k < |stk| && stk[k] < |ns|
  {
    ns[stk[k]].parent == stk[k - 1]
  }

  /** The text node being extended ends where the pool ends. */
  ghost predicate SinkOk(ns: Nodes, txt: nat, pool: Bytes) {
    txt != 0 ==> txt < |ns| && ns[txt].kind == Text && ns[txt].a + ns[txt].b == |pool|
  }

  /** The tags of the open elements, outermost first. */
  ghost function TagsOf(ns: Nodes, stk: seq<nat>): (r: seq<Tag>)
    requires forall k :: 0 <= k < |stk| ==> stk[k] < |ns|
    ensures |r| == |stk|
  {
    seq(|stk|, k requires 0 <= k < |stk| => ns[stk[k]].tag)
  }

  lemma StackRooted(ns: Nodes, stk: seq<nat>, inHead: bool)
    requires StackOk(ns, stk, inHead)
    ensures Rooted(TagsOf(ns, stk))
  {
    assert TagsOf(ns, stk)[0] == Html && (TagsOf(ns, stk)[1] == Head || TagsOf(ns, stk)[1] == Body);
  }

  /** Keeping the nodes keeps the stack and its tags. */
  lemma StackKept(ns: Nodes, pool: Bytes, ns': Nodes, pool': Bytes, stk: seq<nat>, inHead: bool)
    requires StackOk(ns, stk, inHead) && Kept(ns, pool, ns', pool')
    ensures StackOk(ns', stk, inHead) && TagsOf(ns', stk) == TagsOf(ns, stk)
  {
    assert forall i :: 0 <= i < |ns| ==> KeptNode(ns[i], ns'[i]);
    forall k | 1 <= k < |stk| ensures Under(ns', stk, k) {
      assert Under(ns, stk, k);
    }
  }

  lemma StackCut(ns: Nodes, stk: seq<nat>, inHead: bool, n: nat)
    requires StackOk(ns, stk, inHead) && 2 <= n <= |stk|
    ensures StackOk(ns, stk[..n], inHead) && TagsOf(ns, stk[..n]) == TagsOf(ns, stk)[..n]
  {
    forall k | 1 <= k < n ensures Under(ns, stk[..n], k) {
      assert Under(ns, stk, k);
    }
  }

  lemma StackBody(ns: Nodes)
    requires Based(ns)
    ensures StackOk(ns, [1, 3], false)
  {
  }

  lemma StackPush(ns: Nodes, stk: seq<nat>, inHead: bool, n: nat)
    requires StackOk(ns, stk, inHead) && |stk| < STACK_MAX
    requires n < |ns| && ns[n].kind == Elem && ns[n].parent == stk[|stk| - 1]
    ensures StackOk(ns, stk + [n], inHead)
  {
    var s := stk + [n];
    forall k | 1 <= k < |s| ensures Under(ns, s, k) {
      if k < |stk| { assert Under(ns, stk, k); }
    }
  }

  /** What holds of the fields between any two steps, whatever the input. */
  ghost predicate BuilderOk(ns: Nodes, attrs: seq<Attr>, pool: Bytes, stk: seq<nat>, inHead: bool, txt: nat) {
    && ArenaOk(ns, attrs, pool) && StackOk(ns, stk, inHead) && SinkOk(ns, txt, pool)
    && |ns| <= NODE_MAX && |attrs| <= ATTR_MAX && |pool| <= POOL_SIZE
  }

  lemma BuilderMeans(ns: Nodes, attrs: seq<Attr>, pool: Bytes, stk: seq<nat>, inHead: bool, txt: nat)
    requires BuilderOk(ns, attrs, pool, stk, inHead, txt)
    ensures ArenaOk(ns, attrs, pool) && StackOk(ns, stk, inHead) && SinkOk(ns, txt, pool)
    ensures |ns| <= 16384 && |attrs| <= 24576 && |pool| <= 0x4_0000
    ensures 2 <= |stk| <= 192 && Based(ns)
    ensures forall k :: 0 <= k < |stk| ==> stk[k] < |ns| && ns[stk[k]].kind == Elem
  {
  }

  lemma BuilderIs(ns: Nodes, attrs: seq<Attr>, pool: Bytes, stk: seq<nat>, inHead: bool, txt: nat)
    requires ArenaOk(ns, attrs, pool) && StackOk(ns, stk, inHead) && SinkOk(ns, txt, pool)
    requires |ns| <= 16384 && |attrs| <= 24576 && |pool| <= 0x4_0000
    ensures BuilderOk(ns, attrs, pool, stk, inHead, txt)
  {
  }

  /** The fields of the builder at one moment. */
  datatype Page = Page(nodes: Nodes, attrs: seq<Attr>, pool: Bytes, stk: seq<nat>, inHead: bool, txt: nat, skipLf: bool, foreign: nat)

  /** The builder's invariant at one moment. */
  ghost predicate PageOk(p: Page) {
    BuilderOk(p.nodes, p.attrs, p.pool, p.stk, p.inHead, p.txt)
  }

  /** What dom_reset leaves: the document, html, head and body, with the head open. */
  ghost function Blank(): Page {
    Page([Node(0, 1, 1, 0, 0, 0, Kind.Doc, NoTag), Node(0, 2, 3, 0, 0, 0, Elem, Html),
          Node(1, 0, 0, 3, 0, 0, Elem, Head), Node(1, 0, 0, 0, 0, 0, Elem, Body)], [], "", [1, 2], true, 0, false, 0)
  }

  lemma BlankNodes()
    ensures var n0: Nodes := [Node(0, 0, 0, 0, 0, 0, Kind.Doc, NoTag)];
      var n1 := DomTree.Append(n0, 0, Elem, Html, 0, 0);
      n1[1].last < |n1| && (
        var n2 := DomTree.Append(n1, 1, Elem, Head, 0, 0);
        n2[1].last < |n2| && DomTree.Append(n2, 1, Elem, Body, 0, 0) == Blank().nodes)
  {
    var n0: Nodes := [Node(0, 0, 0, 0, 0, 0, Kind.Doc, NoTag)];
    var n1 := DomTree.Append(n0, 0, Elem, Html, 0, 0);
    assert n1 == [Node(0, 1, 1, 0, 0, 0, Kind.Doc, NoTag), Node(0, 0, 0, 0, 0, 0, Elem, Html)];
    var n2 := DomTree.Append(n1, 1, Elem, Head, 0, 0);
    assert n2 == [Node(0, 1, 1, 0, 0, 0, Kind.Doc, NoTag), Node(0, 2, 2, 0, 0, 0, Elem, Html), Node(1, 0, 0, 0, 0, 0, Elem, Head)];
  }

  /** The links list the children of p, each once and in order. */
  ghost predicate Enumerated(ns: Nodes, p: nat)
    requires p < |ns|
  {
    && TreeOk(ns) && ns[p].first < |ns| && Increasing(Chain(ns, ns[p].first))
    && forall c: nat :: c in Chain(ns, ns[p].first) <==> IsChild(ns, p, c)
  }

  lemma TreeIs(ns: Nodes, attrs: seq<Attr>, pool: Bytes)
    requires ArenaOk(ns, attrs, pool)
    ensures forall i :: 1 <= i < |ns| ==> ns[i].parent < i
    ensures forall p: nat :: p < |ns| ==> Enumerated(ns, p)
  {
    forall i | 1 <= i < |ns| ensures ns[i].parent < i {
      assert ParentOk(ns, i);
    }
    forall p: nat | p < |ns| ensures Enumerated(ns, p) {
      ChildrenEnumerated(ns, p);
    }
  }

  lemma TextsAre(ns: Nodes, attrs: seq<Attr>, pool: Bytes)
    requires ArenaOk(ns, attrs, pool)
    ensures forall i, j :: 0 <= i < j < |ns| && ns[i].kind == Text && ns[j].kind == Text ==>
      ns[i].a + ns[i].b <= ns[j].a || ns[j].a + ns[j].b <= ns[i].a
    ensures forall i :: 0 <= i < |ns| && ns[i].kind == Text ==> ns[i].b > 0 && ns[i].a + ns[i].b <= |pool|
  {
    hide TreeOk, ValuesBelow, Apart;
  }

  lemma PathIs(ns: Nodes, stk: seq<nat>, inHead: bool)
    requires StackOk(ns, stk, inHead)
    ensures 2 <= |stk| <= 192 && stk[0] == 1 && stk[1] == (if inHead then 2 else 3)
    ensures forall k :: 1 <= k < |stk| ==> stk[k] < |ns| && ns[stk[k]].parent == stk[k - 1]
  {
    forall k | 1 <= k < |stk| ensures stk[k] < |ns| && ns[stk[k]].parent == stk[k - 1] {
      assert Under(ns, stk, k);
    }
  }

  lemma PageIs(p: Page)
    requires PageOk(p)
    ensures ArenaOk(p.nodes, p.attrs, p.pool) && StackOk(p.nodes, p.stk, p.inHead)
  {
    hide ArenaOk, StackOk;
  }

  /** What a valid document is: a tree whose links list the children of every node once, with
      the path of open elements in it, and every text a stretch of the pool of its own. */
  lemma PageMeans(p: Page)
    requires PageOk(p)
    ensures forall i :: 1 <= i < |p.nodes| ==> p.nodes[i].parent < i
    ensures forall n: nat :: n < |p.nodes| ==> Enumerated(p.nodes, n)
    ensures 2 <= |p.stk| <= 192 && p.stk[0] == 1 && p.stk[1] == (if p.inHead then 2 else 3)
    ensures forall k :: 1 <= k < |p.stk| ==> p.stk[k] < |p.nodes| && p.nodes[p.stk[k]].parent == p.stk[k - 1]
    ensures forall i, j :: 0 <= i < j < |p.nodes| && p.nodes[i].kind == Text && p.nodes[j].kind == Text ==>
      p.nodes[i].a + p.nodes[i].b <= p.nodes[j].a || p.nodes[j].a + p.nodes[j].b <= p.nodes[i].a
    ensures forall i :: 0 <= i < |p.nodes| && p.nodes[i].kind == Text ==>
      p.nodes[i].b > 0 && p.nodes[i].a + p.nodes[i].b <= |p.pool|
  {
    hide *;
    PageIs(p);
    TreeIs(p.nodes, p.attrs, p.pool);
    TextsAre(p.nodes, p.attrs, p.pool);
    PathIs(p.nodes, p.stk, p.inHead);
  }

  // ---------- the text sink ----------

  /** Where one byte of text goes, with len bytes in the pool: onto the text node being
      extended, else onto the last child of cur if that is a text node ending where the pool
      ends, else into a new text node. */
  ghost function SinkTo(ns: Nodes, txt: nat, cur: nat, len: nat): (Nodes, nat) {
    if txt != 0 then (if txt < |ns| then ns[txt := ns[txt].(b := ns[txt].b + 1)] else ns, txt)
    else if cur >= |ns| || ns[cur].last >= |ns| then (ns, txt)
    else
      var last := ns[cur].last;
      if last != 0 && ns[last].kind == Text && ns[last].a + ns[last].b == len
      then (ns[last := ns[last].(b := ns[last].b + 1)], last)
      else (DomTree.Append(ns, cur, Text, NoTag, len, 1), |ns|)
  }

  /** The nodes and the sink after k bytes. */
  ghost function Sunken(ns: Nodes, txt: nat, cur: nat, len: nat, k: nat): (Nodes, nat) {
    if k == 0 then (ns, txt)
    else
      var r := Sunken(ns, txt, cur, len, k - 1);
      SinkTo(r.0, r.1, cur, len + k - 1)
  }

  lemma SunkenNone(ns: Nodes, txt: nat, cur: nat, len: nat)
    ensures Sunken(ns, txt, cur, len, 0) == (ns, txt)
  {
  }

  lemma SunkenMore(ns: Nodes, txt: nat, cur: nat, len: nat, k: nat)
    ensures var r := Sunken(ns, txt, cur, len, k); Sunken(ns, txt, cur, len, k + 1) == SinkTo(r.0, r.1, cur, len + k)
  {
    hide SinkTo;
  }

  lemma {:induction false} SunkenSplit(ns: Nodes, txt: nat, cur: nat, len: nat, j: nat, k: nat)
    ensures var r := Sunken(ns, txt, cur, len, j); Sunken(ns, txt, cur, len, j + k) == Sunken(r.0, r.1, cur, len + j, k)
    decreases k
  {
    hide SinkTo;
    if k > 0 {
      SunkenSplit(ns, txt, cur, len, j, k - 1);
      var r := Sunken(ns, txt, cur, len, j);
      SunkenMore(ns, txt, cur, len, j + k - 1);
      SunkenMore(r.0, r.1, cur, len + j, k - 1);
    }
  }

  /** The first byte chooses the node; all the others follow it there. */
  lemma {:induction false} SunkenGrows(ns: Nodes, txt: nat, cur: nat, len: nat, k: nat)
    requires k >= 1 && (txt == 0 ==> cur < |ns| && ns[cur].last < |ns| && |ns| > 0) && txt < |ns|
    ensures var first := SinkTo(ns, txt, cur, len);
      0 < first.1 < |first.0| &&
      Sunken(ns, txt, cur, len, k) == (first.0[first.1 := first.0[first.1].(b := first.0[first.1].b + (k - 1))], first.1)
    decreases k
  {
    hide DomTree.Append;
    var first := SinkTo(ns, txt, cur, len);
    SunkenMore(ns, txt, cur, len, k - 1);
    if k == 1 {
      SunkenNone(ns, txt, cur, len);
      assert first.0[first.1 := first.0[first.1]] == first.0;
    } else {
      SunkenGrows(ns, txt, cur, len, k - 1);
      var t := first.1;
      var r := first.0[t := first.0[t].(b := first.0[t].b + (k - 2))];
      assert r[t := r[t].(b := r[t].b + 1)] == first.0[t := first.0[t].(b := first.0[t].b + (k - 1))];
    }
  }

  class Dom {
    var nodes: Nodes
    var attrs: seq<Attr>
    var pool: Bytes
    var truncated: bool
    var stk: seq<nat>
    var inHead: bool
    var txt: nat
    var skipLf: bool
    var foreign: nat

    ghost predicate Valid()
      reads this`nodes, this`attrs, this`pool, this`stk, this`inHead, this`txt
    {
      BuilderOk(nodes, attrs, pool, stk, inHead, txt)
    }

    /** Everything but the truncation mark. */
    ghost function Now(): Page
      reads this
    {
      Page(nodes, attrs, pool, stk, inHead, txt, skipLf, foreign)
    }

    lemma NowIs()
      ensures Now() == Page(nodes, attrs, pool, stk, inHead, txt, skipLf, foreign)
    {
    }

    lemma Open()
      requires Valid()
      ensures |stk| > 0
    {
      hide ArenaOk, SinkOk, Under;
    }

    /** dom_reset. */
    constructor ()
      ensures Valid() && !truncated && Now() == Blank()
    {
      hide ArenaOk, DomTree.Append, Based, StackOk, SinkOk, Valid;
      var n0: Nodes := [Node(0, 0, 0, 0, 0, 0, Doc, NoTag)];
      FirstTree(n0);
      BaseStep(n0, 0, Html);
      var n1 := DomTree.Append(n0, 0, Elem, Html, 0, 0);
      BaseStep(n1, 1, Head);
      var n2 := DomTree.Append(n1, 1, Elem, Head, 0, 0);
      BaseStep(n2, 1, Body);
      var n3 := DomTree.Append(n2, 1, Elem, Body, 0, 0);
      assert Same(n1[1], n2[1]) && Same(n2[1], n3[1]) && Same(n2[2], n3[2]);
      BaseAll(n3, n1[1], n2[2]);
      nodes, attrs, pool, truncated := n3, [], "", false;
      stk, inHead, txt, skipLf, foreign := [1, 2], true, 0, false, 0;
      BlankNodes();
      new;
      ValidStart();
    }

    lemma ValidStart()
      requires ArenaOk(nodes, attrs, pool) && Based(nodes) && |nodes| == 4 && attrs == [] && pool == ""
      requires inHead && stk == [1, 2] && txt == 0
      ensures Valid()
    {
    }

    lemma ValidPage()
      requires Valid()
      ensures PageOk(Now())
    {
      hide BuilderOk;
    }

    // ---------- the open elements ----------

    /** dom_find. */
    method FindOpen(tag: Tag, kind: Scope) returns (i: int)
      requires StackOk(nodes, stk, inHead)
      ensures i == Find(TagsOf(nodes, stk), tag, kind)
    {
      hide ScopeStop, IsSpecial;
      ghost var ts := TagsOf(nodes, stk);
      i := |stk| - 1;
      assert ts[..|stk|] == ts;
      while i >= 0
        invariant -1 <= i < |stk| && Find(ts[..i + 1], tag, kind) == Find(ts, tag, kind)
      {
        var t := nodes[stk[i]].tag;
        assert ts[..i + 1][..i] == ts[..i] && ts[..i + 1][i] == t;
        if t == tag { return; }
        if ScopeStop(t, kind) { return -1; }
        i := i - 1;
      }
    }

    /** The loops of dom_start for an open li, and for an open dd or dt. */
    method FindOpenItem(li: bool) returns (i: int)
      requires StackOk(nodes, stk, inHead)
      ensures i == FindItem(TagsOf(nodes, stk), li)
    {
      hide ItemStop, IsItem;
      ghost var ts := TagsOf(nodes, stk);
      i := |stk| - 1;
      assert ts[..|stk|] == ts;
      while i >= 0
        invariant -1 <= i < |stk| && FindItem(ts[..i + 1], li) == FindItem(ts, li)
      {
        var t := nodes[stk[i]].tag;
        assert ts[..i + 1][..i] == ts[..i] && ts[..i + 1][i] == t;
        if IsItem(t, li) { return; }
        if ItemStop(t) { return -1; }
        i := i - 1;
      }
    }

    /** The loop of dom_end for an open heading. */
    method FindOpenHeading() returns (i: int)
      requires StackOk(nodes, stk, inHead)
      ensures i == FindHeading(TagsOf(nodes, stk))
    {
      hide ScopeStop, IsHeading;
      ghost var ts := TagsOf(nodes, stk);
      i := |stk| - 1;
      assert ts[..|stk|] == ts;
      while i >= 0
        invariant -1 <= i < |stk| && FindHeading(ts[..i + 1]) == FindHeading(ts)
      {
        var t := nodes[stk[i]].tag;
        assert ts[..i + 1][..i] == ts[..i] && ts[..i + 1][i] == t;
        if IsHeading(t) { return; }
        if ScopeStop(t, Generic) { return -1; }
        i := i - 1;
      }
    }

    /** The last loop of dom_end. */
    method FindOpenPlain(tag: Tag) returns (i: int)
      requires StackOk(nodes, stk, inHead)
      ensures i == FindPlain(TagsOf(nodes, stk), tag)
    {
      hide IsSpecial;
      ghost var ts := TagsOf(nodes, stk);
      i := |stk| - 1;
      assert ts[..|stk|] == ts;
      while i >= 0
        invariant -1 <= i < |stk| && FindPlain(ts[..i + 1], tag) == FindPlain(ts, tag)
      {
        var t := nodes[stk[i]].tag;
        assert ts[..i + 1][..i] == ts[..i] && ts[..i + 1][i] == t;
        if t == tag { return; }
        if IsSpecial(t) { return -1; }
        i := i - 1;
      }
    }

    /** The open elements above the first n are closed. */
    method PopTo(n: nat)
      requires Valid() && 2 <= n <= |stk|
      modifies this`stk
      ensures Valid() && stk == old(stk)[..n]
    {
      hide BuilderOk;
      PopStep(nodes, attrs, pool, stk, inHead, txt, n);
      stk := stk[..n];
    }

    /** dom_enter_body. */
    method EnterBody()
      requires Valid()
      modifies this`stk, this`inHead
      ensures Valid() && !inHead && stk == if old(inHead) then [1, 3] else old(stk)
    {
      hide BuilderOk;
      if inHead {
        EnterStep(nodes, attrs, pool, stk, inHead, txt);
        inHead := false;
        stk := [1, 3];
      }
    }

    /** dom_insert_elem: a new last child of the current element, opened if push.  The node 0
        that it answers when the arena is full means that nothing changed. */
    method InsertElem(tag: Tag, afirst: nat, acount: nat, push: bool, ghost limit: nat) returns (n: nat)
      requires Valid() && afirst + acount <= |attrs| && (acount > 0 ==> Owns(nodes, Elem, afirst))
      modifies this`nodes, this`stk, this`truncated
      ensures Valid() && Kept(old(nodes), pool, nodes, pool)
      ensures n == 0 <==> |old(nodes)| >= 16384
      ensures n == 0 ==> truncated && nodes == old(nodes) && stk == old(stk)
      ensures n != 0 ==> truncated == old(truncated) && Inserted(old(nodes), old(stk), nodes, stk, tag, afirst, acount, n, push)
      ensures Owns(old(nodes), Elem, limit) && afirst <= limit && acount == 0 ==> Owns(nodes, Elem, limit)
    {
      hide BuilderOk, ArenaOk, TreeOk, StackOk, SinkOk, Based, Owns, DomTree.Append, Kept, Inserted, Sunk;
      n := 0;
      KeptNothing(nodes, pool);
      BuilderMeans(nodes, attrs, pool, stk, inHead, txt);
      BasedAt(nodes);
      if |nodes| >= 16384 { truncated := true; return; }
      InsertStep(nodes, attrs, pool, stk, inHead, txt, tag, afirst, acount, push);
      n := |nodes|;
      if acount == 0 { AppendOwns(nodes, attrs, pool, stk[|stk| - 1], tag, afirst, limit); }
      nodes := DomTree.Append(nodes, stk[|stk| - 1], Elem, tag, afirst, acount);
      if push && |stk| < 192 { stk := stk + [n]; }
    }

    /** dom_text_byte: the byte goes to the end of the pool and onto the current text node. */
    method TextByte(c: char)
      requires Valid()
      modifies this`nodes, this`pool, this`txt, this`truncated
      ensures Valid() && Kept(old(nodes), old(pool), nodes, pool) && (old(truncated) ==> truncated)
      ensures pool == old(pool) + [c] || (truncated && pool == old(pool) && nodes == old(nodes))
      ensures |old(pool)| + 8 < 0x4_0000 && |old(nodes)| < 16384 ==>
        pool == old(pool) + [c] && truncated == old(truncated)
      ensures |stk| > 0
      ensures pool == old(pool) + [c] ==> Sunk(nodes, txt, pool, old(txt), stk)
      ensures pool == old(pool) + [c] ==> (nodes, txt) == SinkTo(old(nodes), old(txt), stk[|stk| - 1], |old(pool)|)
    {
      hide BuilderOk, ArenaOk, TreeOk, StackOk, SinkOk, Based, Owns, DomTree.Append, Kept, Inserted, Sunk;
      KeptNothing(nodes, pool);
      NotLonger(pool, c);
      BuilderMeans(nodes, attrs, pool, stk, inHead, txt);
      if |pool| + 8 >= 0x4_0000 { truncated := true; return; }
      if txt == 0 {
        var par := stk[|stk| - 1];
        LastChild(nodes, attrs, pool, par);
        var last := nodes[par].last;
        if last != 0 && nodes[last].kind == Text && nodes[last].a + nodes[last].b == |pool| {
          txt := last;
          SinkLast(nodes, attrs, pool, stk, inHead, last);
        } else {
          if |nodes| >= 16384 { truncated := true; return; }
          NewTextStep(nodes, attrs, pool, stk, inHead, c);
          txt := |nodes|;
          nodes := DomTree.Append(nodes, par, Text, NoTag, |pool|, 1);
          pool := pool + [c];
          return;
        }
      }
      GrowStep(nodes, attrs, pool, stk, inHead, txt, c);
      nodes := nodes[txt := nodes[txt].(b := nodes[txt].b + 1)];
      pool := pool + [c];
      SunkNow(nodes, txt, pool, old(txt), stk);
    }

    /** Several bytes to the text sink; once the arenas are full the rest is lost. */
    method Emit(out: Bytes)
      requires Valid()
      modifies this`nodes, this`pool, this`txt, this`truncated
      ensures Valid() && Kept(old(nodes), old(pool), nodes, pool) && (old(truncated) ==> truncated)
      ensures !truncated ==> pool == old(pool) + out
      ensures |stk| > 0
      ensures !truncated ==> (nodes, txt) == Sunken(old(nodes), old(txt), stk[|stk| - 1], |old(pool)|, |out|)
    {
      hide BuilderOk, ArenaOk, Kept, Sunk, SinkTo, Sunken;
      KeptNothing(nodes, pool);
      Open();
      ghost var n0, x0, cur, len := nodes, txt, stk[|stk| - 1], |pool|;
      SunkenNone(n0, x0, cur, len);
      assert old(pool) + out[..0] == old(pool);
      for j := 0 to |out|
        invariant Valid() && Kept(old(nodes), old(pool), nodes, pool) && (old(truncated) ==> truncated)
        invariant !truncated ==> pool == old(pool) + out[..j] && (nodes, txt) == Sunken(n0, x0, cur, len, j)
      {
        ghost var ns, p := nodes, pool;
        SunkenMore(n0, x0, cur, len, j);
        TextByte(out[j]);
        KeptTwice(old(nodes), old(pool), ns, p, nodes, pool);
        assert out[..j + 1] == out[..j] + [out[j]];
      }
      assert out[..|out|] == out;
    }

    /** dom_in_pre. */
    method InPre() returns (pre: bool)
      requires StackOk(nodes, stk, inHead)
      ensures pre == AnyPre(TagsOf(nodes, stk))
    {
      hide IsPre;
      ghost var ts := TagsOf(nodes, stk);
      assert ts[..|stk|] == ts;
      var i := |stk|;
      while i > 0
        invariant 0 <= i <= |stk| && AnyPre(ts[..i]) == AnyPre(ts)
      {
        assert ts[..i][..i - 1] == ts[..i - 1] && ts[..i][i - 1] == ts[i - 1];
        if IsPre(nodes[stk[i - 1]].tag) { return true; }
        i := i - 1;
      }
      return false;
    }

    /** The loop of dom_add_text. */
    method EmitText(t: Tables, h: Bytes, i0: nat, decode: bool, pre: bool)
      requires Valid() && t.Bounded() && i0 <= |h|
      modifies this`nodes, this`pool, this`txt, this`truncated
      ensures Valid() && Kept(old(nodes), old(pool), nodes, pool) && (old(truncated) ==> truncated)
      ensures !truncated ==> pool == old(pool) + TextOf(t, h, i0, decode, pre)
      ensures |stk| > 0
      ensures !truncated ==>
        (nodes, txt) == Sunken(old(nodes), old(txt), stk[|stk| - 1], |old(pool)|, |TextOf(t, h, i0, decode, pre)|)
    {
      hide *;
      KeptNothing(nodes, pool);
      Open();
      ghost var n0, x0, cur, len := nodes, txt, stk[|stk| - 1], |pool|;
      SunkenNone(n0, x0, cur, len);
      ghost var done := "";
      var i := i0;
      assert old(pool) + done == old(pool) && done + TextOf(t, h, i0, decode, pre) == TextOf(t, h, i0, decode, pre);
      while i < |h| && !truncated
        invariant Valid() && Kept(old(nodes), old(pool), nodes, pool) && (old(truncated) ==> truncated) && i <= |h|
        invariant !truncated ==> pool == old(pool) + done && (nodes, txt) == Sunken(n0, x0, cur, len, |done|)
        invariant TextOf(t, h, i0, decode, pre) == done + TextOf(t, h, i, decode, pre)
        decreases |h| - i
      {
        ghost var ns, p := nodes, pool;
        CharAtMoves(t, h, i, decode);
        var r := CharAt(t, h, i, decode);
        var out := Shown(t, r.1, pre);
        TextOnce(t, h, i, decode, pre);
        SunkenSplit(n0, x0, cur, len, |done|, |out|);
        Emit(out);
        KeptTwice(old(nodes), old(pool), ns, p, nodes, pool);
        Shift(done, out, TextOf(t, h, r.0, decode, pre), old(pool));
        done := done + out;
        i := r.0;
      }
      if !truncated {
        TextOnce(t, h, i, decode, pre);
        assert done + "" == done;
      }
    }

    /** The start of dom_add_text: blanks right in the head are dropped, other text opens the body. */
    method LeaveHead(h: Bytes) returns (drop: bool)
      requires Valid()
      modifies this`stk, this`inHead
      ensures Valid() && drop == (InHeadItself(nodes, old(stk), old(inHead)) && AllWs(h))
      ensures Now() == if drop then old(Now()) else HeadLeft(old(Now()))
    {
      hide BuilderOk, ArenaOk, TreeOk, StackOk, Based, SinkOk, AllWs;
      BuilderMeans(nodes, attrs, pool, stk, inHead, txt);
      drop := false;
      if inHead && nodes[stk[|stk| - 1]].tag == Head {
        var any := AnyText(h);
        if !any { return true; }
        EnterBody();
      }
    }

    /** dom_add_text: h[0..n) becomes text of the current element. */
    method AddText(t: Tables, h: Bytes, decode: bool)
      requires Valid() && t.Bounded()
      modifies this`nodes, this`pool, this`txt, this`truncated, this`stk, this`inHead, this`skipLf
      ensures Valid() && Kept(old(nodes), old(pool), nodes, pool) && (old(truncated) ==> truncated)
      ensures !truncated ==> Now() == WithText(t, h, decode, old(Now()))
    {
      hide BuilderOk, ArenaOk, AllWs, Kept, InHeadItself, TextAdded, HeadLeft, Valid;
      KeptNothing(nodes, pool);
      var drop := LeaveHead(h);
      if drop { return; }
      PutText(t, h, decode);
    }

    /** The rest of dom_add_text. */
    method PutText(t: Tables, h: Bytes, decode: bool)
      requires Valid() && t.Bounded()
      modifies this`nodes, this`pool, this`txt, this`truncated, this`skipLf
      ensures Valid() && Kept(old(nodes), old(pool), nodes, pool) && (old(truncated) ==> truncated)
      ensures !truncated ==> Now() == TextAdded(t, h, decode, old(Now()))
    {
      hide *;
      Shape();
      NowIs();
      ghost var a := Now();
      var i := Skipped(h, skipLf);
      if skipLf { skipLf := false; }
      var pre := InPre();
      EmitText(t, h, i, decode, pre);
      NowIs();
      if !truncated { TextAddedIs(t, h, decode, a, Now()); }
    }

    // ---------- start tags ----------

    /** A dropped tag gives its attributes and their values back. */
    method Drop(afirst: nat, mark: nat)
      requires Valid() && txt == 0 && Above(nodes, attrs, pool, afirst, mark)
      modifies this`attrs, this`pool
      ensures Valid() && attrs == old(attrs)[..afirst] && pool == old(pool)[..mark] && Kept(nodes, old(pool), nodes, pool)
    {
      hide BuilderOk, Kept;
      DropStep(nodes, attrs, pool, stk, inHead, afirst, mark);
      attrs := attrs[..afirst];
      pool := pool[..mark];
    }

    /** html and body keep the attributes of the first tag that has any; others are dropped. */
    method Adopt(e: nat, afirst: nat, mark: nat)
      requires Valid() && txt == 0 && Above(nodes, attrs, pool, afirst, mark) && (e == 1 || e == 3)
      modifies this`nodes, this`attrs, this`pool
      ensures Valid() && Kept(old(nodes), old(pool), nodes, pool) && e < |old(nodes)|
      ensures Adopted(old(nodes), old(attrs), old(pool), e, afirst, mark, nodes, attrs, pool)
    {
      hide *;
      ghost var ns, a0, p0 := nodes, attrs, pool;
      AboveParts(nodes, attrs, pool, afirst, mark);
      RootsAre();
      KeptNothing(nodes, pool);
      if nodes[e].b == 0 && |attrs| - afirst > 0 {
        AdoptNow(e, afirst);
      } else {
        Drop(afirst, mark);
      }
      AdoptedIs(ns, a0, p0, e, afirst, mark, nodes, attrs, pool);
    }

    lemma RootsAre()
      requires Valid()
      ensures |nodes| >= 4 && nodes[1].kind == Elem && nodes[3].kind == Elem
    {
      hide ArenaOk, Under;
    }

    method AdoptNow(e: nat, afirst: nat)
      requires Valid() && txt == 0 && e < |nodes| && nodes[e].kind == Elem && afirst <= |attrs| && Owns(nodes, Elem, afirst)
      modifies this`nodes
      ensures Valid() && Kept(old(nodes), pool, nodes, pool)
      ensures nodes == old(nodes)[e := old(nodes)[e].(a := afirst, b := |attrs| - afirst)]
    {
      hide BuilderOk, Kept, Owns;
      AdoptStep(nodes, attrs, pool, stk, inHead, e, afirst);
      nodes := nodes[e := nodes[e].(a := afirst, b := |attrs| - afirst)];
    }

    /** One open element closed. */
    method PopOne()
      requires Valid() && |stk| > 2
      modifies this`stk
      ensures Valid() && stk == old(stk)[..|old(stk)| - 1]
    {
      hide BuilderOk;
      PopTo(|stk| - 1);
    }

    method CurTag() returns (t: Tag)
      requires Valid()
      ensures StackOk(nodes, stk, inHead) && |stk| >= 2 && t == TagsOf(nodes, stk)[|stk| - 1]
    {
      hide BuilderOk, ArenaOk, StackOk, SinkOk, Based;
      BuilderMeans(nodes, attrs, pool, stk, inHead, txt);
      t := nodes[stk[|stk| - 1]].tag;
    }

    /** Down to the context of a table part. */
    method CloseToContext(tag: Tag)
      requires Valid()
      modifies this`stk
      ensures Valid() && StackOk(nodes, old(stk), inHead)
      ensures stk == old(stk)[..PopToContext(TagsOf(nodes, old(stk)), tag)]
    {
      hide BuilderOk, ArenaOk, StackOk, SinkOk, Based, TagsOf, TableContext;
      BuilderMeans(nodes, attrs, pool, stk, inHead, txt);
      ghost var s, ts := stk, TagsOf(nodes, stk);
      assert s[..|s|] == s && ts[..|s|] == ts;
      while |stk| > 2
        invariant Valid() && |stk| <= |s| && stk == s[..|stk|]
        invariant PopToContext(ts[..|stk|], tag) == PopToContext(ts, tag)
      {
        var t := CurTag();
        TagsPrefix(nodes, s, |stk|);
        assert ts[..|stk|][..|stk| - 1] == ts[..|stk| - 1];
        if TableContext(tag, t) { break; }
        PopOne();
      }
    }

    /** Cutting the stack where a search ended. */
    method CloseFound(i: int)
      requires Valid() && i < |stk| && (i >= 0 ==> i >= 2)
      modifies this`stk
      ensures Valid() && stk == if i >= 0 then old(stk)[..i] else old(stk)
    {
      hide BuilderOk;
      if i >= 0 { PopTo(i); }
    }

    /** The nearest open `tag` in scope is closed, with everything inside it. */
    method CloseOpen(tag: Tag, kind: Scope)
      requires Valid() && !IsRoot(tag)
      modifies this`stk
      ensures Valid() && StackOk(nodes, old(stk), inHead)
      ensures stk == old(stk)[..Cut(TagsOf(nodes, old(stk)), Find(TagsOf(nodes, old(stk)), tag, kind))]
    {
      hide *;
      Shape();
      ghost var s, ts := stk, TagsOf(nodes, stk);
      StackRooted(nodes, stk, inHead);
      RootedSize(ts);
      FindRooted(ts, tag, kind);
      assert s[..|s|] == s;
      var i := FindOpen(tag, kind);
      CloseFound(i);
    }

    method CloseItem(li: bool)
      requires Valid()
      modifies this`stk
      ensures Valid() && StackOk(nodes, old(stk), inHead)
      ensures stk == old(stk)[..Cut(TagsOf(nodes, old(stk)), FindItem(TagsOf(nodes, old(stk)), li))]
    {
      hide *;
      Shape();
      ghost var s, ts := stk, TagsOf(nodes, stk);
      StackRooted(nodes, stk, inHead);
      RootedSize(ts);
      ItemRooted(ts, li);
      CutIs(ts, FindItem(ts, li));
      assert s[..|s|] == s;
      var i := FindOpenItem(li);
      CloseFound(i);
    }

    method CloseOption()
      requires Valid()
      modifies this`stk
      ensures Valid() && StackOk(nodes, old(stk), inHead)
      ensures stk == old(stk)[..LeftOwn(TagsOf(nodes, old(stk)), Option)]
    {
      hide *;
      Shape();
      ghost var s, ts := stk, TagsOf(nodes, stk);
      StackRooted(nodes, stk, inHead);
      LeftOwnOption(ts);
      assert s[..|s|] == s;
      var t := CurTag();
      if t == Option { PopOne(); }
    }

    /** The rule of the start tag itself (kernel/dom.h:549-588). */
    method CloseOwn(tag: Tag)
      requires Valid() && !IsRoot(tag)
      modifies this`stk
      ensures Valid() && StackOk(nodes, old(stk), inHead)
      ensures stk == old(stk)[..LeftOwn(TagsOf(nodes, old(stk)), tag)]
    {
      hide *;
      Shape();
      ghost var s, ts := stk, TagsOf(nodes, stk);
      LeftOwnIs(ts, tag);
      assert s[..|s|] == s;
      if tag == Li {
        CloseItem(true);
      } else if tag == Dd || tag == Dt {
        CloseItem(false);
      } else if tag == Option {
        CloseOption();
      } else if tag == Optgroup {
        CloseOptgroup();
      } else if tag == A || tag == Button {
        CloseOpen(tag, Generic);
      } else if IsTablePart(tag) {
        CloseToContext(tag);
      }
    }

    method CloseOptgroup()
      requires Valid()
      modifies this`stk
      ensures Valid() && StackOk(nodes, old(stk), inHead)
      ensures stk == old(stk)[..LeftOwn(TagsOf(nodes, old(stk)), Optgroup)]
    {
      hide *;
      Shape();
      ghost var s := stk;
      OptgroupCut(nodes, s, inHead);
      CloseOption();
      ghost var m := LeftOwn(TagsOf(nodes, s), Option);
      PopOptgroup(s, m, TagsOf(nodes, s)[m - 1] == Optgroup);
    }

    /** The second half of CloseOptgroup, with m of the elements of s left. */
    method PopOptgroup(ghost s: seq<nat>, ghost m: nat, ghost last: bool)
      requires 2 <= m <= |s| && stk == s[..m] && forall k :: 0 <= k < |s| ==> s[k] < |nodes|
      requires last == (TagsOf(nodes, s)[m - 1] == Optgroup) && (last ==> m > 2)
      requires Valid()
      modifies this`stk
      ensures Valid() && stk == s[..if last then m - 1 else m]
    {
      hide *;
      TagsPrefix(nodes, s, m);
      var t := CurTag();
      if t == Optgroup {
        PopOne();
        assert s[..m][..m - 1] == s[..m - 1];
      }
    }

    /** The same while a tag is being parsed: the pool may have grown past the text node that
        was being extended, which the tag will close. */
    ghost predicate Loose()
      reads this`nodes, this`attrs, this`pool, this`stk, this`inHead
    {
      BuilderOk(nodes, attrs, pool, stk, inHead, 0)
    }

    lemma ValidIsLoose()
      requires Valid()
      ensures Loose()
    {
      hide ArenaOk, StackOk;
    }

    /** The next text byte starts a new node, or takes up the last one. */
    method ResetSink()
      requires Loose()
      modifies this`txt
      ensures Valid() && txt == 0
    {
      hide ArenaOk, StackOk;
      txt := 0;
    }

    lemma Shape()
      requires Valid()
      ensures StackOk(nodes, stk, inHead) && 2 <= |stk| <= 192 && |nodes| >= 4
      ensures forall k :: 0 <= k < |stk| ==> stk[k] < |nodes|
    {
      hide ArenaOk, SinkOk, TagsOf, Under;
    }

    /** A heading closes the heading it would stand in. */
    method CloseHeading(tag: Tag)
      requires Valid()
      modifies this`stk
      ensures Valid() && StackOk(nodes, old(stk), inHead) && |old(stk)| >= 2
      ensures stk == if IsHeading(tag) && IsHeading(TagsOf(nodes, old(stk))[|old(stk)| - 1])
                     then old(stk)[..|old(stk)| - 1] else old(stk)
    {
      hide *;
      Shape();
      ghost var ts := TagsOf(nodes, stk);
      StackRooted(nodes, stk, inHead);
      LeftHeadingIs(ts, |ts|, tag);
      if IsHeading(tag) {
        var t := CurTag();
        if IsHeading(t) { PopOne(); }
      }
    }

    /** Everything a start tag in the body closes. */
    method CloseImplied(tag: Tag)
      requires Valid() && !IsRoot(tag)
      modifies this`stk
      ensures Valid() && StackOk(nodes, old(stk), inHead) && |old(stk)| >= 2
      ensures stk == old(stk)[..Left(TagsOf(nodes, old(stk)), tag)]
    {
      hide *;
      Shape();
      ghost var s, ts := stk, TagsOf(nodes, stk);
      StackRooted(nodes, stk, inHead);
      LeftPIs(ts, tag);
      LeftHeadingIs(ts, LeftP(ts, tag), tag);
      LeftParts(ts, tag);
      assert s[..|s|] == s;
      if ClosesP(tag) {
        PIsNoRoot();
        CutIs(ts, Find(ts, P, ButtonScope));
        CloseOpen(P, ButtonScope);
      }
      assert stk == s[..LeftP(ts, tag)];
      TagsPrefix(nodes, s, |stk|);
      CloseHeading(tag);
      TagsPrefix(nodes, s, |stk|);
      assert stk == s[..LeftHeading(ts, LeftP(ts, tag), tag)];
      CloseOwn(tag);
    }

    /** A td or th without a row: one is supplied. */
    method SupplyRow(tag: Tag, ghost first: nat)
      requires Valid() && Owns(nodes, Elem, first)
      modifies this`nodes, this`stk, this`truncated
      ensures Valid() && Kept(old(nodes), pool, nodes, pool) && Owns(nodes, Elem, first) && (old(truncated) ==> truncated)
      ensures StackOk(old(nodes), old(stk), inHead)
      ensures truncated || RowSupplied(old(nodes), old(stk), inHead, tag, nodes, stk)
    {
      hide *;
      Shape();
      KeptNothing(nodes, pool);
      ghost var ns, s := nodes, stk;
      RowCases(ns, s, inHead, tag);
      if tag == Td || tag == Th {
        var t := CurTag();
        if IsRowGroup(t) {
          var r := InsertElem(Tr, 0, 0, true, first);
          if r != 0 { RowIs(ns, s, inHead, tag, nodes, stk, r); }
        }
      }
    }

    /** The end of dom_start: the element itself. */
    method Place(tag: Tag, afirst: nat, acount: nat, selfclose: bool) returns (n: nat)
      requires Valid() && afirst + acount == |attrs| && (acount > 0 ==> Owns(nodes, Elem, afirst))
      modifies this`nodes, this`stk, this`truncated, this`foreign
      ensures Valid() && Kept(old(nodes), pool, nodes, pool) && (old(truncated) ==> truncated)
      ensures n == 0 ==> truncated
      ensures foreign == old(foreign) + Nesting(tag, selfclose)
      ensures n != 0 ==> Inserted(old(nodes), old(stk), nodes, stk, tag, afirst, acount, n, Opens(tag, selfclose, old(foreign)))
    {
      hide *;
      NestingIs(tag, selfclose);
      n := InsertElem(tag, afirst, acount, Opens(tag, selfclose, foreign), 0);
      if (tag == Svg || tag == Math) && !selfclose { foreign := foreign + 1; }
    }

    /** dom_start for html and body, which are there already. */
    method StartRoot(tag: Tag, afirst: nat, mark: nat)
      requires Valid() && txt == 0 && Above(nodes, attrs, pool, afirst, mark) && (tag == Html || tag == Body)
      modifies this`nodes, this`attrs, this`pool, this`stk, this`inHead
      ensures Valid() && Kept(old(nodes), old(pool), nodes, pool)
      ensures stk == (if tag == Body && old(inHead) then [1, 3] else old(stk))
      ensures inHead == (old(inHead) && tag == Html)
      ensures |old(nodes)| >= 4 && afirst <= |old(attrs)| && mark <= |old(pool)|
      ensures Adopted(old(nodes), old(attrs), old(pool), if tag == Html then 1 else 3, afirst, mark, nodes, attrs, pool)
    {
      hide *;
      Shape();
      AboveParts(nodes, attrs, pool, afirst, mark);
      if tag == Html {
        Adopt(1, afirst, mark);
      } else {
        EnterBody();
        Adopt(3, afirst, mark);
      }
    }

    /** dom_start for every tag that makes an element. */
    method StartElem(tag: Tag, afirst: nat, selfclose: bool) returns (n: nat)
      requires Valid() && afirst <= |attrs| && Owns(nodes, Elem, afirst) && !IsRoot(tag)
      modifies this`nodes, this`stk, this`inHead, this`truncated, this`foreign
      ensures Valid() && Kept(old(nodes), pool, nodes, pool) && (old(truncated) ==> truncated)
      ensures StackOk(old(nodes), old(stk), old(inHead)) && (n == 0 ==> truncated)
      ensures foreign == old(foreign) + Nesting(tag, selfclose)
      ensures !truncated ==>
        Opened(old(nodes), old(stk), old(inHead), tag, afirst, |attrs| - afirst, nodes, stk, inHead, n,
               Opens(tag, selfclose, old(foreign)))
    {
      hide *;
      Shape();
      ghost var ns, s0, h0 := nodes, stk, inHead;
      KeptNothing(ns, pool);
      if inHead && !IsHeadish(tag) { EnterBody(); }
      Shape();
      ghost var s1, h1 := stk, inHead;
      if !inHead {
        CloseImplied(tag);
        Shape();
        SupplyRow(tag, afirst);
      }
      ghost var ns2, s2 := nodes, stk;
      n := Place(tag, afirst, |attrs| - afirst, selfclose);
      KeptTwice(ns, pool, ns2, pool, nodes, pool);
      if !truncated {
        OpenedIs(ns, s0, h0, tag, afirst, |attrs| - afirst, s1, h1, ns2, s2, nodes, stk, n, Opens(tag, selfclose, old(foreign)));
      }
    }

    /** dom_start.  The tag's attributes are attrs[afirst..]; mark is where the pool stood
        before their values. */
    method Start(tag: Tag, afirst: nat, mark: nat, selfclose: bool) returns (n: nat)
      requires Loose() && Above(nodes, attrs, pool, afirst, mark)
      modifies this`nodes, this`attrs, this`pool, this`stk, this`inHead, this`txt, this`truncated, this`foreign
      ensures Valid() && Kept(old(nodes), old(pool), nodes, pool) && (old(truncated) ==> truncated) && txt == 0
      ensures StackOk(old(nodes), old(stk), old(inHead)) && (MakesElement(tag) ==> attrs == old(attrs) && pool == old(pool))
      ensures !truncated ==> Started(old(Now()), tag, afirst, mark, selfclose, Now(), n)
    {
      hide *;
      ghost var a := Now();
      NowIs();
      ResetSink();
      NowIs();
      n := StartTag(tag, afirst, mark, selfclose);
      if !truncated { StartedSink(a, tag, afirst, mark, selfclose, Now(), n); }
    }

    /** dom_start once the text sink is closed. */
    method StartTag(tag: Tag, afirst: nat, mark: nat, selfclose: bool) returns (n: nat)
      requires Valid() && txt == 0 && Above(nodes, attrs, pool, afirst, mark)
      modifies this`nodes, this`attrs, this`pool, this`stk, this`inHead, this`truncated, this`foreign
      ensures Valid() && Kept(old(nodes), old(pool), nodes, pool) && (old(truncated) ==> truncated)
      ensures StackOk(old(nodes), old(stk), old(inHead)) && (MakesElement(tag) ==> attrs == old(attrs) && pool == old(pool))
      ensures !truncated ==> Started(old(Now()), tag, afirst, mark, selfclose, Now(), n)
    {
      hide *;
      n := 0;
      Shape();
      NowIs();
      ghost var a := Now();
      AboveParts(nodes, attrs, pool, afirst, mark);
      if MakesElement(tag) {
        MakerIsNoRoot(tag);
        n := StartElem(tag, afirst, selfclose);
        NowIs();
        if !truncated { StartedOpened(a, tag, afirst, mark, selfclose, Now(), n); }
      } else {
        Absorb(tag, afirst, mark);
        NowIs();
        StartedAbsorbed(a, tag, afirst, mark, selfclose, Now());
      }
    }

    /** dom_start for the tags that make no element. */
    method Absorb(tag: Tag, afirst: nat, mark: nat)
      requires Valid() && txt == 0 && Above(nodes, attrs, pool, afirst, mark) && !MakesElement(tag)
      modifies this`nodes, this`attrs, this`pool, this`stk, this`inHead
      ensures Valid() && Kept(old(nodes), old(pool), nodes, pool)
      ensures Absorbed(old(nodes), old(attrs), old(pool), old(stk), old(inHead), tag, afirst, mark, nodes, attrs, pool, stk, inHead)
    {
      hide *;
      Shape();
      TagKinds(tag);
      AboveParts(nodes, attrs, pool, afirst, mark);
      ghost var ns, a0, p0, s0, h0 := nodes, attrs, pool, stk, inHead;
      if tag == Html || tag == Body {
        StartRoot(tag, afirst, mark);
      } else {
        Drop(afirst, mark);
      }
      AbsorbedIs(ns, a0, p0, s0, h0, tag, afirst, mark, nodes, attrs, pool, stk, inHead);
    }

    // ---------- end tags ----------

    method CloseOpenHeading()
      requires Valid()
      modifies this`stk
      ensures Valid() && StackOk(nodes, old(stk), inHead)
      ensures stk == old(stk)[..Cut(TagsOf(nodes, old(stk)), FindHeading(TagsOf(nodes, old(stk))))]
    {
      hide *;
      Shape();
      ghost var s, ts := stk, TagsOf(nodes, stk);
      StackRooted(nodes, stk, inHead);
      EndHeading(ts);
      CutIs(ts, FindHeading(ts));
      assert s[..|s|] == s;
      var i := FindOpenHeading();
      CloseFound(i);
    }

    /** The nearest open `tag` above the next special element is closed. */
    method ClosePlain(tag: Tag)
      requires Valid() && !IsRoot(tag)
      modifies this`stk
      ensures Valid() && StackOk(nodes, old(stk), inHead)
      ensures stk == old(stk)[..Cut(TagsOf(nodes, old(stk)), FindPlain(TagsOf(nodes, old(stk)), tag))]
    {
      hide *;
      Shape();
      ghost var s, ts := stk, TagsOf(nodes, stk);
      StackRooted(nodes, stk, inHead);
      PlainRooted(ts, tag);
      assert s[..|s|] == s;
      var k := FindOpenPlain(tag);
      CloseFound(k);
    }

    /** An end tag whose element is not open in scope. */
    method CloseFar(tag: Tag)
      requires Valid() && !IsRoot(tag)
      modifies this`stk
      ensures Valid() && StackOk(nodes, old(stk), inHead)
      ensures stk == old(stk)[..EndFar(TagsOf(nodes, old(stk)), tag)]
    {
      hide *;
      Shape();
      ghost var s, ts := stk, TagsOf(nodes, stk);
      EndAnyIs(ts, tag);
      assert s[..|s|] == s;
      if !IsFormatting(tag) { ClosePlain(tag); }
    }

    /** An end tag that no rule of its own covers. */
    method CloseAny(tag: Tag)
      requires Valid() && !IsRoot(tag)
      modifies this`stk
      ensures Valid() && StackOk(nodes, old(stk), inHead)
      ensures stk == old(stk)[..EndAny(TagsOf(nodes, old(stk)), tag)]
    {
      hide *;
      Shape();
      ghost var ts := TagsOf(nodes, stk);
      StackRooted(nodes, stk, inHead);
      FindRooted(ts, tag, Generic);
      EndAnyIs(ts, tag);
      var i := FindOpen(tag, Generic);
      if i >= 0 {
        PopTo(i);
      } else {
        CloseFar(tag);
      }
    }

    /** What an end tag closes. */
    method CloseEnd(tag: Tag)
      requires Valid() && !IsRoot(tag)
      modifies this`stk
      ensures Valid() && StackOk(nodes, old(stk), inHead)
      ensures stk == old(stk)[..EndLeft(TagsOf(nodes, old(stk)), tag)]
    {
      hide *;
      Shape();
      EndLeftIs(TagsOf(nodes, stk), tag);
      var scope := EndScope(tag);
      if scope.InScope? {
        CloseOpen(tag, scope.scope);
      } else if IsHeading(tag) {
        CloseOpenHeading();
      } else {
        CloseAny(tag);
      }
    }

    /** "</p>": with no p in scope, an empty one is made in the body. */
    method EndP()
      requires Valid()
      modifies this`nodes, this`stk, this`truncated
      ensures Valid() && Kept(old(nodes), pool, nodes, pool) && (old(truncated) ==> truncated)
      ensures StackOk(old(nodes), old(stk), inHead)
      ensures !truncated ==> PEnded(old(nodes), old(stk), inHead, nodes, stk)
    {
      hide *;
      Shape();
      KeptNothing(nodes, pool);
      ghost var ns, s, ts := nodes, stk, TagsOf(nodes, stk);
      StackRooted(nodes, stk, inHead);
      PIsNoRoot();
      FindRooted(ts, P, ButtonScope);
      PEndedIs(ns, s, inHead);
      var i := FindOpen(P, ButtonScope);
      if i >= 0 {
        PopTo(i);
      } else if !inHead {
        var n := InsertElem(P, 0, 0, false, 0);
        if n != 0 { PEndedMade(ns, s, inHead, nodes, stk, n); }
      }
    }

    /** dom_end. */
    method End(tag: Tag)
      requires Valid()
      modifies this`nodes, this`attrs, this`pool, this`stk, this`inHead, this`txt, this`truncated, this`foreign
      ensures Valid() && Kept(old(nodes), old(pool), nodes, pool) && (old(truncated) ==> truncated) && txt == 0
      ensures attrs == old(attrs) && pool == old(pool)
      ensures !truncated ==> EndDone(old(Now()), tag, Now())
    {
      hide *;
      ghost var a := Now();
      NowIs();
      ValidIsLoose();
      ResetSink();
      EndTag(tag);
      NowIs();
      if !truncated { EndDoneIs(a, tag, Now()); }
    }

    /** dom_end once the text sink is closed. */
    method EndTag(tag: Tag)
      requires Valid() && txt == 0
      modifies this`nodes, this`attrs, this`pool, this`stk, this`inHead, this`txt, this`truncated, this`foreign
      ensures Valid() && Kept(old(nodes), old(pool), nodes, pool) && (old(truncated) ==> truncated) && txt == 0
      ensures attrs == old(attrs) && pool == old(pool) && StackOk(old(nodes), old(stk), old(inHead))
      ensures !truncated ==> foreign == Unnesting(tag, old(foreign))
      ensures !truncated ==> Ended(old(nodes), old(stk), old(inHead), |attrs|, tag, nodes, stk, inHead)
    {
      hide *;
      UnnestingIs(tag, foreign);
      Shape();
      KeptNothing(nodes, pool);
      ghost var ns, s, h := nodes, stk, inHead;
      if tag == Html || tag == Body || tag == Head {
        EndRootTag(tag);
      } else if tag == Br {
        EndBr();
        if !truncated { EndedBr(ns, s, h, |attrs|, nodes, stk, inHead); }
      } else if tag == P {
        EndP();
        if !truncated { EndedP(ns, s, h, |attrs|, nodes, stk); }
      } else {
        EndOther(tag);
        EndedOther(ns, s, h, |attrs|, tag, stk);
      }
    }

    /** html and body are never closed; "</head>" opens the body. */
    method EndRootTag(tag: Tag)
      requires Valid() && (tag == Html || tag == Body || tag == Head)
      modifies this`stk, this`inHead
      ensures Valid() && StackOk(nodes, old(stk), old(inHead))
      ensures Ended(nodes, old(stk), old(inHead), |attrs|, tag, nodes, stk, inHead)
    {
      hide *;
      Shape();
      ghost var s, h := stk, inHead;
      if tag == Head { EnterBody(); }
      EndedRoot(nodes, s, h, |attrs|, tag, stk, inHead);
    }

    method EndOther(tag: Tag)
      requires Valid() && tag != Html && tag != Head && tag != Body
      modifies this`stk, this`foreign
      ensures Valid() && StackOk(nodes, old(stk), inHead)
      ensures stk == old(stk)[..EndLeft(TagsOf(nodes, old(stk)), tag)]
      ensures foreign == if (tag == Svg || tag == Math) && old(foreign) > 0 then old(foreign) - 1 else old(foreign)
    {
      hide *;
      TagKinds(tag);
      if (tag == Svg || tag == Math) && foreign > 0 { foreign := foreign - 1; }
      CloseEnd(tag);
    }

    /** "</br>" is read as <br>. */
    method EndBr()
      requires Valid() && txt == 0
      modifies this`nodes, this`attrs, this`pool, this`stk, this`inHead, this`txt, this`truncated, this`foreign
      ensures Valid() && Kept(old(nodes), old(pool), nodes, pool) && (old(truncated) ==> truncated) && txt == 0
      ensures attrs == old(attrs) && pool == old(pool) && StackOk(old(nodes), old(stk), old(inHead))
      ensures !truncated ==> exists n :: Opened(old(nodes), old(stk), old(inHead), Br, |attrs|, 0, nodes, stk, inHead, n, false)
      ensures !truncated ==> foreign == old(foreign)
    {
      hide *;
      NothingAbove();
      ValidIsLoose();
      BrKind();
      ghost var a := Now();
      NowIs();
      var n := Start(Br, |attrs|, |pool|, false);
      NowIs();
      if !truncated { StartedBr(a, Now(), n); }
    }

    lemma NothingAbove()
      requires Valid()
      ensures Above(nodes, attrs, pool, |attrs|, |pool|)
    {
      hide ArenaOk, StackOk;
      AboveNow(nodes, attrs, pool);
    }
  }

  /** What an end tag does to the tree and the stack when the arenas have room. */
  ghost predicate Ended(ns: Nodes, stk: seq<nat>, inHead: bool, na: nat, tag: Tag, ns': Nodes, stk': seq<nat>, inHead': bool)
    requires StackOk(ns, stk, inHead)
  {
    if tag == Html || tag == Body then ns' == ns && stk' == stk && inHead' == inHead
    else if tag == Head then ns' == ns && !inHead' && stk' == (if inHead then [1, 3] else stk)
    else if tag == Br then exists n :: Opened(ns, stk, inHead, Br, na, 0, ns', stk', inHead', n, false)
    else if tag == P then inHead' == inHead && PEnded(ns, stk, inHead, ns', stk')
    else ns' == ns && inHead' == inHead && stk' == stk[..EndLeft(TagsOf(ns, stk), tag)]
  }

  /** What "</svg>" and "</math>" leave of the nesting of foreign content. */
  function Unnesting(tag: Tag, foreign: nat): nat {
    if (tag == Svg || tag == Math) && foreign > 0 then foreign - 1 else foreign
  }

  lemma UnnestingIs(tag: Tag, foreign: nat)
    ensures Unnesting(tag, foreign) == if (tag == Svg || tag == Math) && foreign > 0 then foreign - 1 else foreign
  {
  }

  /** The effect of dom_end on all the fields when the arenas have room. */
  ghost predicate EndDone(a: Page, tag: Tag, b: Page) {
    && StackOk(a.nodes, a.stk, a.inHead) && Ended(a.nodes, a.stk, a.inHead, |a.attrs|, tag, b.nodes, b.stk, b.inHead)
    && b.attrs == a.attrs && b.pool == a.pool && b.txt == 0 && b.skipLf == a.skipLf && b.foreign == Unnesting(tag, a.foreign)
  }

  lemma EndDoneIs(a: Page, tag: Tag, b: Page)
    requires StackOk(a.nodes, a.stk, a.inHead) && Ended(a.nodes, a.stk, a.inHead, |a.attrs|, tag, b.nodes, b.stk, b.inHead)
    requires b.attrs == a.attrs && b.pool == a.pool && b.txt == 0 && b.skipLf == a.skipLf && b.foreign == Unnesting(tag, a.foreign)
    ensures EndDone(a, tag, b)
  {
    hide StackOk, Ended, Unnesting;
  }

  lemma EndedRoot(ns: Nodes, stk: seq<nat>, inHead: bool, na: nat, tag: Tag, stk': seq<nat>, inHead': bool)
    requires StackOk(ns, stk, inHead) && (tag == Html || tag == Body || tag == Head)
    requires if tag == Head then !inHead' && stk' == (if inHead then [1, 3] else stk) else stk' == stk && inHead' == inHead
    ensures Ended(ns, stk, inHead, na, tag, ns, stk', inHead')
  {
    hide StackOk;
  }

  lemma EndedBr(ns: Nodes, stk: seq<nat>, inHead: bool, na: nat, ns': Nodes, stk': seq<nat>, inHead': bool)
    requires StackOk(ns, stk, inHead) && exists n :: Opened(ns, stk, inHead, Br, na, 0, ns', stk', inHead', n, false)
    ensures Ended(ns, stk, inHead, na, Br, ns', stk', inHead')
  {
    hide StackOk, Opened;
  }

  lemma EndedP(ns: Nodes, stk: seq<nat>, inHead: bool, na: nat, ns': Nodes, stk': seq<nat>)
    requires StackOk(ns, stk, inHead) && PEnded(ns, stk, inHead, ns', stk')
    ensures Ended(ns, stk, inHead, na, P, ns', stk', inHead)
  {
    hide StackOk, PEnded;
  }

  lemma EndedOther(ns: Nodes, stk: seq<nat>, inHead: bool, na: nat, tag: Tag, stk': seq<nat>)
    requires StackOk(ns, stk, inHead) && tag != Html && tag != Body && tag != Head && tag != Br && tag != P
    requires stk' == stk[..EndLeft(TagsOf(ns, stk), tag)]
    ensures Ended(ns, stk, inHead, na, tag, ns, stk', inHead)
  {
    hide StackOk, EndLeft;
  }

  lemma BrKind()
    ensures !IsRoot(Br) && MakesElement(Br) && IsVoid(Br)
  {
  }

  /** After "</p>": the innermost p in scope is closed, or an empty one was made. */
  ghost predicate PEnded(ns: Nodes, stk: seq<nat>, inHead: bool, ns': Nodes, stk': seq<nat>)
    requires StackOk(ns, stk, inHead)
  {
    var i := Find(TagsOf(ns, stk), P, ButtonScope);
    if i >= 0 then ns' == ns && stk' == stk[..i]
    else if inHead then ns' == ns && stk' == stk
    else Inserted(ns, stk, ns', stk', P, 0, 0, |ns|, false)
  }

  lemma PEndedIs(ns: Nodes, stk: seq<nat>, inHead: bool)
    requires StackOk(ns, stk, inHead)
    ensures var i := Find(TagsOf(ns, stk), P, ButtonScope);
      && (i >= 0 ==> PEnded(ns, stk, inHead, ns, stk[..i]))
      && (i < 0 && inHead ==> PEnded(ns, stk, inHead, ns, stk))
  {
    hide Find, StackOk;
  }

  lemma PEndedMade(ns: Nodes, stk: seq<nat>, inHead: bool, ns': Nodes, stk': seq<nat>, n: nat)
    requires StackOk(ns, stk, inHead) && !inHead && Find(TagsOf(ns, stk), P, ButtonScope) < 0
    requires Inserted(ns, stk, ns', stk', P, 0, 0, n, false)
    ensures PEnded(ns, stk, inHead, ns', stk')
  {
    hide Find, StackOk;
  }

  /** Every tag but html, head and body, which are there already, and frames, which are dropped. */
  predicate MakesElement(t: Tag) {
    !IsRoot(t) && t != Frame && t != Frameset
  }

  lemma MakerIsNoRoot(t: Tag)
    requires MakesElement(t)
    ensures !IsRoot(t)
  {
  }

  lemma TagKinds(t: Tag)
    ensures MakesElement(t) == !(t == Html || t == Head || t == Body || t == Frame || t == Frameset)
    ensures IsRoot(t) == (t == Html || t == Head || t == Body)
  {
  }

  /** A tag that makes no element: html and body may take its attributes, otherwise they and
      their values are given back. */
  ghost predicate Absorbed(ns: Nodes, attrs: seq<Attr>, pool: Bytes, stk: seq<nat>, inHead: bool, tag: Tag, first: nat, mark: nat,
                           ns': Nodes, attrs': seq<Attr>, pool': Bytes, stk': seq<nat>, inHead': bool)
  {
    && |ns| >= 4 && first <= |attrs| && mark <= |pool|
    && stk' == (if tag == Body && inHead then [1, 3] else stk) && inHead' == (inHead && tag != Body)
    && if tag == Html || tag == Body then Adopted(ns, attrs, pool, if tag == Html then 1 else 3, first, mark, ns', attrs', pool')
       else ns' == ns && attrs' == attrs[..first] && pool' == pool[..mark]
  }

  lemma AbsorbedIs(ns: Nodes, attrs: seq<Attr>, pool: Bytes, stk: seq<nat>, inHead: bool, tag: Tag, first: nat, mark: nat,
                   ns': Nodes, attrs': seq<Attr>, pool': Bytes, stk': seq<nat>, inHead': bool)
    requires |ns| >= 4 && first <= |attrs| && mark <= |pool|
    requires stk' == (if tag == Body && inHead then [1, 3] else stk) && inHead' == (inHead && tag != Body)
    requires if tag == Html || tag == Body then Adopted(ns, attrs, pool, if tag == Html then 1 else 3, first, mark, ns', attrs', pool')
             else ns' == ns && attrs' == attrs[..first] && pool' == pool[..mark]
    ensures Absorbed(ns, attrs, pool, stk, inHead, tag, first, mark, ns', attrs', pool', stk', inHead')
  {
    hide Adopted;
  }

  lemma AboveParts(ns: Nodes, attrs: seq<Attr>, pool: Bytes, first: nat, mark: nat)
    requires Above(ns, attrs, pool, first, mark)
    ensures first <= |attrs| && mark <= |pool| && Owns(ns, Elem, first)
  {
  }

  /** What a start tag does to the tree and the stack when the arenas have room: the body is
      opened if need be, what the tag implies is closed, a missing row is supplied, and the
      element becomes the last child of the current one. */
  ghost predicate Opened(ns: Nodes, stk: seq<nat>, inHead: bool, tag: Tag, a: nat, b: nat,
                         ns': Nodes, stk': seq<nat>, inHead': bool, n: nat, push: bool)
    requires StackOk(ns, stk, inHead)
  {
    var base := if inHead && !IsHeadish(tag) then [1, 3] else stk;
    && inHead' == (inHead && IsHeadish(tag))
    && StackOk(ns, base, inHead')
    && var kept := if inHead' then base else base[..Left(TagsOf(ns, base), tag)];
       StackOk(ns, kept, inHead') && exists ns1, s1 ::
         (if inHead' then ns1 == ns && s1 == kept else RowSupplied(ns, kept, inHead', tag, ns1, s1))
         && Inserted(ns1, s1, ns', stk', tag, a, b, n, push)
  }

  lemma OpenedIs(ns: Nodes, stk: seq<nat>, inHead: bool, tag: Tag, a: nat, b: nat,
                 base: seq<nat>, inHead': bool, ns1: Nodes, s1: seq<nat>,
                 ns': Nodes, stk': seq<nat>, n: nat, push: bool)
    requires StackOk(ns, stk, inHead)
    requires inHead' == (inHead && IsHeadish(tag)) && base == (if inHead && !IsHeadish(tag) then [1, 3] else stk)
    requires StackOk(ns, base, inHead')
    requires inHead' ==> ns1 == ns && s1 == base
    requires !inHead' ==>
      StackOk(ns, base[..Left(TagsOf(ns, base), tag)], inHead')
      && RowSupplied(ns, base[..Left(TagsOf(ns, base), tag)], inHead', tag, ns1, s1)
    requires Inserted(ns1, s1, ns', stk', tag, a, b, n, push)
    ensures Opened(ns, stk, inHead, tag, a, b, ns', stk', inHead', n, push)
  {
    hide IsHeadish, RowSupplied, Inserted, Left, Under, Based, TagsOf;
  }

  /** The new element stays open: not a void one, and not closed by itself in foreign content. */
  predicate Opens(tag: Tag, selfclose: bool, foreign: nat) {
    !(IsVoid(tag) || (selfclose && foreign > 0))
  }

  /** What "<svg>" and "<math>" add to the nesting of foreign content. */
  function Nesting(tag: Tag, selfclose: bool): nat {
    if (tag == Svg || tag == Math) && !selfclose then 1 else 0
  }

  lemma NestingIs(tag: Tag, selfclose: bool)
    ensures Nesting(tag, selfclose) == if (tag == Svg || tag == Math) && !selfclose then 1 else 0
  {
  }

  /** The effect of dom_start on all the fields when the arenas have room; n is its answer. */
  ghost predicate Started(a: Page, tag: Tag, first: nat, mark: nat, selfclose: bool, b: Page, n: nat) {
    && StackOk(a.nodes, a.stk, a.inHead) && first <= |a.attrs| && mark <= |a.pool|
    && b.txt == 0 && b.skipLf == a.skipLf
    && if MakesElement(tag) then
         && b.attrs == a.attrs && b.pool == a.pool && b.foreign == a.foreign + Nesting(tag, selfclose)
         && Opened(a.nodes, a.stk, a.inHead, tag, first, |a.attrs| - first, b.nodes, b.stk, b.inHead, n,
                   Opens(tag, selfclose, a.foreign))
       else
         && n == 0 && b.foreign == a.foreign
         && Absorbed(a.nodes, a.attrs, a.pool, a.stk, a.inHead, tag, first, mark, b.nodes, b.attrs, b.pool, b.stk, b.inHead)
  }

  lemma StartedAbsorbed(a: Page, tag: Tag, first: nat, mark: nat, selfclose: bool, b: Page)
    requires StackOk(a.nodes, a.stk, a.inHead) && first <= |a.attrs| && mark <= |a.pool| && !MakesElement(tag)
    requires b.txt == 0 && b.skipLf == a.skipLf && b.foreign == a.foreign
    requires Absorbed(a.nodes, a.attrs, a.pool, a.stk, a.inHead, tag, first, mark, b.nodes, b.attrs, b.pool, b.stk, b.inHead)
    ensures Started(a, tag, first, mark, selfclose, b, 0)
  {
    hide StackOk, Absorbed, MakesElement;
  }

  /** dom_start closes the text sink first, whatever it held. */
  lemma StartedSink(a: Page, tag: Tag, first: nat, mark: nat, selfclose: bool, b: Page, n: nat)
    requires Started(a.(txt := 0), tag, first, mark, selfclose, b, n)
    ensures Started(a, tag, first, mark, selfclose, b, n)
  {
    hide StackOk, Opened, Absorbed, MakesElement, Nesting, Opens;
  }

  lemma StartedBr(a: Page, b: Page, n: nat)
    requires Started(a, Br, |a.attrs|, |a.pool|, false, b, n) && MakesElement(Br) && IsVoid(Br)
    ensures StackOk(a.nodes, a.stk, a.inHead) && b.foreign == a.foreign
    ensures Opened(a.nodes, a.stk, a.inHead, Br, |a.attrs|, 0, b.nodes, b.stk, b.inHead, n, false)
  {
    hide StackOk, Opened, IsVoid, MakesElement;
  }

  lemma StartedOpened(a: Page, tag: Tag, first: nat, mark: nat, selfclose: bool, b: Page, n: nat)
    requires StackOk(a.nodes, a.stk, a.inHead) && first <= |a.attrs| && mark <= |a.pool| && MakesElement(tag)
    requires b.txt == 0 && b.skipLf == a.skipLf && b.foreign == a.foreign + Nesting(tag, selfclose)
    requires b.attrs == a.attrs && b.pool == a.pool
    requires Opened(a.nodes, a.stk, a.inHead, tag, first, |a.attrs| - first, b.nodes, b.stk, b.inHead, n,
                    Opens(tag, selfclose, a.foreign))
    ensures Started(a, tag, first, mark, selfclose, b, n)
  {
    hide StackOk, Opened, MakesElement, Nesting, IsVoid;
  }

  /** The stack and the nodes after a row was supplied where one is needed. */
  ghost predicate RowSupplied(ns: Nodes, stk: seq<nat>, inHead: bool, tag: Tag, ns': Nodes, stk': seq<nat>)
    requires StackOk(ns, stk, inHead)
  {
    if (tag == Td || tag == Th) && IsRowGroup(ns[stk[|stk| - 1]].tag) then Inserted(ns, stk, ns', stk', Tr, 0, 0, |ns|, true)
    else ns' == ns && stk' == stk
  }

  lemma RowCases(ns: Nodes, stk: seq<nat>, inHead: bool, tag: Tag)
    requires StackOk(ns, stk, inHead)
    ensures |stk| >= 2
    ensures !((tag == Td || tag == Th) && IsRowGroup(TagsOf(ns, stk)[|stk| - 1])) ==> RowSupplied(ns, stk, inHead, tag, ns, stk)
  {
    hide Under, IsRowGroup;
  }

  lemma RowIs(ns: Nodes, stk: seq<nat>, inHead: bool, tag: Tag, ns': Nodes, stk': seq<nat>, r: nat)
    requires StackOk(ns, stk, inHead) && (tag == Td || tag == Th) && IsRowGroup(TagsOf(ns, stk)[|stk| - 1])
    requires Inserted(ns, stk, ns', stk', Tr, 0, 0, r, true)
    ensures RowSupplied(ns, stk, inHead, tag, ns', stk')
  {
    hide Under, IsRowGroup;
  }

  lemma PIsNoRoot()
    ensures !IsRoot(P)
  {
  }

  lemma LeftParts(tags: seq<Tag>, tag: Tag)
    ensures Left(tags, tag) == LeftOwn(tags[..LeftHeading(tags, LeftP(tags, tag), tag)], tag)
  {
  }

  /** An optgroup closes an option and then an optgroup. */
  lemma OptgroupCut(ns: Nodes, s: seq<nat>, inHead: bool)
    requires StackOk(ns, s, inHead) && forall k :: 0 <= k < |s| ==> s[k] < |ns|
    ensures var ts := TagsOf(ns, s);
      var m := LeftOwn(ts, Option);
      2 <= m <= |s| == |ts| && (ts[m - 1] == Optgroup ==> m > 2)
      && LeftOwn(ts, Optgroup) == if ts[m - 1] == Optgroup then m - 1 else m
  {
    hide *;
    StackRooted(ns, s, inHead);
    LeftOwnOption(TagsOf(ns, s));
  }

  lemma TagsPrefix(ns: Nodes, s: seq<nat>, n: nat)
    requires n <= |s| && forall k :: 0 <= k < |s| ==> s[k] < |ns|
    ensures TagsOf(ns, s[..n]) == TagsOf(ns, s)[..n]
  {
  }

  /** What dom_start does with the attributes of html and body. */
  ghost predicate Adopted(ns: Nodes, attrs: seq<Attr>, pool: Bytes, e: nat, first: nat, mark: nat,
                          ns': Nodes, attrs': seq<Attr>, pool': Bytes)
    requires e < |ns| && first <= |attrs| && mark <= |pool|
  {
    if ns[e].b == 0 && first < |attrs| then
      ns' == ns[e := ns[e].(a := first, b := |attrs| - first)] && attrs' == attrs && pool' == pool
    else ns' == ns && attrs' == attrs[..first] && pool' == pool[..mark]
  }

  lemma AdoptedIs(ns: Nodes, attrs: seq<Attr>, pool: Bytes, e: nat, first: nat, mark: nat,
                  ns': Nodes, attrs': seq<Attr>, pool': Bytes)
    requires e < |ns| && first <= |attrs| && mark <= |pool|
    requires if ns[e].b == 0 && |attrs| - first > 0 then
               ns' == ns[e := ns[e].(a := first, b := |attrs| - first)] && attrs' == attrs && pool' == pool
             else ns' == ns && attrs' == attrs[..first] && pool' == pool[..mark]
    ensures Adopted(ns, attrs, pool, e, first, mark, ns', attrs', pool')
  {
  }

  lemma BasedAt(ns: Nodes)
    requires Based(ns)
    ensures |ns| >= 4 && ns[1].kind == Elem && ns[3].kind == Elem
  {
  }

  lemma DropStep(ns: Nodes, attrs: seq<Attr>, pool: Bytes, stk: seq<nat>, inHead: bool, first: nat, mark: nat)
    requires BuilderOk(ns, attrs, pool, stk, inHead, 0) && Above(ns, attrs, pool, first, mark)
    ensures first <= |attrs| && mark <= |pool|
    ensures BuilderOk(ns, attrs[..first], pool[..mark], stk, inHead, 0) && Kept(ns, pool, ns, pool[..mark])
  {
    hide ArenaOk, StackOk, Kept;
    Rewind(ns, attrs, pool, first, mark);
  }

  lemma AdoptStep(ns: Nodes, attrs: seq<Attr>, pool: Bytes, stk: seq<nat>, inHead: bool, e: nat, first: nat)
    requires BuilderOk(ns, attrs, pool, stk, inHead, 0) && e < |ns| && ns[e].kind == Elem
    requires first <= |attrs| && Owns(ns, Elem, first)
    ensures var r := ns[e := ns[e].(a := first, b := |attrs| - first)];
      BuilderOk(r, attrs, pool, stk, inHead, 0) && Kept(ns, pool, r, pool)
  {
    hide ArenaOk, StackOk, Kept, Owns;
    AdoptAttrs(ns, attrs, pool, e, first);
    var r := ns[e := ns[e].(a := first, b := |attrs| - first)];
    StackKept(ns, pool, r, pool, stk, inHead);
  }

  /** The current element is the head itself. */
  ghost predicate InHeadItself(ns: Nodes, stk: seq<nat>, inHead: bool) {
    inHead && |stk| > 0 && stk[|stk| - 1] < |ns| && ns[stk[|stk| - 1]].tag == Head
  }

  method AnyText(h: Bytes) returns (any: bool)
    ensures any == !AllWs(h)
  {
    for k := 0 to |h|
      invariant forall j :: 0 <= j < k ==> IsWs(h[j])
    {
      if !IsWs(h[k]) { return true; }
    }
    return false;
  }

  /** What dom_add_text does when the arenas do not fill up: blanks right in the head are
      dropped, anything else there opens the body, and the text goes to the end of the pool
      and of the text sink. */
  ghost function WithText(t: Tables, h: Bytes, decode: bool, a: Page): Page
    requires t.Bounded()
  {
    if InHeadItself(a.nodes, a.stk, a.inHead) && AllWs(h) then a else TextAdded(t, h, decode, HeadLeft(a))
  }

  ghost function HeadLeft(a: Page): Page {
    if InHeadItself(a.nodes, a.stk, a.inHead) then a.(stk := [1, 3], inHead := false) else a
  }

  ghost function TextAdded(t: Tables, h: Bytes, decode: bool, a: Page): Page
    requires t.Bounded()
  {
    if |a.stk| > 0 && forall k :: 0 <= k < |a.stk| ==> a.stk[k] < |a.nodes| then
      var text := TextOf(t, h, Skipped(h, a.skipLf), decode, AnyPre(TagsOf(a.nodes, a.stk)));
      var r := Sunken(a.nodes, a.txt, a.stk[|a.stk| - 1], |a.pool|, |text|);
      a.(nodes := r.0, txt := r.1, pool := a.pool + text, skipLf := false)
    else a
  }

  lemma TextAddedIs(t: Tables, h: Bytes, decode: bool, a: Page, b: Page)
    requires t.Bounded() && |a.stk| > 0 && forall k :: 0 <= k < |a.stk| ==> a.stk[k] < |a.nodes|
    requires var text := TextOf(t, h, Skipped(h, a.skipLf), decode, AnyPre(TagsOf(a.nodes, a.stk)));
      var r := Sunken(a.nodes, a.txt, a.stk[|a.stk| - 1], |a.pool|, |text|);
      b == a.(nodes := r.0, txt := r.1, pool := a.pool + text, skipLf := false)
    ensures b == TextAdded(t, h, decode, a)
  {
    hide Skipped, AnyPre, TagsOf, Sunken, TextOf;
  }

  lemma TextOnce(t: Tables, h: Bytes, i: nat, decode: bool, pre: bool)
    requires t.Bounded()
    ensures i >= |h| ==> TextOf(t, h, i, decode, pre) == ""
    ensures i < |h| ==>
      var r := CharAt(t, h, i, decode);
      TextOf(t, h, i, decode, pre) == Shown(t, r.1, pre) + TextOf(t, h, r.0, decode, pre)
  {
  }

  lemma Shift(a: Bytes, b: Bytes, c: Bytes, p: Bytes)
    ensures a + (b + c) == (a + b) + c && (p + a) + b == p + (a + b)
  {
  }

  // ---------- the steps on values ----------

  lemma PopStep(ns: Nodes, attrs: seq<Attr>, pool: Bytes, stk: seq<nat>, inHead: bool, txt: nat, n: nat)
    requires BuilderOk(ns, attrs, pool, stk, inHead, txt) && 2 <= n <= |stk|
    ensures BuilderOk(ns, attrs, pool, stk[..n], inHead, txt)
  {
    hide ArenaOk, StackOk, SinkOk;
    StackCut(ns, stk, inHead, n);
  }

  lemma EnterStep(ns: Nodes, attrs: seq<Attr>, pool: Bytes, stk: seq<nat>, inHead: bool, txt: nat)
    requires BuilderOk(ns, attrs, pool, stk, inHead, txt)
    ensures BuilderOk(ns, attrs, pool, [1, 3], false, txt)
  {
    hide ArenaOk, StackOk, SinkOk, Based;
    BuilderMeans(ns, attrs, pool, stk, inHead, txt);
    StackBody(ns);
  }

  lemma InsertStep(ns: Nodes, attrs: seq<Attr>, pool: Bytes, stk: seq<nat>, inHead: bool, txt: nat,
                   tag: Tag, a: nat, b: nat, push: bool)
    requires BuilderOk(ns, attrs, pool, stk, inHead, txt) && |ns| < 16384
    requires a + b <= |attrs| && (b > 0 ==> Owns(ns, Elem, a))
    ensures |stk| > 0 && stk[|stk| - 1] < |ns| && ns[stk[|stk| - 1]].last < |ns|
    ensures var r := DomTree.Append(ns, stk[|stk| - 1], Elem, tag, a, b);
      var s := if push && |stk| < 192 then stk + [|ns|] else stk;
      && BuilderOk(r, attrs, pool, s, inHead, txt) && Kept(ns, pool, r, pool) && |r| == |ns| + 1
      && Inserted(ns, stk, r, s, tag, a, b, |ns|, push)
  {
    hide *;
    BuilderMeans(ns, attrs, pool, stk, inHead, txt);
    var cur := stk[|stk| - 1];
    AddElem(ns, attrs, pool, cur, tag, a, b);
    var r := DomTree.Append(ns, cur, Elem, tag, a, b);
    AppendLast(ns, attrs, pool, cur, Elem, tag, a, b);
    StackKept(ns, pool, r, pool, stk, inHead);
    SinkKept(ns, pool, r, txt);
    if push && |stk| < 192 {
      StackPushed(r, stk, inHead, |ns|);
      InsertedIs(ns, stk, r, stk + [|ns|], tag, a, b, |ns|, push);
      BuilderIs(r, attrs, pool, stk + [|ns|], inHead, txt);
    } else {
      InsertedIs(ns, stk, r, stk, tag, a, b, |ns|, push);
      BuilderIs(r, attrs, pool, stk, inHead, txt);
    }
  }

  lemma AppendLast(ns: Nodes, attrs: seq<Attr>, pool: Bytes, p: nat, kind: Kind, tag: Tag, a: nat, b: nat)
    requires ArenaOk(ns, attrs, pool) && p < |ns|
    ensures ns[p].last < |ns|
    ensures var r := DomTree.Append(ns, p, kind, tag, a, b);
      && |r| == |ns| + 1 && r[|ns|] == Node(p, 0, 0, 0, a, b, kind, tag)
      && (forall i :: 0 <= i < |ns| ==> r[i].kind == ns[i].kind && r[i].a == ns[i].a && r[i].b == ns[i].b)
  {
    AppendKeeps(ns, p, kind, tag, a, b);
    hide TreeOk, DomTree.Append;
    var r := DomTree.Append(ns, p, kind, tag, a, b);
    assert forall i :: 0 <= i < |ns| ==> Same(ns[i], r[i]);
  }

  lemma AppendOwns(ns: Nodes, attrs: seq<Attr>, pool: Bytes, p: nat, tag: Tag, a: nat, limit: nat)
    requires ArenaOk(ns, attrs, pool) && p < |ns|
    ensures ns[p].last < |ns|
    ensures Owns(ns, Elem, limit) && a <= limit ==> Owns(DomTree.Append(ns, p, Elem, tag, a, 0), Elem, limit)
  {
    hide ArenaOk, DomTree.Append;
    AppendLast(ns, attrs, pool, p, Elem, tag, a, 0);
  }

  lemma NewTextStep(ns: Nodes, attrs: seq<Attr>, pool: Bytes, stk: seq<nat>, inHead: bool, c: char)
    requires BuilderOk(ns, attrs, pool, stk, inHead, 0) && |ns| < 16384 && |pool| + 8 < 0x4_0000
    ensures |stk| > 0 && stk[|stk| - 1] < |ns| && ns[stk[|stk| - 1]].last < |ns|
    ensures var r := DomTree.Append(ns, stk[|stk| - 1], Text, NoTag, |pool|, 1);
      && BuilderOk(r, attrs, pool + [c], stk, inHead, |ns|) && Kept(ns, pool, r, pool + [c])
      && Sunk(r, |ns|, pool + [c], 0, stk)
  {
    hide *;
    BuilderMeans(ns, attrs, pool, stk, inHead, 0);
    var cur := stk[|stk| - 1];
    AddText(ns, attrs, pool, cur, NoTag, c);
    AppendLast(ns, attrs, pool, cur, Text, NoTag, |pool|, 1);
    var r := DomTree.Append(ns, cur, Text, NoTag, |pool|, 1);
    StackKept(ns, pool, r, pool + [c], stk, inHead);
    SunkNow(r, |ns|, pool + [c], 0, stk);
    BuilderIs(r, attrs, pool + [c], stk, inHead, |ns|);
  }

  lemma SinkLast(ns: Nodes, attrs: seq<Attr>, pool: Bytes, stk: seq<nat>, inHead: bool, last: nat)
    requires BuilderOk(ns, attrs, pool, stk, inHead, 0)
    requires last < |ns| && ns[last].kind == Text && ns[last].a + ns[last].b == |pool|
    ensures BuilderOk(ns, attrs, pool, stk, inHead, last)
  {
    hide ArenaOk, StackOk;
  }

  lemma GrowStep(ns: Nodes, attrs: seq<Attr>, pool: Bytes, stk: seq<nat>, inHead: bool, txt: nat, c: char)
    requires BuilderOk(ns, attrs, pool, stk, inHead, txt) && txt != 0 && |pool| + 8 < 0x4_0000
    ensures txt < |ns| && ns[txt].kind == Text && ns[txt].a + ns[txt].b == |pool|
    ensures var r := ns[txt := ns[txt].(b := ns[txt].b + 1)];
      BuilderOk(r, attrs, pool + [c], stk, inHead, txt) && Kept(ns, pool, r, pool + [c])
  {
    hide *;
    BuilderMeans(ns, attrs, pool, stk, inHead, txt);
    SinkAt(ns, txt, pool);
    GrowText(ns, attrs, pool, txt, c);
    var r := ns[txt := ns[txt].(b := ns[txt].b + 1)];
    StackKept(ns, pool, r, pool + [c], stk, inHead);
    SinkIs(r, txt, pool + [c]);
    BuilderIs(r, attrs, pool + [c], stk, inHead, txt);
  }

  lemma SinkIs(ns: Nodes, txt: nat, pool: Bytes)
    requires txt < |ns| && ns[txt].kind == Text && ns[txt].a + ns[txt].b == |pool|
    ensures SinkOk(ns, txt, pool)
  {
  }

  /** The effect of dom_insert_elem when there is room for a node. */
  ghost predicate Inserted(ns: Nodes, stk: seq<nat>, ns': Nodes, stk': seq<nat>, tag: Tag, a: nat, b: nat, n: nat, push: bool) {
    && n == |ns| && |stk| > 0 && stk[|stk| - 1] < |ns| && ns[stk[|stk| - 1]].last < |ns|
    && ns' == DomTree.Append(ns, stk[|stk| - 1], Elem, tag, a, b)
    && stk' == if push && |stk| < STACK_MAX then stk + [n] else stk
  }

  lemma InsertedIs(ns: Nodes, stk: seq<nat>, ns': Nodes, stk': seq<nat>, tag: Tag, a: nat, b: nat, n: nat, push: bool)
    requires n == |ns| && |stk| > 0 && stk[|stk| - 1] < |ns| && ns[stk[|stk| - 1]].last < |ns|
    requires ns' == DomTree.Append(ns, stk[|stk| - 1], Elem, tag, a, b)
    requires stk' == if push && |stk| < 192 then stk + [n] else stk
    ensures Inserted(ns, stk, ns', stk', tag, a, b, n, push)
  {
    hide DomTree.Append;
  }

  /** The byte just stored is the last one of the sink, a text node under the current element. */
  ghost predicate Sunk(ns: Nodes, txt: nat, pool: Bytes, txt0: nat, stk: seq<nat>) {
    && 0 < txt < |ns| && ns[txt].kind == Text && ns[txt].a + ns[txt].b == |pool|
    && (txt0 == 0 ==> |stk| > 0 && ns[txt].parent == stk[|stk| - 1]) && (txt0 != 0 ==> txt == txt0)
  }

  lemma SunkNow(ns: Nodes, txt: nat, pool: Bytes, txt0: nat, stk: seq<nat>)
    requires 0 < txt < |ns| && ns[txt].kind == Text && ns[txt].a + ns[txt].b == |pool|
    requires (txt0 == 0 ==> |stk| > 0 && ns[txt].parent == stk[|stk| - 1]) && (txt0 != 0 ==> txt == txt0)
    ensures Sunk(ns, txt, pool, txt0, stk) && SinkOk(ns, txt, pool)
  {
  }

  lemma NotLonger(pool: Bytes, c: char)
    ensures pool != pool + [c]
  {
    assert |pool + [c]| == |pool| + 1;
  }

  lemma SinkKept(ns: Nodes, pool: Bytes, ns': Nodes, txt: nat)
    requires SinkOk(ns, txt, pool) && |ns| <= |ns'|
    requires forall i :: 0 <= i < |ns| ==> ns'[i].kind == ns[i].kind && ns'[i].a == ns[i].a && ns'[i].b == ns[i].b
    ensures SinkOk(ns', txt, pool)
  {
  }

  lemma SinkAt(ns: Nodes, txt: nat, pool: Bytes)
    requires txt != 0 && SinkOk(ns, txt, pool)
    ensures txt < |ns| && ns[txt].kind == Text && ns[txt].a + ns[txt].b == |pool|
  {
  }

  lemma StackPushed(ns: Nodes, stk: seq<nat>, inHead: bool, n: nat)
    requires StackOk(ns, stk, inHead) && |stk| < 192
    requires n < |ns| && |stk| > 0 && ns[n].kind == Elem && ns[n].parent == stk[|stk| - 1]
    ensures StackOk(ns, stk + [n], inHead)
  {
    StackPush(ns, stk, inHead, n);
  }

  lemma LastChild(ns: Nodes, attrs: seq<Attr>, pool: Bytes, p: nat)
    requires ArenaOk(ns, attrs, pool) && p < |ns|
    ensures ns[p].last < |ns| && (ns[p].last != 0 ==> ns[ns[p].last].parent == p)
  {
    assert EndsOk(ns, p);
  }

  lemma BaseAll(ns: Nodes, html: Node<Tag>, head: Node<Tag>)
    requires |ns| == 4 && Same(html, ns[1]) && Same(head, ns[2])
    requires html == Node(0, 0, 0, 0, 0, 0, Elem, Html) && head == Node(1, 0, 0, 0, 0, 0, Elem, Head)
    requires ns[3] == Node(1, 0, 0, 0, 0, 0, Elem, Body)
    ensures Based(ns)
  {
  }

  lemma FirstTree(ns: Nodes)
    requires ns == [Node(0, 0, 0, 0, 0, 0, Doc, NoTag)]
    ensures ArenaOk(ns, [], "")
  {
  }

  lemma BaseStep(ns: Nodes, p: nat, t: Tag)
    requires ArenaOk(ns, [], "") && p < |ns| && ns[p].kind != Text
    ensures ns[p].last < |ns|
    ensures var r := DomTree.Append(ns, p, Elem, t, 0, 0);
      && ArenaOk(r, [], "") && |r| == |ns| + 1 && r[|ns|] == Node(p, 0, 0, 0, 0, 0, Elem, t)
      && (forall i :: 0 <= i < |ns| ==> Same(ns[i], r[i]) && r[i].kind == ns[i].kind)
  {
    hide DomTree.Append;
    AppendKeeps(ns, p, Elem, t, 0, 0);
    AddElem(ns, [], "", p, t, 0, 0);
    var r := DomTree.Append(ns, p, Elem, t, 0, 0);
    assert forall i :: 0 <= i < |ns| ==> Same(ns[i], r[i]);
  }
}
