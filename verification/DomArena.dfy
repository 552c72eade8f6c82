/** The three arenas of kernel/dom.h together: nodes, attributes and the text pool, and the
    ownership of pool bytes by text nodes and attribute values. */
module DomArena {
  import opened DomTree
  import opened Scanning

  /** rd_attr_t. */
  datatype Attr = Attr(id: nat, vlen: nat, voff: nat)

  predicate Disjoint(a: nat, b: nat, c: nat, d: nat) {
    b == 0 || d == 0 || a + b <= c || c + d <= a
  }

  /** Nodes of one kind own slices below limit, and different nodes own different bytes. */
  ghost predicate Owns<T>(ns: seq<Node<T>>, kind: Kind, limit: nat) {
    && (forall i :: 0 <= i < |ns| && ns[i].kind == kind ==> ns[i].a + ns[i].b <= limit)
    && (forall i, j :: 0 <= i < j < |ns| && ns[i].kind == kind && ns[j].kind == kind ==>
          Disjoint(ns[i].a, ns[i].b, ns[j].a, ns[j].b))
  }

  ghost predicate ValuesBelow(attrs: seq<Attr>, limit: nat) {
    forall k :: 0 <= k < |attrs| ==> attrs[k].voff + attrs[k].vlen <= limit
  }

  /** No attribute value shares a byte with a text node. */
  ghost predicate Apart<T>(ns: seq<Node<T>>, attrs: seq<Attr>) {
    forall i, k :: 0 <= i < |ns| && 0 <= k < |attrs| && ns[i].kind == Text
      ==> Disjoint(ns[i].a, ns[i].b, attrs[k].voff, attrs[k].vlen)
  }

  ghost predicate TextNonempty<T>(ns: seq<Node<T>>) {
    forall i :: 0 <= i < |ns| && ns[i].kind == Text ==> ns[i].b > 0
  }

  /** Everything in the arenas that must hold between any two steps of the builder. */
  ghost predicate ArenaOk<T>(ns: seq<Node<T>>, attrs: seq<Attr>, pool: Bytes) {
    && TreeOk(ns) && TextNonempty(ns)
    && Owns(ns, Text, |pool|) && Owns(ns, Elem, |attrs|)
    && ValuesBelow(attrs, |pool|) && Apart(ns, attrs)
  }

  /** A tag that is being parsed has taken only what lies at or above these marks. */
  ghost predicate Above<T>(ns: seq<Node<T>>, attrs: seq<Attr>, pool: Bytes, first: nat, mark: nat) {
    && first <= |attrs| && mark <= |pool|
    && Owns(ns, Text, mark) && Owns(ns, Elem, first) && ValuesBelow(attrs[..first], mark)
  }

  /** What a step of the builder keeps: every node stays where it is, and the text of a text
      node can only grow. */
  ghost predicate Kept<T>(ns: seq<Node<T>>, pool: Bytes, ns': seq<Node<T>>, pool': Bytes) {
    && |ns| <= |ns'|
    && (forall i :: 0 <= i < |ns| ==> KeptNode(ns[i], ns'[i]))
    && (forall i :: 0 <= i < |ns| && ns[i].kind == Text && ns[i].a + ns[i].b <= |pool| ==> KeptText(ns[i], pool, ns'[i], pool'))
  }

  predicate KeptNode<T(==)>(m: Node<T>, n: Node<T>) {
    n.parent == m.parent && n.kind == m.kind && n.tag == m.tag && (m.first != 0 ==> n.first == m.first) && m.last <= n.last
  }

  ghost predicate KeptText<T>(m: Node<T>, pool: Bytes, n: Node<T>, pool': Bytes)
    requires m.a + m.b <= |pool|
  {
    m.a == n.a && m.b <= n.b && n.a + n.b <= |pool'| && pool'[m.a..m.a + m.b] == pool[m.a..m.a + m.b]
  }

  lemma KeptNothing<T>(ns: seq<Node<T>>, pool: Bytes)
    ensures Kept(ns, pool, ns, pool)
  {
  }

  lemma KeptTwice<T>(ns: seq<Node<T>>, pool: Bytes, ns1: seq<Node<T>>, pool1: Bytes, ns2: seq<Node<T>>, pool2: Bytes)
    requires Kept(ns, pool, ns1, pool1) && Kept(ns1, pool1, ns2, pool2)
    ensures Kept(ns, pool, ns2, pool2)
  {
    forall i | 0 <= i < |ns| ensures KeptNode(ns[i], ns2[i]) {
      assert KeptNode(ns[i], ns1[i]) && KeptNode(ns1[i], ns2[i]);
    }
    forall i | 0 <= i < |ns| && ns[i].kind == Text && ns[i].a + ns[i].b <= |pool|
      ensures KeptText(ns[i], pool, ns2[i], pool2)
    {
      assert KeptNode(ns[i], ns1[i]);
      TextTwice(ns[i], pool, ns1[i], pool1, ns2[i], pool2);
    }
  }

  lemma TextTwice<T>(l: Node<T>, pool: Bytes, m: Node<T>, pool1: Bytes, n: Node<T>, pool2: Bytes)
    requires l.a + l.b <= |pool| && KeptText(l, pool, m, pool1) && KeptText(m, pool1, n, pool2)
    ensures KeptText(l, pool, n, pool2)
  {
    assert pool1[m.a..m.a + m.b][..l.b] == pool1[l.a..l.a + l.b];
    assert pool2[m.a..m.a + m.b][..l.b] == pool2[l.a..l.a + l.b];
  }

  // ---------- the steps ----------

  /** A new element with the attributes attrs[a..a + b], as dom_insert_elem makes it. */
  lemma AddElem<T>(ns: seq<Node<T>>, attrs: seq<Attr>, pool: Bytes, p: nat, tag: T, a: nat, b: nat)
    requires ArenaOk(ns, attrs, pool) && p < |ns| && ns[p].kind != Text
    requires a + b <= |attrs| && (b > 0 ==> Owns(ns, Elem, a))
    ensures ns[p].last < |ns|
    ensures var r := Append(ns, p, Elem, tag, a, b); ArenaOk(r, attrs, pool) && Kept(ns, pool, r, pool)
  {
    AppendTree(ns, p, Elem, tag, a, b);
    AppendKeeps(ns, p, Elem, tag, a, b);
    var r := Append(ns, p, Elem, tag, a, b);
    hide TreeOk, Append;
    assert forall i :: 0 <= i < |ns| ==> Same(ns[i], r[i]);
    assert r[|ns|].kind == Elem;
    AppendLinks(ns, r, p);
  }

  lemma AppendLinks<T>(ns: seq<Node<T>>, r: seq<Node<T>>, p: nat)
    requires p < |ns| && |r| == |ns| + 1 && TreeOk(ns)
    requires forall i :: 0 <= i < |ns| ==> Same(ns[i], r[i])
    requires r[p].last == |ns| && r[p].first == (if ns[p].last == 0 then |ns| else ns[p].first)
    requires forall i :: 0 <= i < |ns| && i != p ==> r[i].first == ns[i].first && r[i].last == ns[i].last
    ensures forall i :: 0 <= i < |ns| ==> KeptNode(ns[i], r[i])
  {
    forall i | 0 <= i < |ns| ensures KeptNode(ns[i], r[i]) {
      assert Same(ns[i], r[i]);
      assert EndsOk(ns, i);
    }
  }

  /** A new text node holding the byte c, which goes to the end of the pool. */
  lemma AddText<T>(ns: seq<Node<T>>, attrs: seq<Attr>, pool: Bytes, p: nat, tag: T, c: char)
    requires ArenaOk(ns, attrs, pool) && p < |ns| && ns[p].kind != Text
    ensures ns[p].last < |ns|
    ensures var r := Append(ns, p, Text, tag, |pool|, 1); ArenaOk(r, attrs, pool + [c]) && Kept(ns, pool, r, pool + [c])
  {
    AppendTree(ns, p, Text, tag, |pool|, 1);
    AppendKeeps(ns, p, Text, tag, |pool|, 1);
    var r := Append(ns, p, Text, tag, |pool|, 1);
    hide TreeOk, Append;
    assert forall i :: 0 <= i < |ns| ==> Same(ns[i], r[i]);
    AppendLinks(ns, r, p);
  }

  /** Changing what a node owns does not touch the tree. */
  lemma OwnTree<T>(ns: seq<Node<T>>, t: nat, a: nat, b: nat)
    requires TreeOk(ns) && t < |ns|
    ensures TreeOk(ns[t := ns[t].(a := a, b := b)])
  {
    var r := ns[t := ns[t].(a := a, b := b)];
    assert forall p: nat, c: nat :: IsChild(r, p, c) <==> IsChild(ns, p, c);
    forall i | 1 <= i < |r| ensures ParentOk(r, i) {
      assert ParentOk(ns, i);
    }
    forall p | 0 <= p < |r| ensures EndsOk(r, p) {
      assert EndsOk(ns, p);
    }
    forall i | 1 <= i < |r| ensures NextOk(r, i) {
      assert NextOk(ns, i);
    }
  }

  /** The byte c goes to the end of the pool and onto the text node that ends there. */
  lemma GrowText<T>(ns: seq<Node<T>>, attrs: seq<Attr>, pool: Bytes, t: nat, c: char)
    requires ArenaOk(ns, attrs, pool) && t < |ns| && ns[t].kind == Text && ns[t].a + ns[t].b == |pool|
    ensures var r := ns[t := ns[t].(b := ns[t].b + 1)]; ArenaOk(r, attrs, pool + [c]) && Kept(ns, pool, r, pool + [c])
  {
    OwnTree(ns, t, ns[t].a, ns[t].b + 1);
    hide TreeOk;
  }

  /** An element that had no attributes takes those that lie at the end (html and body). */
  lemma AdoptAttrs<T>(ns: seq<Node<T>>, attrs: seq<Attr>, pool: Bytes, e: nat, first: nat)
    requires ArenaOk(ns, attrs, pool) && e < |ns| && ns[e].kind == Elem && first <= |attrs| && Owns(ns, Elem, first)
    ensures var r := ns[e := ns[e].(a := first, b := |attrs| - first)];
      ArenaOk(r, attrs, pool) && Kept(ns, pool, r, pool)
  {
    OwnTree(ns, e, first, |attrs| - first);
    hide TreeOk;
  }

  /** A dropped tag gives its attributes and their values back. */
  lemma Rewind<T>(ns: seq<Node<T>>, attrs: seq<Attr>, pool: Bytes, first: nat, mark: nat)
    requires ArenaOk(ns, attrs, pool) && Above(ns, attrs, pool, first, mark)
    ensures ArenaOk(ns, attrs[..first], pool[..mark]) && Kept(ns, pool, ns, pool[..mark])
  {
    hide TreeOk;
  }

  /** Bytes behind the owned part of the pool, and a value that owns them. */
  lemma AddValue<T>(ns: seq<Node<T>>, attrs: seq<Attr>, pool: Bytes, more: Bytes, id: nat, vlen: nat)
    requires ArenaOk(ns, attrs, pool) && vlen <= |more|
    ensures ArenaOk(ns, attrs + [Attr(id, vlen, |pool|)], pool + more) && Kept(ns, pool, ns, pool + more)
  {
    hide TreeOk;
  }

  lemma AboveNow<T>(ns: seq<Node<T>>, attrs: seq<Attr>, pool: Bytes)
    requires ArenaOk(ns, attrs, pool)
    ensures Above(ns, attrs, pool, |attrs|, |pool|)
  {
    assert attrs[..|attrs|] == attrs;
  }

  lemma AboveStays<T>(ns: seq<Node<T>>, attrs: seq<Attr>, pool: Bytes, first: nat, mark: nat, more: seq<Attr>, bytes: Bytes)
    requires Above(ns, attrs, pool, first, mark)
    ensures Above(ns, attrs + more, pool + bytes, first, mark)
  {
    assert (attrs + more)[..first] == attrs[..first];
  }
}
