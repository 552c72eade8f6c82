/** The node tree of kernel/dom.h:120-128, 385-400 on values: nodes in one arena, linked by
    parent, first, last and next, where 0 means none. */
module DomTree {
  datatype Kind = Doc | Elem | Text

  /** rd_node_t.  For a text node a and b are its bytes in the pool, for an element its attributes. */
  datatype Node<T> = Node(parent: nat, first: nat, last: nat, next: nat, a: nat, b: nat, kind: Kind, tag: T)

  /** The parent of every node but the document stands before it and is not a text node. */
  ghost predicate ParentsOk<T>(ns: seq<Node<T>>) {
    && |ns| > 0 && ns[0].kind == Doc && ns[0].parent == 0 && ns[0].next == 0
    && forall i :: 1 <= i < |ns| ==> ParentOk(ns, i)
  }

  ghost predicate ParentOk<T>(ns: seq<Node<T>>, i: nat)
    requires i < |ns|
  {
    ns[i].parent < i && ns[ns[i].parent].kind != Text && ns[i].kind != Doc
  }

  ghost predicate IsChild<T>(ns: seq<Node<T>>, p: nat, c: nat) {
    1 <= c < |ns| && ns[c].parent == p
  }

  /** first and last are the lowest and the highest child. */
  ghost predicate EndsOk<T>(ns: seq<Node<T>>, p: nat)
    requires p < |ns|
  {
    && (ns[p].first == 0 <==> ns[p].last == 0)
    && (ns[p].first != 0 ==> IsChild(ns, p, ns[p].first) && IsChild(ns, p, ns[p].last))
    && forall c: nat :: IsChild(ns, p, c) ==> ns[p].first != 0 && ns[p].first <= c <= ns[p].last
  }

  /** next is the nearest later node with the same parent. */
  ghost predicate NextOk<T>(ns: seq<Node<T>>, i: nat)
    requires 1 <= i < |ns|
  {
    var p, n := ns[i].parent, ns[i].next;
    && (n != 0 ==> i < n && IsChild(ns, p, n))
    && forall c: nat :: IsChild(ns, p, c) && i < c ==> n != 0 && n <= c
  }

  ghost predicate TreeOk<T>(ns: seq<Node<T>>) {
    && ParentsOk(ns)
    && (forall p :: 0 <= p < |ns| ==> EndsOk(ns, p))
    && (forall i :: 1 <= i < |ns| ==> NextOk(ns, i))
  }

  /** dom_new_node and dom_append together: the new node becomes the last child of p. */
  function Append<T>(ns: seq<Node<T>>, p: nat, kind: Kind, tag: T, a: nat, b: nat): (r: seq<Node<T>>)
    requires p < |ns| && ns[p].last < |ns|
    ensures |r| == |ns| + 1
  {
    var c := |ns|;
    var grown := ns + [Node(p, 0, 0, 0, a, b, kind, tag)];
    var linked := if ns[p].last != 0 then grown[ns[p].last := grown[ns[p].last].(next := c)]
                  else grown[p := grown[p].(first := c)];
    linked[p := linked[p].(last := c)]
  }

  /** What appending leaves alone. */
  lemma AppendKeeps<T>(ns: seq<Node<T>>, p: nat, kind: Kind, tag: T, a: nat, b: nat)
    requires TreeOk(ns) && p < |ns|
    ensures ns[p].last < |ns|
    ensures var r := Append(ns, p, kind, tag, a, b);
      && r[|ns|] == Node(p, 0, 0, 0, a, b, kind, tag)
      && (forall i :: 0 <= i < |ns| ==> Same(ns[i], r[i]))
      && r[p].last == |ns| && r[p].first == (if ns[p].last == 0 then |ns| else ns[p].first)
      && (forall i :: 0 <= i < |ns| && i != p ==> r[i].first == ns[i].first && r[i].last == ns[i].last)
      && (forall i :: 0 <= i < |ns| ==> r[i].next == if i == ns[p].last && i != 0 then |ns| else ns[i].next)
  {
    assert EndsOk(ns, p);
  }

  /** Everything but the links down and across. */
  predicate Same<T(==)>(m: Node<T>, n: Node<T>) {
    m.parent == n.parent && m.a == n.a && m.b == n.b && m.kind == n.kind && m.tag == n.tag
  }

  lemma AppendChildren<T>(ns: seq<Node<T>>, p: nat, kind: Kind, tag: T, a: nat, b: nat, q: nat, c: nat)
    requires TreeOk(ns) && p < |ns|
    requires ns[p].last < |ns|
    ensures IsChild(Append(ns, p, kind, tag, a, b), q, c) <==> IsChild(ns, q, c) || (q == p && c == |ns|)
  {
    AppendKeeps(ns, p, kind, tag, a, b);
    hide TreeOk, Append;
    var r := Append(ns, p, kind, tag, a, b);
    if 0 <= c < |ns| {
      assert Same(ns[c], r[c]);
    }
  }

  lemma NoChildren<T>(ns: seq<Node<T>>)
    requires TreeOk(ns)
    ensures forall c: nat :: !IsChild(ns, |ns|, c)
  {
    forall c: nat ensures !IsChild(ns, |ns|, c) {
      if 1 <= c < |ns| { assert ParentOk(ns, c); }
    }
  }

  lemma AppendEnds<T>(ns: seq<Node<T>>, p: nat, kind: Kind, tag: T, a: nat, b: nat, q: nat)
    requires TreeOk(ns) && p < |ns| && q <= |ns|
    requires ns[p].last < |ns|
    ensures EndsOk(Append(ns, p, kind, tag, a, b), q)
  {
    AppendKeeps(ns, p, kind, tag, a, b);
    assert q < |ns| ==> EndsOk(ns, q);
    assert EndsOk(ns, p);
    var r := Append(ns, p, kind, tag, a, b);
    forall c: nat ensures IsChild(r, q, c) <==> IsChild(ns, q, c) || (q == p && c == |ns|) {
      AppendChildren(ns, p, kind, tag, a, b, q, c);
    }
    if q == |ns| {
      NoChildren(ns);
    }
    hide TreeOk, Append;
  }

  lemma AppendNext<T>(ns: seq<Node<T>>, p: nat, kind: Kind, tag: T, a: nat, b: nat, i: nat)
    requires TreeOk(ns) && p < |ns| && 1 <= i <= |ns|
    requires ns[p].last < |ns|
    ensures NextOk(Append(ns, p, kind, tag, a, b), i)
  {
    AppendKeeps(ns, p, kind, tag, a, b);
    var r := Append(ns, p, kind, tag, a, b);
    var q := r[i].parent;
    forall c: nat ensures IsChild(r, q, c) <==> IsChild(ns, q, c) || (q == p && c == |ns|) {
      AppendChildren(ns, p, kind, tag, a, b, q, c);
    }
    assert EndsOk(ns, p);
    if i < |ns| {
      assert NextOk(ns, i) && ParentOk(ns, i);
      assert EndsOk(ns, q);
      assert IsChild(ns, q, i);
    }
    hide TreeOk, Append;
  }

  /** Appending a node keeps the arena a tree. */
  lemma AppendTree<T>(ns: seq<Node<T>>, p: nat, kind: Kind, tag: T, a: nat, b: nat)
    requires TreeOk(ns) && p < |ns| && ns[p].kind != Text && kind != Doc
    ensures ns[p].last < |ns| && TreeOk(Append(ns, p, kind, tag, a, b))
  {
    AppendKeeps(ns, p, kind, tag, a, b);
    var r := Append(ns, p, kind, tag, a, b);
    forall i | 1 <= i < |r| ensures ParentOk(r, i) {
      if i < |ns| { assert ParentOk(ns, i); }
    }
    forall q | 0 <= q < |r| ensures EndsOk(r, q) {
      AppendEnds(ns, p, kind, tag, a, b, q);
    }
    forall i | 1 <= i < |r| ensures NextOk(r, i) {
      AppendNext(ns, p, kind, tag, a, b, i);
    }
  }

  /** The nodes met by following next from c on. */
  ghost function Chain<T>(ns: seq<Node<T>>, c: nat): seq<nat>
    requires TreeOk(ns) && c < |ns|
    decreases if c == 0 then 0 else |ns| - c
  {
    if c == 0 then []
    else
      assert NextOk(ns, c);
      [c] + Chain(ns, ns[c].next)
  }

  ghost predicate Increasing(s: seq<nat>) {
    forall i, j :: 0 <= i < j < |s| ==> s[i] < s[j]
  }

  lemma {:induction false} ChainFrom<T>(ns: seq<Node<T>>, p: nat, c: nat)
    requires TreeOk(ns) && IsChild(ns, p, c)
    ensures forall d: nat :: d in Chain(ns, c) <==> IsChild(ns, p, d) && c <= d
    ensures Increasing(Chain(ns, c))
    decreases |ns| - c
  {
    hide IsChild;
    ChainOnce(ns, p, c);
    var n := ns[c].next;
    if n != 0 {
      ChainFrom(ns, p, n);
      forall d: nat | IsChild(ns, p, d) && c < d ensures n <= d {}
      assert forall d: nat :: d in Chain(ns, c) <==> d == c || d in Chain(ns, n);
      assert forall i :: 0 <= i < |Chain(ns, n)| ==> Chain(ns, n)[i] in Chain(ns, n);
    }
  }

  lemma ChainOnce<T>(ns: seq<Node<T>>, p: nat, c: nat)
    requires TreeOk(ns) && IsChild(ns, p, c)
    ensures 1 <= c < |ns| && ns[c].next < |ns|
    ensures Chain(ns, c) == [c] + Chain(ns, ns[c].next) && Chain(ns, 0) == []
    ensures ns[c].next != 0 ==> c < ns[c].next && IsChild(ns, p, ns[c].next)
    ensures forall d: nat :: IsChild(ns, p, d) && c < d ==> ns[c].next != 0 && ns[c].next <= d
  {
    assert NextOk(ns, c);
  }

  /** first and next enumerate the children of every node, each exactly once and in order. */
  lemma ChildrenEnumerated<T>(ns: seq<Node<T>>, p: nat)
    requires TreeOk(ns) && p < |ns|
    ensures ns[p].first < |ns|
    ensures forall c: nat :: c in Chain(ns, ns[p].first) <==> IsChild(ns, p, c)
    ensures Increasing(Chain(ns, ns[p].first))
  {
    assert EndsOk(ns, p);
    if ns[p].first != 0 {
      ChainFrom(ns, p, ns[p].first);
    }
  }
}
