/** kernel/css.h:125-147, 939-1038: selectors against the document tree.  Attribute texts
    and the hash of names are parameters. */
module CssMatch {
  import opened Options
  import opened DomTree
  import ModArith
  import opened Scanning

  datatype Name = Id | Class | Href | Checked | Selected | Disabled

  const TG_A := 2
  const TG_AREA := 5
  const HTML_NODE := 1

  /** The document a rule is matched against. */
  datatype Document = Document(nodes: seq<Node<nat>>, attr: (nat, Name) -> Option<string>,
                               test: (nat, nat) -> bool, hash: string -> nat)
  {
    /** css_hash never answers 0. */
    ghost predicate Valid() {
      TreeOk(nodes) && forall s: string :: hash(s) > 0
    }
  }

  /** The pseudo-classes of a compound. */
  datatype Pseudo = Pseudo(first: bool, last: bool, only: bool, root: bool, empty: bool, link: bool, checked: bool,
                           disabled: bool, nth: bool, negated: bool)

  /** css_comp_t; 0 stands for no tag, no id and no attribute test. */
  datatype Comp = Comp(tag: nat, idHash: nat, cls: seq<nat>, attrTest: nat, ps: Pseudo, nthA: int, nthB: int,
                       negKind: nat, negVal: nat, comb: char)

  // ---------- classes ----------

  function SkipWs(s: string, i: nat): (j: nat)
    requires i <= |s|
    ensures i <= j <= |s| && (j < |s| ==> !IsWs(s[j]))
    decreases |s| - i
  {
    if i < |s| && IsWs(s[i]) then SkipWs(s, i + 1) else i
  }

  function WordEnd(s: string, i: nat): (j: nat)
    requires i <= |s|
    ensures i <= j <= |s| && (i < |s| && !IsWs(s[i]) ==> i < j)
    decreases |s| - i
  {
    if i < |s| && !IsWs(s[i]) then WordEnd(s, i + 1) else i
  }

  /** The words of a class attribute. */
  function Words(s: string, i: nat): seq<string>
    requires i <= |s|
    decreases |s| - i
  {
    var st := SkipWs(s, i);
    if st == |s| then [] else [s[st..WordEnd(s, st)]] + Words(s, WordEnd(s, st))
  }

  /** s[a..b] is a word: no blank in it, and none missing on either side. */
  predicate IsWord(s: string, a: nat, b: nat) {
    && a < b <= |s| && (forall k :: a <= k < b ==> !IsWs(s[k]))
    && (a == 0 || IsWs(s[a - 1])) && (b == |s| || IsWs(s[b]))
  }

  ghost predicate WordFrom(s: string, i: nat, w: string) {
    exists a: nat, b: nat :: i <= a && IsWord(s, a, b) && w == s[a..b]
  }

  /** The words are exactly the longest stretches without a blank. */
  lemma {:induction false} WordsAre(s: string, i: nat, w: string)
    requires i <= |s| && (i == 0 || i == |s| || IsWs(s[i - 1]) || IsWs(s[i]))
    ensures w in Words(s, i) <==> WordFrom(s, i, w)
    decreases |s| - i
  {
    var st := SkipWs(s, i);
    if WordFrom(s, i, w) {
      var a: nat, b: nat :| i <= a && IsWord(s, a, b) && w == s[a..b];
      NotSkipped(s, i, a);
    }
    if st < |s| {
      var e := WordEnd(s, st);
      WordEndIs(s, st);
      WordsAre(s, e, w);
      FirstWord(s, i);
      if WordFrom(s, i, w) {
        var a: nat, b: nat :| i <= a && IsWord(s, a, b) && w == s[a..b];
        OneWord(s, i, a, b);
      }
      assert Words(s, i) == [s[st..e]] + Words(s, e);
    }
  }

  /** What is not blank is not skipped. */
  lemma {:induction false} NotSkipped(s: string, i: nat, k: nat)
    requires i <= k < |s| && !IsWs(s[k])
    ensures SkipWs(s, i) <= k
    decreases |s| - i
  {
    if IsWs(s[i]) { NotSkipped(s, i + 1, k); }
  }

  lemma {:induction false} BlankBefore(s: string, i: nat)
    requires i <= |s|
    ensures SkipWs(s, i) == i || IsWs(s[SkipWs(s, i) - 1])
    decreases |s| - i
  {
    if i < |s| && IsWs(s[i]) { BlankBefore(s, i + 1); }
  }

  lemma {:induction false} WordEndIs(s: string, i: nat)
    requires i <= |s|
    ensures forall k :: i <= k < WordEnd(s, i) ==> !IsWs(s[k])
    ensures WordEnd(s, i) < |s| ==> IsWs(s[WordEnd(s, i)])
    decreases |s| - i
  {
    if i < |s| && !IsWs(s[i]) { WordEndIs(s, i + 1); }
  }

  lemma {:induction false} EndsAt(s: string, i: nat, k: nat)
    requires i <= k <= |s| && (forall j :: i <= j < k ==> !IsWs(s[j])) && (k == |s| || IsWs(s[k]))
    ensures WordEnd(s, i) == k
    decreases k - i
  {
    if i < k { EndsAt(s, i + 1, k); }
  }

  lemma {:induction false} EndsBy(s: string, i: nat, k: nat)
    requires i <= k < |s| && IsWs(s[k])
    ensures WordEnd(s, i) <= k
    decreases k - i
  {
    if i < k { EndsBy(s, i + 1, k); }
  }

  lemma FirstWord(s: string, i: nat)
    requires i <= |s| && (i == 0 || i == |s| || IsWs(s[i - 1]) || IsWs(s[i])) && SkipWs(s, i) < |s|
    ensures var st := SkipWs(s, i); IsWord(s, st, WordEnd(s, st))
  {
    BlankBefore(s, i);
    WordEndIs(s, SkipWs(s, i));
  }

  lemma OneWord(s: string, i: nat, a: nat, b: nat)
    requires i <= a && IsWord(s, a, b)
    ensures var st := SkipWs(s, i); (a == st && b == WordEnd(s, st)) || a >= WordEnd(s, st)
  {
    var st := SkipWs(s, i);
    NotSkipped(s, i, a);
    if a == st {
      EndsAt(s, a, b);
    } else {
      EndsBy(s, st, a - 1);
    }
  }

  function ClassWords(doc: Document, node: nat): seq<string> {
    var v := doc.attr(node, Class);
    if v.Some? then Words(v.value, 0) else []
  }

  ghost predicate HasClass(doc: Document, node: nat, h: nat) {
    exists w :: w in ClassWords(doc, node) && doc.hash(w) == h
  }

  /** The scan for the next word, as css_has_class and css_compute do it. */
  method NextWord(s: string, i0: nat) returns (st: nat, i: nat)
    requires i0 <= |s|
    ensures st == SkipWs(s, i0) && i == WordEnd(s, st) && st <= i <= |s|
  {
    i := i0;
    while i < |s| && IsWs(s[i])
      invariant i0 <= i <= |s| && SkipWs(s, i) == SkipWs(s, i0)
    {
      i := i + 1;
    }
    st := i;
    while i < |s| && !IsWs(s[i])
      invariant st <= i <= |s| && WordEnd(s, i) == WordEnd(s, st)
    {
      i := i + 1;
    }
  }

  /** kernel/css.h css_has_class. */
  method FindClass(doc: Document, node: nat, h: nat) returns (found: bool)
    ensures found == HasClass(doc, node, h)
  {
    var v := doc.attr(node, Class);
    if v.None? { return false; }
    var s, i := v.value, 0;
    ghost var seen: seq<string> := [];
    while i < |s|
      invariant i <= |s| && ClassWords(doc, node) == seen + Words(s, i)
      invariant forall w :: w in seen ==> doc.hash(w) != h
    {
      var st, e := NextWord(s, i);
      if e > st {
        var w := s[st..e];
        if doc.hash(w) == h {
          assert ClassWords(doc, node)[|seen|] == w;
          return true;
        }
        seen := seen + [w];
      }
      i := e;
    }
    assert seen + [] == seen;
    return false;
  }

  // ---------- elements around an element ----------

  /** css_parent_elem. */
  function ParentElem(ns: seq<Node<nat>>, node: nat): (p: nat)
    requires TreeOk(ns) && node < |ns|
    ensures p < |ns| && (p != 0 ==> p < node)
  {
    assert node > 0 ==> ParentOk(ns, node);
    var p := ns[node].parent;
    if p != 0 && ns[p].kind == Elem then p else 0
  }

  predicate ElemChild(ns: seq<Node<nat>>, p: nat, c: nat)
  {
    1 <= c < |ns| && ns[c].parent == p && ns[c].kind == Elem
  }

  /** The nearest element child of p before c, or 0. */
  function ElemBefore(ns: seq<Node<nat>>, p: nat, c: nat): (r: nat)
    ensures r != 0 ==> r < c && ElemChild(ns, p, r)
    ensures forall d :: r < d < c ==> !ElemChild(ns, p, d)
  {
    if c == 0 then 0 else if ElemChild(ns, p, c - 1) then c - 1 else ElemBefore(ns, p, c - 1)
  }

  /** The element sibling before node, or 0. */
  function PrevElem(ns: seq<Node<nat>>, node: nat): (r: nat)
    requires node < |ns|
    ensures r < |ns| && (r != 0 ==> r < node)
  {
    if ns[node].parent == 0 then 0 else ElemBefore(ns, ns[node].parent, node)
  }

  /** kernel/css.h css_prev_elem: along the links from the first child. */
  method FindPrev(ns: seq<Node<nat>>, node: nat) returns (prev: nat)
    requires TreeOk(ns) && node < |ns|
    ensures prev == PrevElem(ns, node)
  {
    hide TreeOk;
    var p := ns[node].parent;
    if p == 0 { return 0; }
    NodeLinks(ns, node);
    prev := 0;
    var c := ns[p].first;
    FirstGap(ns, p);
    while c != 0 && c != node
      invariant c <= node && c != 0 && IsChild(ns, p, c)
      invariant prev == ElemBefore(ns, p, c)
      decreases node - c
    {
      NextGap(ns, p, c, node);
      BeforeStep(ns, p, c, ns[c].next);
      if ns[c].kind == Elem { prev := c; }
      c := ns[c].next;
    }
  }

  lemma NodeLinks(ns: seq<Node<nat>>, node: nat)
    requires TreeOk(ns) && node < |ns| && ns[node].parent != 0
    ensures var p := ns[node].parent;
      && 1 <= node && p < node && IsChild(ns, p, node) && IsChild(ns, p, ns[p].first) && ns[p].first <= node
  {
    assert ParentOk(ns, node);
    assert EndsOk(ns, ns[node].parent);
    assert IsChild(ns, ns[node].parent, node);
  }

  lemma {:induction false} NoneBefore(ns: seq<Node<nat>>, p: nat, c: nat)
    requires forall d: nat :: IsChild(ns, p, d) ==> c <= d
    ensures ElemBefore(ns, p, c) == 0
  {
    if c > 0 {
      assert !IsChild(ns, p, c - 1);
      NoneBefore(ns, p, c - 1);
    }
  }

  lemma FirstGap(ns: seq<Node<nat>>, p: nat)
    requires TreeOk(ns) && p < |ns| && ns[p].first != 0
    ensures ElemBefore(ns, p, ns[p].first) == 0
  {
    assert EndsOk(ns, p);
    NoneBefore(ns, p, ns[p].first);
  }

  lemma NextGap(ns: seq<Node<nat>>, p: nat, c: nat, node: nat)
    requires TreeOk(ns) && IsChild(ns, p, c) && IsChild(ns, p, node) && c < node
    ensures ns[c].next != 0 && c < ns[c].next <= node && IsChild(ns, p, ns[c].next)
    ensures forall d: nat :: c < d < ns[c].next ==> !IsChild(ns, p, d)
  {
    assert NextOk(ns, c);
  }

  lemma {:induction false} BeforeStep(ns: seq<Node<nat>>, p: nat, c: nat, n: nat)
    requires c < n && IsChild(ns, p, c) && forall d: nat :: c < d < n ==> !IsChild(ns, p, d)
    ensures ElemBefore(ns, p, n) == if ns[c].kind == Elem then c else ElemBefore(ns, p, c)
    decreases n
  {
    if c < n - 1 {
      assert !IsChild(ns, p, n - 1);
      BeforeStep(ns, p, c, n - 1);
    }
  }

  // ---------- counting siblings ----------

  /** How many element children of p stand before c. */
  function CountBefore(ns: seq<Node<nat>>, p: nat, c: nat): nat {
    if c == 0 then 0 else CountBefore(ns, p, c - 1) + if ElemChild(ns, p, c - 1) then 1 else 0
  }

  /** The element children of p before c. */
  ghost function Before(ns: seq<Node<nat>>, p: nat, c: nat): set<nat> {
    set d: nat | d < c && ElemChild(ns, p, d)
  }

  lemma {:induction false} CountIs(ns: seq<Node<nat>>, p: nat, c: nat)
    ensures CountBefore(ns, p, c) == |Before(ns, p, c)|
  {
    if c > 0 {
      CountIs(ns, p, c - 1);
      var here := if ElemChild(ns, p, c - 1) then {c - 1} else {};
      assert Before(ns, p, c) == Before(ns, p, c - 1) + here;
    }
  }

  /** The position of an element among the element children of its parent, from 1. */
  function Position(ns: seq<Node<nat>>, node: nat): nat
    requires node < |ns|
  {
    CountBefore(ns, ns[node].parent, node + 1)
  }

  function Total(ns: seq<Node<nat>>, node: nat): nat
    requires node < |ns|
  {
    CountBefore(ns, ns[node].parent, |ns|)
  }

  lemma {:induction false} CountGap(ns: seq<Node<nat>>, p: nat, c: nat, n: nat)
    requires c <= n && forall d: nat :: c <= d < n ==> !IsChild(ns, p, d)
    ensures CountBefore(ns, p, n) == CountBefore(ns, p, c)
    decreases n
  {
    if c < n {
      assert !IsChild(ns, p, n - 1);
      CountGap(ns, p, c, n - 1);
    }
  }

  /** The sibling loop of css_comp_ok. */
  method CountSiblings(ns: seq<Node<nat>>, node: nat) returns (pos: nat, total: nat)
    requires TreeOk(ns) && 1 <= node < |ns| && ns[node].kind == Elem
    ensures pos == Position(ns, node) && total == Total(ns, node) && 1 <= pos <= total
  {
    hide TreeOk;
    var p := ns[node].parent;
    OwnLinks(ns, node);
    pos, total := 0, 0;
    var ch := ns[p].first;
    CountGap(ns, p, 0, ch);
    while ch != 0
      invariant ch != 0 ==> IsChild(ns, p, ch) && total == CountBefore(ns, p, ch)
      invariant ch == 0 ==> total == CountBefore(ns, p, |ns|)
      invariant pos == (if ch != 0 && ch <= node then 0 else CountBefore(ns, p, node + 1)) && pos <= total
      decreases if ch == 0 then 0 else |ns| - ch
    {
      NextAfter(ns, p, ch);
      if ns[ch].kind == Elem {
        total := total + 1;
        if ch == node { pos := total; }
      }
      CountGap(ns, p, ch + 1, if ns[ch].next == 0 then |ns| else ns[ch].next);
      NodeNotSkipped(ns, p, ch, node);
      ch := ns[ch].next;
    }
  }

  lemma OwnLinks(ns: seq<Node<nat>>, node: nat)
    requires TreeOk(ns) && 1 <= node < |ns|
    ensures var p := ns[node].parent;
      && p < |ns| && IsChild(ns, p, node) && IsChild(ns, p, ns[p].first) && ns[p].first <= node
      && forall d: nat :: d < ns[p].first ==> !IsChild(ns, p, d)
  {
    assert ParentOk(ns, node);
    assert EndsOk(ns, ns[node].parent);
    assert IsChild(ns, ns[node].parent, node);
  }

  lemma NextAfter(ns: seq<Node<nat>>, p: nat, c: nat)
    requires TreeOk(ns) && IsChild(ns, p, c)
    ensures var n := ns[c].next;
      && (n != 0 ==> c < n && IsChild(ns, p, n))
      && forall d: nat :: c < d < (if n == 0 then |ns| else n) ==> !IsChild(ns, p, d)
  {
    assert NextOk(ns, c);
  }

  lemma NodeNotSkipped(ns: seq<Node<nat>>, p: nat, c: nat, node: nat)
    requires TreeOk(ns) && IsChild(ns, p, c) && IsChild(ns, p, node)
    ensures c < node ==> ns[c].next != 0 && ns[c].next <= node
  {
    assert NextOk(ns, c);
  }

  // ---------- :nth-child(an+b) ----------

  function Abs(x: int): nat {
    if x >= 0 then x else -x
  }

  /** Division as C does it, toward zero. */
  function CDiv(x: int, y: int): int
    requires y != 0
  {
    if (x >= 0) == (y >= 0) then Abs(x) / Abs(y) else -(Abs(x) / Abs(y))
  }

  function CMod(x: int, y: int): int
    requires y != 0
  {
    x - y * CDiv(x, y)
  }

  /** The test of css_comp_ok. */
  predicate NthOk(a: int, b: int, pos: int) {
    if a == 0 then pos == b else CMod(pos - b, a) == 0 && CDiv(pos - b, a) >= 0
  }

  lemma DivExact(n: nat, k: nat)
    requires n > 0
    ensures n * k >= 0 && (n * k) / n == k
  {
    ModArith.DivModUnique(n * k, n, k, 0);
  }

  lemma QuotientOf(k: nat, a: int)
    requires a != 0
    ensures CDiv(a * k, a) == k
  {
    var n := Abs(a);
    DivExact(n, k);
    if a > 0 {
      assert a * k == n * k;
    } else {
      assert a * k == -(n * k);
    }
  }

  /** It holds exactly of the positions a*k + b with a natural number k. */
  lemma NthMeans(a: int, b: int, pos: int)
    ensures NthOk(a, b, pos) <==> exists k: nat :: pos == a * k + b
  {
    if a == 0 {
      if pos == b { assert pos == a * 0 + b; }
    } else {
      if NthOk(a, b, pos) {
        var q: nat := CDiv(pos - b, a);
        assert pos == a * q + b;
      }
      if k: nat :| pos == a * k + b {
        QuotientOf(k, a);
        assert pos - b == a * k;
      }
    }
  }

  // ---------- one compound ----------

  ghost predicate Negated(doc: Document, node: nat, c: Comp)
    requires node < |doc.nodes|
  {
    || (c.negKind == 1 && doc.nodes[node].tag == c.negVal)
    || (c.negKind == 2 && HasClass(doc, node, c.negVal))
    || (c.negKind == 3 && IdIs(doc, node, c.negVal))
  }

  predicate IdIs(doc: Document, node: nat, h: nat) {
    doc.attr(node, Id).Some? && doc.hash(doc.attr(node, Id).value) == h
  }

  predicate Has(doc: Document, node: nat, name: Name) {
    doc.attr(node, name).Some?
  }

  /** The pseudo-classes that do not look at siblings. */
  predicate StatesOk(doc: Document, node: nat, c: Comp)
    requires node < |doc.nodes|
  {
    var n := doc.nodes[node];
    && (c.ps.root ==> node == HTML_NODE)
    && (c.ps.empty ==> n.first == 0)
    && (c.ps.link ==> (n.tag == TG_A || n.tag == TG_AREA) && Has(doc, node, Href))
    && (c.ps.checked ==> Has(doc, node, Checked) || Has(doc, node, Selected))
    && (c.ps.disabled ==> Has(doc, node, Disabled))
  }

  predicate PlaceOk(ns: seq<Node<nat>>, node: nat, c: Comp)
    requires node < |ns|
  {
    var pos, total := Position(ns, node), Total(ns, node);
    && (c.ps.first ==> pos == 1) && (c.ps.last ==> pos == total) && (c.ps.only ==> total == 1)
    && (c.ps.nth ==> NthOk(c.nthA, c.nthB, pos))
  }

  /** What a compound asks of an element. */
  ghost predicate CompOk(doc: Document, node: nat, c: Comp)
    requires node < |doc.nodes|
  {
    && doc.nodes[node].kind == Elem
    && (c.tag != 0 ==> doc.nodes[node].tag == c.tag)
    && (c.idHash != 0 ==> IdIs(doc, node, c.idHash))
    && (forall i :: 0 <= i < |c.cls| ==> HasClass(doc, node, c.cls[i]))
    && (c.attrTest != 0 ==> doc.test(node, c.attrTest))
    && StatesOk(doc, node, c) && PlaceOk(doc.nodes, node, c)
    && (c.ps.negated ==> !Negated(doc, node, c))
  }

  /** kernel/css.h css_comp_ok. */
  method CompMatches(doc: Document, node: nat, c: Comp) returns (ok: bool)
    requires doc.Valid() && node < |doc.nodes|
    ensures ok == CompOk(doc, node, c)
  {
    hide TreeOk, HasClass, Position, Total, NthOk, StatesOk;
    var n := doc.nodes[node];
    if n.kind != Elem { return false; }
    if c.tag != 0 && n.tag != c.tag { return false; }
    if c.idHash != 0 && !IdIs(doc, node, c.idHash) { return false; }
    for i := 0 to |c.cls|
      invariant forall j :: 0 <= j < i ==> HasClass(doc, node, c.cls[j])
    {
      var has := FindClass(doc, node, c.cls[i]);
      if !has { return false; }
    }
    if c.attrTest != 0 && !doc.test(node, c.attrTest) { return false; }
    if !StatesOk(doc, node, c) { return false; }
    if c.ps.first || c.ps.last || c.ps.only || c.ps.nth {
      ElemNotDocument(doc.nodes, node);
      var pos, total := CountSiblings(doc.nodes, node);
      if c.ps.first && pos != 1 { return false; }
      if c.ps.last && pos != total { return false; }
      if c.ps.only && total != 1 { return false; }
      if c.ps.nth && !NthOk(c.nthA, c.nthB, pos) { return false; }
    }
    if c.ps.negated {
      var hit := false;
      if c.negKind == 1 {
        hit := n.tag == c.negVal;
      } else if c.negKind == 2 {
        hit := FindClass(doc, node, c.negVal);
      } else if c.negKind == 3 {
        hit := IdIs(doc, node, c.negVal);
      }
      if hit { return false; }
    }
    ok := true;
  }

  lemma ElemNotDocument(ns: seq<Node<nat>>, node: nat)
    requires TreeOk(ns) && node < |ns| && ns[node].kind == Elem
    ensures node >= 1
  {
  }

  // ---------- a whole selector ----------

  /** p is an ancestor element of node. */
  predicate Ancestor(ns: seq<Node<nat>>, p: nat, node: nat)
    requires TreeOk(ns) && node < |ns|
  {
    var q := ParentElem(ns, node);
    q != 0 && (p == q || Ancestor(ns, p, q))
  }

  /** p is an earlier element sibling of node. */
  predicate Earlier(ns: seq<Node<nat>>, p: nat, node: nat)
    requires node < |ns|
  {
    var q := PrevElem(ns, node);
    q != 0 && (p == q || Earlier(ns, p, q))
  }

  /** The earlier siblings are the element children of the same parent before it; the children of
      the document itself have none. */
  lemma {:induction false} EarlierMeans(ns: seq<Node<nat>>, p: nat, node: nat)
    requires node < |ns|
    ensures Earlier(ns, p, node) <==> ns[node].parent != 0 && p < node && ElemChild(ns, ns[node].parent, p)
    decreases node
  {
    var q := PrevElem(ns, node);
    if q != 0 { EarlierMeans(ns, p, q); }
  }

  /** up leads from node to its parent, and on, through elements only. */
  predicate Climbs(ns: seq<Node<nat>>, node: nat, up: seq<nat>)
    requires node < |ns|
    decreases |up|
  {
    |up| > 0 ==>
      up[0] == ns[node].parent && 0 < up[0] < |ns| && ns[up[0]].kind == Elem && Climbs(ns, up[0], up[1..])
  }

  ghost predicate Reaches(ns: seq<Node<nat>>, node: nat, p: nat)
    requires node < |ns|
  {
    exists up: seq<nat> :: |up| > 0 && up[|up| - 1] == p && Climbs(ns, node, up)
  }

  /** An ancestor is what some way up along the parents ends in. */
  lemma {:induction false} AncestorMeans(ns: seq<Node<nat>>, p: nat, node: nat)
    requires TreeOk(ns) && node < |ns|
    ensures Ancestor(ns, p, node) <==> Reaches(ns, node, p)
    decreases node
  {
    hide TreeOk;
    var q := ParentElem(ns, node);
    if q != 0 {
      AncestorMeans(ns, p, q);
      if p == q {
        assert Climbs(ns, q, []) && Climbs(ns, node, [q]);
      } else if Ancestor(ns, p, q) {
        var up: seq<nat> :| |up| > 0 && up[|up| - 1] == p && Climbs(ns, q, up);
        assert ([q] + up)[1..] == up && Climbs(ns, node, [q] + up);
      }
    }
    if Reaches(ns, node, p) {
      var up: seq<nat> :| |up| > 0 && up[|up| - 1] == p && Climbs(ns, node, up);
      if |up| > 1 { assert up[1..][|up| - 2] == p && Climbs(ns, q, up[1..]); }
    }
  }

  /** The combinator comb relates p on its left to node on its right. */
  predicate Linked(ns: seq<Node<nat>>, p: nat, node: nat, comb: char)
    requires TreeOk(ns) && node < |ns|
  {
    if comb == '>' then p != 0 && p == ParentElem(ns, node)
    else if comb == ' ' then Ancestor(ns, p, node)
    else if comb == '+' then p != 0 && p == PrevElem(ns, node)
    else if comb == '~' then Earlier(ns, p, node)
    else false
  }

  /** es is a chain of elements, one for each compound, related by the combinators. */
  ghost predicate IsChain(doc: Document, es: seq<nat>, comps: seq<Comp>)
    requires doc.Valid()
  {
    && |es| == |comps|
    && (forall k :: 0 <= k < |es| ==> es[k] < |doc.nodes| && CompOk(doc, es[k], comps[k]))
    && (forall k :: 1 <= k < |es| ==> LinkedAt(doc, es, comps, k))
  }

  ghost predicate LinkedAt(doc: Document, es: seq<nat>, comps: seq<Comp>, k: nat)
    requires doc.Valid() && 1 <= k < |es| == |comps| && es[k] < |doc.nodes|
  {
    Linked(doc.nodes, es[k - 1], es[k], comps[k].comb)
  }

  /** The selector comps accepts node: some chain of elements ends in it. */
  ghost predicate Accepts(doc: Document, node: nat, comps: seq<Comp>)
    requires doc.Valid()
  {
    exists es :: |es| > 0 && es[|es| - 1] == node && IsChain(doc, es, comps)
  }

  /** Some element that the combinator comb relates to node is accepted by comps. */
  ghost predicate LeftAccepts(doc: Document, node: nat, comps: seq<Comp>, comb: char)
    requires doc.Valid() && node < |doc.nodes|
  {
    exists p :: Linked(doc.nodes, p, node, comb) && Accepts(doc, p, comps)
  }

  lemma ChainPrefix(doc: Document, es: seq<nat>, comps: seq<Comp>)
    requires doc.Valid() && IsChain(doc, es, comps) && |es| > 1
    ensures var n := |es| - 1;
      && IsChain(doc, es[..n], comps[..n]) && es[n] < |doc.nodes| && CompOk(doc, es[n], comps[n])
      && Linked(doc.nodes, es[n - 1], es[n], comps[n].comb)
  {
    hide CompOk, TreeOk, Linked;
    var n := |es| - 1;
    assert LinkedAt(doc, es, comps, n);
    forall k | 1 <= k < n ensures LinkedAt(doc, es[..n], comps[..n], k) {
      assert LinkedAt(doc, es, comps, k);
    }
  }

  lemma ChainExtended(doc: Document, fs: seq<nat>, node: nat, comps: seq<Comp>)
    requires doc.Valid() && |comps| == |fs| + 1 && |fs| > 0 && IsChain(doc, fs, comps[..|fs|])
    requires node < |doc.nodes| && CompOk(doc, node, comps[|fs|]) && Linked(doc.nodes, fs[|fs| - 1], node, comps[|fs|].comb)
    ensures IsChain(doc, fs + [node], comps)
  {
    hide CompOk, TreeOk, Linked;
    var n := |fs|;
    var es := fs + [node];
    forall k | 0 <= k < |es| ensures es[k] < |doc.nodes| && CompOk(doc, es[k], comps[k]) {
      if k < n { assert CompOk(doc, fs[k], comps[..n][k]); }
    }
    forall k | 1 <= k < |es| ensures LinkedAt(doc, es, comps, k) {
      if k < n { assert LinkedAt(doc, fs, comps[..n], k); }
    }
  }

  lemma AcceptsOne(doc: Document, node: nat, comps: seq<Comp>)
    requires doc.Valid() && node < |doc.nodes| && |comps| == 1
    ensures Accepts(doc, node, comps) <==> CompOk(doc, node, comps[0])
  {
    hide CompOk, TreeOk;
    if CompOk(doc, node, comps[0]) {
      assert IsChain(doc, [node], comps);
    }
    if Accepts(doc, node, comps) {
      var es :| |es| > 0 && es[|es| - 1] == node && IsChain(doc, es, comps);
      assert CompOk(doc, es[0], comps[0]);
    }
  }

  /** Acceptance, one compound at a time from the right. */
  lemma AcceptsStep(doc: Document, node: nat, comps: seq<Comp>)
    requires doc.Valid() && node < |doc.nodes| && |comps| > 1
    ensures var n := |comps| - 1;
      Accepts(doc, node, comps) <==>
        CompOk(doc, node, comps[n]) && LeftAccepts(doc, node, comps[..n], comps[n].comb)
  {
    hide CompOk, TreeOk, Linked, IsChain;
    var n := |comps| - 1;
    if Accepts(doc, node, comps) {
      var es :| |es| > 0 && es[|es| - 1] == node && IsChain(doc, es, comps);
      ChainSize(doc, es, comps);
      ChainPrefix(doc, es, comps);
      assert Accepts(doc, es[n - 1], comps[..n]) by {
        assert es[..n][|es[..n]| - 1] == es[n - 1];
      }
    }
    if CompOk(doc, node, comps[n]) && LeftAccepts(doc, node, comps[..n], comps[n].comb) {
      var p :| Linked(doc.nodes, p, node, comps[n].comb) && Accepts(doc, p, comps[..n]);
      var fs :| |fs| > 0 && fs[|fs| - 1] == p && IsChain(doc, fs, comps[..n]);
      ChainSize(doc, fs, comps[..n]);
      ChainExtended(doc, fs, node, comps);
      assert (fs + [node])[|fs + [node]| - 1] == node;
    }
  }

  /** An accepted element satisfies the last compound. */
  lemma AcceptsLast(doc: Document, node: nat, comps: seq<Comp>)
    requires doc.Valid() && Accepts(doc, node, comps)
    ensures |comps| > 0 && node < |doc.nodes| && CompOk(doc, node, comps[|comps| - 1])
  {
    hide CompOk, TreeOk, LinkedAt;
    var es :| |es| > 0 && es[|es| - 1] == node && IsChain(doc, es, comps);
    assert CompOk(doc, es[|es| - 1], comps[|es| - 1]);
  }

  lemma ChainSize(doc: Document, es: seq<nat>, comps: seq<Comp>)
    requires doc.Valid() && IsChain(doc, es, comps)
    ensures |es| == |comps|
  {
  }

  /** Accepted by an ancestor, or by an earlier sibling, as the loops of css_match_from search. */
  ghost predicate SomeAncestor(doc: Document, node: nat, comps: seq<Comp>)
    requires doc.Valid() && node < |doc.nodes|
  {
    exists p :: Ancestor(doc.nodes, p, node) && Accepts(doc, p, comps)
  }

  ghost predicate SomeEarlier(doc: Document, node: nat, comps: seq<Comp>)
    requires doc.Valid() && node < |doc.nodes|
  {
    exists p :: Earlier(doc.nodes, p, node) && Accepts(doc, p, comps)
  }

  lemma AncestorStep(doc: Document, node: nat, comps: seq<Comp>)
    requires doc.Valid() && node < |doc.nodes|
    ensures var q := ParentElem(doc.nodes, node);
      SomeAncestor(doc, node, comps) <==> q != 0 && (Accepts(doc, q, comps) || SomeAncestor(doc, q, comps))
  {
    hide TreeOk, Accepts, ParentElem;
    var q := ParentElem(doc.nodes, node);
    if q != 0 && Accepts(doc, q, comps) {
      assert Ancestor(doc.nodes, q, node);
    }
    if q != 0 && SomeAncestor(doc, q, comps) {
      var p :| Ancestor(doc.nodes, p, q) && Accepts(doc, p, comps);
      assert Ancestor(doc.nodes, p, node);
    }
  }

  lemma EarlierStep(doc: Document, node: nat, comps: seq<Comp>)
    requires doc.Valid() && node < |doc.nodes|
    ensures var q := PrevElem(doc.nodes, node);
      SomeEarlier(doc, node, comps) <==> q != 0 && (Accepts(doc, q, comps) || SomeEarlier(doc, q, comps))
  {
    hide TreeOk, Accepts, PrevElem;
    var q := PrevElem(doc.nodes, node);
    if q != 0 && Accepts(doc, q, comps) {
      assert Earlier(doc.nodes, q, node);
    }
    if q != 0 && SomeEarlier(doc, q, comps) {
      var p :| Earlier(doc.nodes, p, q) && Accepts(doc, p, comps);
      assert Earlier(doc.nodes, p, node);
    }
  }

  lemma LeftCases(doc: Document, node: nat, comps: seq<Comp>, comb: char)
    requires doc.Valid() && node < |doc.nodes|
    ensures comb == '>' ==> (LeftAccepts(doc, node, comps, comb) <==>
      ParentElem(doc.nodes, node) != 0 && Accepts(doc, ParentElem(doc.nodes, node), comps))
    ensures comb == '+' ==> (LeftAccepts(doc, node, comps, comb) <==>
      PrevElem(doc.nodes, node) != 0 && Accepts(doc, PrevElem(doc.nodes, node), comps))
    ensures comb == ' ' ==> (LeftAccepts(doc, node, comps, comb) <==> SomeAncestor(doc, node, comps))
    ensures comb == '~' ==> (LeftAccepts(doc, node, comps, comb) <==> SomeEarlier(doc, node, comps))
    ensures comb != '>' && comb != ' ' && comb != '+' && comb != '~' ==> !LeftAccepts(doc, node, comps, comb)
  {
    hide TreeOk, Accepts, ParentElem, PrevElem, Ancestor, Earlier;
    if comb == '>' {
      var q := ParentElem(doc.nodes, node);
      if q != 0 { assert Linked(doc.nodes, q, node, comb); }
    } else if comb == '+' {
      var q := PrevElem(doc.nodes, node);
      if q != 0 { assert Linked(doc.nodes, q, node, comb); }
    } else if comb == ' ' {
      assert forall p :: Linked(doc.nodes, p, node, comb) == Ancestor(doc.nodes, p, node);
    } else if comb == '~' {
      assert forall p :: Linked(doc.nodes, p, node, comb) == Earlier(doc.nodes, p, node);
    }
  }

  /** kernel/css.h css_match_from: it accepts exactly when some chain of elements satisfies
      every compound and every combinator. */
  method MatchFrom(doc: Document, node: nat, comps: seq<Comp>, idx: nat) returns (ok: bool)
    requires doc.Valid() && node < |doc.nodes| && idx < |comps|
    ensures ok <==> Accepts(doc, node, comps[..idx + 1])
    decreases idx
  {
    hide *;
    TreeKnown(doc);
    ghost var all := comps[..idx + 1];
    assert all[..idx] == comps[..idx] && all[idx] == comps[idx];
    if idx == 0 { AcceptsOne(doc, node, all); } else { AcceptsStep(doc, node, all); }
    var here := CompMatches(doc, node, comps[idx]);
    if !here { return false; }
    if idx == 0 { return true; }
    var comb := comps[idx].comb;
    ghost var left := comps[..idx];
    LeftCases(doc, node, left, comb);
    if comb == '>' {
      var p := ParentElem(doc.nodes, node);
      if p == 0 { return false; }
      ok := MatchFrom(doc, p, comps, idx - 1);
    } else if comb == ' ' {
      ok := MatchAncestor(doc, node, comps, idx);
    } else if comb == '+' {
      var p := FindPrev(doc.nodes, node);
      if p == 0 { return false; }
      PrevBelow(doc.nodes, node);
      ok := MatchFrom(doc, p, comps, idx - 1);
    } else if comb == '~' {
      ok := MatchEarlier(doc, node, comps, idx);
    } else {
      ok := false;
    }
  }

  lemma TreeKnown(doc: Document)
    requires doc.Valid()
    ensures TreeOk(doc.nodes)
  {
  }

  lemma PrevBelow(ns: seq<Node<nat>>, node: nat)
    requires node < |ns|
    ensures PrevElem(ns, node) < |ns|
  {
  }

  /** The loop for the descendant combinator. */
  method MatchAncestor(doc: Document, node: nat, comps: seq<Comp>, idx: nat) returns (ok: bool)
    requires doc.Valid() && node < |doc.nodes| && 1 <= idx < |comps|
    ensures ok <==> SomeAncestor(doc, node, comps[..idx])
    decreases idx, 0
  {
    hide *;
    TreeKnown(doc);
    AncestorStep(doc, node, comps[..idx]);
    var p: nat := ParentElem(doc.nodes, node);
    while p != 0
      invariant p < |doc.nodes|
      invariant SomeAncestor(doc, node, comps[..idx]) <==>
        p != 0 && (Accepts(doc, p, comps[..idx]) || SomeAncestor(doc, p, comps[..idx]))
      decreases p
    {
      var here := MatchFrom(doc, p, comps, idx - 1);
      if here { return true; }
      AncestorStep(doc, p, comps[..idx]);
      p := ParentElem(doc.nodes, p);
    }
    return false;
  }

  /** The loop for the subsequent-sibling combinator. */
  method MatchEarlier(doc: Document, node: nat, comps: seq<Comp>, idx: nat) returns (ok: bool)
    requires doc.Valid() && node < |doc.nodes| && 1 <= idx < |comps|
    ensures ok <==> SomeEarlier(doc, node, comps[..idx])
    decreases idx, 0
  {
    hide *;
    TreeKnown(doc);
    EarlierStep(doc, node, comps[..idx]);
    var p: nat := FindPrev(doc.nodes, node);
    PrevBelow(doc.nodes, node);
    while p != 0
      invariant p < |doc.nodes|
      invariant SomeEarlier(doc, node, comps[..idx]) <==>
        p != 0 && (Accepts(doc, p, comps[..idx]) || SomeEarlier(doc, p, comps[..idx]))
      decreases p
    {
      var here := MatchFrom(doc, p, comps, idx - 1);
      if here { return true; }
      EarlierStep(doc, p, comps[..idx]);
      PrevBelow(doc.nodes, p);
      p := FindPrev(doc.nodes, p);
    }
    return false;
  }
}
