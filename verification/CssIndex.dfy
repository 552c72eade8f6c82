/** kernel/css.h:140-155, 508-515, 672-681, 1578-1611: the rule index by id, class and tag,
    the collection of the rules for an element, and their order. */
module CssIndex {
  import opened DomTree
  import opened CssMatch

  const NIL := 0xFFFF
  const RULE_MAX := 3072
  const BUCKETS := 256
  const MAX_MATCH := 192

  /** css_rule_t, with its compounds in place of their range in the table. */
  datatype Rule = Rule(comps: seq<Comp>, spec: nat, order: nat, next: nat)

  /** The bucket of a rule, by the last compound of its selector. */
  datatype Key = ById(b: nat) | ByClass(b: nat) | ByTag(t: nat) | Universal

  function KeyOf(c: Comp): Key {
    if c.idHash != 0 then ById(c.idHash % BUCKETS)
    else if |c.cls| > 0 then ByClass(c.cls[0] % BUCKETS)
    else if c.tag != 0 then ByTag(c.tag)
    else Universal
  }

  function RuleKey(r: Rule): Key
    requires |r.comps| > 0
  {
    KeyOf(r.comps[|r.comps| - 1])
  }

  predicate WellFormed(rules: seq<Rule>, tags: nat) {
    |rules| <= RULE_MAX && forall i :: 0 <= i < |rules| ==> |rules[i].comps| > 0 && TagBelow(rules[i], tags)
  }

  predicate TagBelow(r: Rule, tags: nat) {
    |r.comps| > 0 && r.comps[|r.comps| - 1].tag < tags
  }

  // ---------- chains ----------

  /** The rules met from head on; every link goes to an earlier rule. */
  function RuleChain(rules: seq<Rule>, head: nat): seq<nat>
    decreases head
  {
    if head >= |rules| then []
    else [head] + if rules[head].next < head then RuleChain(rules, rules[head].next) else []
  }

  /** The first n rules with the given key, latest first. */
  function Members(rules: seq<Rule>, n: nat, key: Key): seq<nat>
    requires n <= |rules| && forall i :: 0 <= i < |rules| ==> |rules[i].comps| > 0
  {
    if n == 0 then []
    else (if RuleKey(rules[n - 1]) == key then [n - 1] else []) + Members(rules, n - 1, key)
  }

  /** The chain from head holds exactly the first n rules of the bucket. */
  ghost predicate FiledAt(rules: seq<Rule>, n: nat, head: nat, key: Key) {
    && n <= |rules| <= RULE_MAX && (forall i :: 0 <= i < |rules| ==> |rules[i].comps| > 0)
    && (head == NIL || head < n)
    && (forall i :: 0 <= i < n ==> rules[i].next == NIL || rules[i].next < i)
    && RuleChain(rules, head) == Members(rules, n, key)
  }

  lemma {:induction false} ChainSame(rules: seq<Rule>, ri: nat, next: nat, head: nat)
    requires ri < |rules| <= RULE_MAX && (head == NIL || head < ri)
    requires forall i :: 0 <= i < ri ==> rules[i].next == NIL || rules[i].next < i
    ensures RuleChain(rules[ri := rules[ri].(next := next)], head) == RuleChain(rules, head)
    decreases head
  {
    if head < |rules| && rules[head].next < head {
      ChainSame(rules, ri, next, rules[head].next);
    }
  }

  lemma {:induction false} MembersSame(rules: seq<Rule>, ri: nat, next: nat, n: nat, key: Key)
    requires ri < |rules| && n <= |rules| && forall i :: 0 <= i < |rules| ==> |rules[i].comps| > 0
    ensures Members(rules[ri := rules[ri].(next := next)], n, key) == Members(rules, n, key)
  {
    if n > 0 {
      MembersSame(rules, ri, next, n - 1, key);
    }
  }

  lemma {:induction false} MembersAre(rules: seq<Rule>, n: nat, key: Key, r: nat)
    requires n <= |rules| && forall i :: 0 <= i < |rules| ==> |rules[i].comps| > 0
    ensures r in Members(rules, n, key) <==> r < n && RuleKey(rules[r]) == key
  {
    hide RuleKey;
    if n > 0 {
      MembersAre(rules, n - 1, key, r);
    }
  }

  /** Filing rule ri leaves the other buckets alone. */
  lemma FileOther(rules: seq<Rule>, ri: nat, next: nat, head: nat, key: Key)
    requires ri < |rules| && FiledAt(rules, ri, head, key) && RuleKey(rules[ri]) != key
    requires next == NIL || next < ri
    ensures FiledAt(rules[ri := rules[ri].(next := next)], ri + 1, head, key)
  {
    hide RuleKey, RuleChain, Members;
    ChainSame(rules, ri, next, head);
    MembersSame(rules, ri, next, ri, key);
    KeySame(rules[ri], next);
    MembersOther(rules[ri := rules[ri].(next := next)], ri, key);
  }

  lemma MembersOther(rules: seq<Rule>, ri: nat, key: Key)
    requires ri < |rules| && (forall i :: 0 <= i < |rules| ==> |rules[i].comps| > 0) && RuleKey(rules[ri]) != key
    ensures Members(rules, ri + 1, key) == Members(rules, ri, key)
  {
    hide RuleKey;
    assert [] + Members(rules, ri, key) == Members(rules, ri, key);
  }

  lemma KeySame(r: Rule, next: nat)
    requires |r.comps| > 0
    ensures RuleKey(r.(next := next)) == RuleKey(r)
  {
  }

  /** It becomes the head of its own bucket. */
  lemma FileOwn(rules: seq<Rule>, ri: nat, head: nat, key: Key)
    requires ri < |rules| && FiledAt(rules, ri, head, key) && RuleKey(rules[ri]) == key
    ensures FiledAt(rules[ri := rules[ri].(next := head)], ri + 1, ri, key)
  {
    hide RuleKey;
    ChainSame(rules, ri, head, head);
    MembersSame(rules, ri, head, ri, key);
    KeySame(rules[ri], head);
    var r := rules[ri := rules[ri].(next := head)];
    if head == NIL {
      assert RuleChain(rules, head) == [];
    }
    assert RuleChain(r, ri) == [ri] + RuleChain(rules, head);
  }

  // ---------- the rules an element accepts ----------

  ghost predicate Accepted(doc: Document, node: nat, rules: seq<Rule>, r: nat)
    requires doc.Valid()
  {
    r < |rules| && |rules[r].comps| > 0 && Accepts(doc, node, rules[r].comps)
  }

  /** The accepted rules of a chain, in its order. */
  ghost function Picked(doc: Document, node: nat, rules: seq<Rule>, chain: seq<nat>): seq<nat>
    requires doc.Valid()
  {
    if |chain| == 0 then []
    else (if Accepted(doc, node, rules, chain[0]) then [chain[0]] else []) + Picked(doc, node, rules, chain[1..])
  }

  lemma {:induction false} PickedAre(doc: Document, node: nat, rules: seq<Rule>, chain: seq<nat>, r: nat)
    requires doc.Valid()
    ensures r in Picked(doc, node, rules, chain) <==> r in chain && Accepted(doc, node, rules, r)
    decreases |chain|
  {
    hide Accepted;
    if |chain| > 0 {
      PickedAre(doc, node, rules, chain[1..], r);
      assert r in chain <==> r == chain[0] || r in chain[1..];
    }
  }

  lemma {:induction false} PickedPlus(doc: Document, node: nat, rules: seq<Rule>, a: seq<nat>, b: seq<nat>)
    requires doc.Valid()
    ensures Picked(doc, node, rules, a + b) == Picked(doc, node, rules, a) + Picked(doc, node, rules, b)
    decreases |a|
  {
    hide Accepted;
    if |a| == 0 {
      assert a + b == b;
    } else {
      PickedPlus(doc, node, rules, a[1..], b);
      assert (a + b)[0] == a[0] && (a + b)[1..] == a[1..] + b;
    }
  }

  lemma PickedOne(doc: Document, node: nat, rules: seq<Rule>, r: nat)
    requires doc.Valid()
    ensures Picked(doc, node, rules, [r]) == if Accepted(doc, node, rules, r) then [r] else []
  {
    hide Accepted;
    assert [r][1..] == [];
  }

  /** The match list has room for so many. */
  function First(s: seq<nat>): (r: seq<nat>)
    ensures |r| <= MAX_MATCH && forall i :: 0 <= i < |r| ==> r[i] in s
  {
    if |s| <= MAX_MATCH then s else s[..MAX_MATCH]
  }

  /** The list was full when there was still a rule to look at: all but the last of the rules
      visited have already filled it. */
  ghost predicate Spills(doc: Document, node: nat, rules: seq<Rule>, visited: seq<nat>)
    requires doc.Valid()
  {
    |visited| > 0 && |Picked(doc, node, rules, visited[..|visited| - 1])| >= MAX_MATCH
  }

  /** The match list and the overflow mark after visiting these rules; was is the mark before. */
  ghost predicate Listed(doc: Document, node: nat, rules: seq<Rule>, visited: seq<nat>, found: seq<nat>,
                         was: bool, now: bool)
    requires doc.Valid()
  {
    found == First(Picked(doc, node, rules, visited)) && (now <==> was || Spills(doc, node, rules, visited))
  }

  lemma ListedNone(doc: Document, node: nat, rules: seq<Rule>, was: bool)
    requires doc.Valid()
    ensures Listed(doc, node, rules, [], [], was, was)
  {
    hide TreeOk;
  }

  /** One more rule while there is room. */
  lemma ListedNext(doc: Document, node: nat, rules: seq<Rule>, visited: seq<nat>, r: nat, found: seq<nat>,
                   was: bool, now: bool)
    requires doc.Valid() && Listed(doc, node, rules, visited, found, was, now) && |found| < MAX_MATCH
    ensures var more := if Accepted(doc, node, rules, r) then found + [r] else found;
      Listed(doc, node, rules, visited + [r], more, was, now)
  {
    hide Accepted, Picked, TreeOk;
    PickedPlus(doc, node, rules, visited, [r]);
    PickedOne(doc, node, rules, r);
    assert (visited + [r])[..|visited + [r]| - 1] == visited;
    if |visited| > 0 { Fuller(doc, node, rules, visited); }
  }

  lemma Fuller(doc: Document, node: nat, rules: seq<Rule>, visited: seq<nat>)
    requires doc.Valid() && |visited| > 0
    ensures var n := |visited| - 1;
      var before, all := |Picked(doc, node, rules, visited[..n])|, |Picked(doc, node, rules, visited)|;
      before <= all <= before + 1
  {
    hide Accepted, Picked, TreeOk;
    var n := |visited| - 1;
    assert visited == visited[..n] + [visited[n]];
    PickedPlus(doc, node, rules, visited[..n], [visited[n]]);
    PickedOne(doc, node, rules, visited[n]);
  }

  /** More rules when there is none: they are not looked at, and the mark is set. */
  lemma ListedStop(doc: Document, node: nat, rules: seq<Rule>, visited: seq<nat>, rest: seq<nat>, found: seq<nat>,
                   was: bool, now: bool)
    requires doc.Valid() && Listed(doc, node, rules, visited, found, was, now) && |found| >= MAX_MATCH && |rest| > 0
    ensures Listed(doc, node, rules, visited + rest, found, was, true)
  {
    hide Accepted, Picked, TreeOk;
    var n := |rest| - 1;
    PickedPlus(doc, node, rules, visited, rest);
    PickedPlus(doc, node, rules, visited, rest[..n]);
    assert (visited + rest)[..|visited + rest| - 1] == visited + rest[..n];
  }

  /** The rules of these buckets, one bucket after the other. */
  function Bucketed(rules: seq<Rule>, n: nat, keys: seq<Key>): seq<nat>
    requires n <= |rules| && forall i :: 0 <= i < |rules| ==> |rules[i].comps| > 0
  {
    if |keys| == 0 then [] else Bucketed(rules, n, keys[..|keys| - 1]) + Members(rules, n, keys[|keys| - 1])
  }

  lemma BucketedMore(rules: seq<Rule>, n: nat, keys: seq<Key>, key: Key)
    requires n <= |rules| && forall i :: 0 <= i < |rules| ==> |rules[i].comps| > 0
    ensures Bucketed(rules, n, keys + [key]) == Bucketed(rules, n, keys) + Members(rules, n, key)
  {
    hide Members;
    assert (keys + [key])[..|keys|] == keys;
  }

  lemma {:induction false} BucketedAre(rules: seq<Rule>, n: nat, keys: seq<Key>, r: nat)
    requires n <= |rules| && forall i :: 0 <= i < |rules| ==> |rules[i].comps| > 0
    ensures r in Bucketed(rules, n, keys) <==> r < n && RuleKey(rules[r]) in keys
    decreases |keys|
  {
    hide RuleKey, Members;
    if |keys| > 0 {
      var last := |keys| - 1;
      BucketedAre(rules, n, keys[..last], r);
      MembersAre(rules, n, keys[last], r);
      assert keys == keys[..last] + [keys[last]];
    }
  }

  /** The buckets that css_compute looks into for an element. */
  ghost predicate Visited(doc: Document, node: nat, key: Key)
    requires node < |doc.nodes|
  {
    match key
    case Universal => true
    case ByTag(t) => t == doc.nodes[node].tag
    case ByClass(b) => exists w :: w in ClassWords(doc, node) && doc.hash(w) % BUCKETS == b
    case ById(b) => doc.attr(node, Id).Some? && doc.hash(doc.attr(node, Id).value) % BUCKETS == b
  }

  function ClassKey(doc: Document, w: string): Key {
    ByClass(doc.hash(w) % BUCKETS)
  }

  function ClassKeys(doc: Document, words: seq<string>): (r: seq<Key>)
    ensures |r| == |words|
  {
    seq(|words|, i requires 0 <= i < |words| => ClassKey(doc, words[i]))
  }

  /** The same buckets in the order in which they are looked into. */
  function KeysOf(doc: Document, node: nat): seq<Key>
    requires node < |doc.nodes|
  {
    [Universal, ByTag(doc.nodes[node].tag)] + ClassKeys(doc, ClassWords(doc, node))
    + (var v := doc.attr(node, Id); if v.Some? then [ById(doc.hash(v.value) % BUCKETS)] else [])
  }

  lemma KeysVisited(doc: Document, node: nat, key: Key)
    requires node < |doc.nodes|
    ensures key in KeysOf(doc, node) <==> Visited(doc, node, key)
  {
    hide ClassWords;
    var words := ClassWords(doc, node);
    var cs := ClassKeys(doc, words);
    assert key in cs <==> key.ByClass? && exists w :: w in words && doc.hash(w) % BUCKETS == key.b by {
      if key in cs {
        var i :| 0 <= i < |cs| && cs[i] == key;
        assert words[i] in words;
      }
      if key.ByClass? && exists w :: w in words && doc.hash(w) % BUCKETS == key.b {
        var w :| w in words && doc.hash(w) % BUCKETS == key.b;
        var i :| 0 <= i < |words| && words[i] == w;
        assert cs[i] == key;
      }
    }
  }

  /** All the rules in the buckets of an element, in the order in which they are looked at. */
  function VisitedRules(doc: Document, node: nat, rules: seq<Rule>): seq<nat>
    requires node < |doc.nodes| && forall i :: 0 <= i < |rules| ==> |rules[i].comps| > 0
  {
    Bucketed(rules, |rules|, KeysOf(doc, node))
  }

  /** The list agrees with a scan of the whole table: everything on it is accepted; and unless
      it was full before the last rule was looked at, everything accepted is on it. */
  lemma ListAgrees(doc: Document, node: nat, rules: seq<Rule>)
    requires doc.Valid() && node < |doc.nodes| && forall i :: 0 <= i < |rules| ==> |rules[i].comps| > 0
    ensures var v := VisitedRules(doc, node, rules);
      var found := First(Picked(doc, node, rules, v));
      && (forall r: nat :: r in found ==> Accepted(doc, node, rules, r))
      && (!Spills(doc, node, rules, v) ==> forall r: nat :: r in found <==> Accepted(doc, node, rules, r))
      && (Spills(doc, node, rules, v) ==> |found| == MAX_MATCH)
  {
    hide Accepted, Picked, RuleKey, Bucketed, KeysOf, TreeOk, Visited;
    var v := VisitedRules(doc, node, rules);
    var all := Picked(doc, node, rules, v);
    if |v| > 0 { Fuller(doc, node, rules, v); } else { NothingPicked(doc, node, rules, v); }
    forall r: nat ensures r in all <==> Accepted(doc, node, rules, r) {
      PickedAre(doc, node, rules, v, r);
      BucketedAre(rules, |rules|, KeysOf(doc, node), r);
      if Accepted(doc, node, rules, r) {
        InTable(doc, node, rules, r);
        AcceptedVisited(doc, node, rules, r);
        KeysVisited(doc, node, RuleKey(rules[r]));
      }
    }
  }

  lemma NothingPicked(doc: Document, node: nat, rules: seq<Rule>, v: seq<nat>)
    requires doc.Valid() && v == []
    ensures Picked(doc, node, rules, v) == []
  {
  }

  lemma InTable(doc: Document, node: nat, rules: seq<Rule>, r: nat)
    requires doc.Valid() && Accepted(doc, node, rules, r)
    ensures r < |rules| && |rules[r].comps| > 0
  {
  }

  lemma CompVisited(doc: Document, node: nat, c: Comp)
    requires node < |doc.nodes| && CompOk(doc, node, c)
    ensures Visited(doc, node, KeyOf(c))
  {
    hide TreeOk, StatesOk, PlaceOk, Negated, ClassWords;
    if c.idHash == 0 && |c.cls| > 0 {
      assert HasClass(doc, node, c.cls[0]);
      var w :| w in ClassWords(doc, node) && doc.hash(w) == c.cls[0];
      assert doc.hash(w) % BUCKETS == c.cls[0] % BUCKETS;
    }
  }

  /** An accepted rule lies in one of them. */
  lemma AcceptedVisited(doc: Document, node: nat, rules: seq<Rule>, r: nat)
    requires doc.Valid() && node < |doc.nodes| && Accepted(doc, node, rules, r)
    ensures Visited(doc, node, RuleKey(rules[r]))
  {
    hide TreeOk, CompOk, Accepts, Visited, KeyOf;
    var comps := rules[r].comps;
    AcceptsLast(doc, node, comps);
    CompVisited(doc, node, comps[|comps| - 1]);
  }

  /** The comparison of the insertion sort. */
  predicate Above(rules: seq<Rule>, a: nat, b: nat)
    requires a < |rules| && b < |rules|
  {
    rules[a].spec > rules[b].spec || (rules[a].spec == rules[b].spec && rules[a].order > rules[b].order)
  }

  ghost predicate Valid(rules: seq<Rule>, s: seq<nat>) {
    forall i :: 0 <= i < |s| ==> s[i] < |rules|
  }

  /** Ascending in (spec, order). */
  ghost predicate Sorted(rules: seq<Rule>, s: seq<nat>) {
    Valid(rules, s) && forall i, j :: 0 <= i < j < |s| ==> !Above(rules, s[i], s[j])
  }

  lemma SortedInsert(rules: seq<Rule>, a: seq<nat>, b: seq<nat>, i: nat, p: nat)
    requires p <= i < |a| && Valid(rules, a) && ShiftedTo(a, b, i, p)
    requires Sorted(rules, a[..i]) && (forall k :: p <= k < i ==> Above(rules, a[k], a[i]))
    requires p > 0 ==> !Above(rules, a[p - 1], a[i])
    ensures Valid(rules, b) && Sorted(rules, b[..i + 1])
  {
    var s := a[..i];
    assert forall k :: 0 <= k <= i ==> b[k] == if k < p then s[k] else if k == p then a[i] else s[k - 1];
    forall k | 0 <= k < p ensures !Above(rules, s[k], a[i]) {
      if k < p - 1 { assert !Above(rules, s[k], s[p - 1]); }
    }
  }

  /** The rule table and its index. */
  class Index {
    var rules: seq<Rule>
    const tags: nat
    const byTag: array<nat>
    const byCls: array<nat>
    const byId: array<nat>
    var universal: nat
    var overflowed: bool

    /** The first n rules are filed, each in the bucket of its key. */
    ghost predicate Filed(n: nat)
      reads this, byTag, byCls, byId
    {
      && Apart() && WellFormed(rules, tags) && n <= |rules|
      && (forall b :: 0 <= b < BUCKETS ==> FiledAt(rules, n, byId[b], ById(b)))
      && (forall b :: 0 <= b < BUCKETS ==> FiledAt(rules, n, byCls[b], ByClass(b)))
      && (forall t :: 0 <= t < tags ==> FiledAt(rules, n, byTag[t], ByTag(t)))
      && FiledAt(rules, n, universal, Universal)
    }

    ghost predicate Apart() {
      byTag.Length == tags && byCls.Length == BUCKETS && byId.Length == BUCKETS && byTag != byCls && byTag != byId && byCls != byId
    }

    /** css_reset, for a table of rules that has still to be filed. */
    constructor (rules: seq<Rule>, tags: nat)
      requires WellFormed(rules, tags)
      ensures Filed(0) && this.rules == rules && this.tags == tags && !overflowed
      ensures fresh(byTag) && fresh(byCls) && fresh(byId)
    {
      this.rules, this.tags, overflowed, universal := rules, tags, false, NIL;
      byTag := new nat[tags](_ => NIL);
      byCls := new nat[BUCKETS](_ => NIL);
      byId := new nat[BUCKETS](_ => NIL);
    }

    /** kernel/css.h css_bucket_add. */
    method BucketAdd(ri: nat)
      requires Filed(ri) && ri < |rules|
      modifies this`rules, this`universal, byTag, byCls, byId
      ensures Filed(ri + 1) && rules == old(rules)[ri := rules[ri]] && rules[ri].comps == old(rules[ri].comps)
      ensures rules[ri].spec == old(rules[ri].spec) && rules[ri].order == old(rules[ri].order)
    {
      hide RuleChain, Members, FiledAt;
      var r := rules[ri];
      var last := r.comps[|r.comps| - 1];
      assert TagBelow(r, tags);
      ghost var rs := rules;
      var head: nat;
      if last.idHash != 0 {
        head := byId[last.idHash % BUCKETS];
        byId[last.idHash % BUCKETS] := ri;
      } else if |last.cls| > 0 {
        head := byCls[last.cls[0] % BUCKETS];
        byCls[last.cls[0] % BUCKETS] := ri;
      } else if last.tag != 0 {
        head := byTag[last.tag];
        byTag[last.tag] := ri;
      } else {
        head := universal;
        universal := ri;
      }
      FiledBound(rs, ri, head, RuleKey(r));
      FileOwn(rs, ri, head, RuleKey(r));
      rules := rules[ri := r.(next := head)];
      forall b | 0 <= b < BUCKETS ensures FiledAt(rules, ri + 1, byId[b], ById(b)) {
        if ById(b) != RuleKey(r) { FileOther(rs, ri, head, byId[b], ById(b)); }
      }
      forall b | 0 <= b < BUCKETS ensures FiledAt(rules, ri + 1, byCls[b], ByClass(b)) {
        if ByClass(b) != RuleKey(r) { FileOther(rs, ri, head, byCls[b], ByClass(b)); }
      }
      forall t | 0 <= t < tags ensures FiledAt(rules, ri + 1, byTag[t], ByTag(t)) {
        if ByTag(t) != RuleKey(r) { FileOther(rs, ri, head, byTag[t], ByTag(t)); }
      }
      if Universal != RuleKey(r) { FileOther(rs, ri, head, universal, Universal); }
    }

    /** kernel/css.h css_collect: the rules of one bucket are looked at one after the other, and
        the accepted ones listed, until the list is full. */
    method Collect(doc: Document, node: nat, ghost n: nat, head: nat, ghost key: Key, m: array<nat>, nm: nat,
                   ghost visited: seq<nat>, ghost was: bool) returns (k: nat)
      requires doc.Valid() && node < |doc.nodes| && FiledAt(rules, n, head, key)
      requires m.Length == MAX_MATCH && nm <= MAX_MATCH && Valid(rules, m[..nm])
      requires Listed(doc, node, rules, visited, m[..nm], was, overflowed)
      modifies m, this`overflowed
      ensures nm <= k <= MAX_MATCH && m[..nm] == old(m[..nm]) && Valid(rules, m[..k])
      ensures Listed(doc, node, rules, visited + Members(rules, n, key), m[..k], was, overflowed)
    {
      hide *;
      FiledParts(rules, n, head, key);
      ghost var before, all := m[..nm], Members(rules, n, key);
      ghost var seen: seq<nat> := [];
      k := nm;
      var r: nat := head;
      assert visited + seen == visited && seen + all == all;
      while r != 0xFFFF
        invariant r == 0xFFFF || r < n
        invariant nm <= k <= MAX_MATCH && m[..nm] == before && Valid(rules, m[..k])
        invariant all == seen + RuleChain(rules, r)
        invariant Listed(doc, node, rules, visited + seen, m[..k], was, overflowed)
        decreases if r == 0xFFFF then 0 else r + 1
      {
        LinkOf(rules, n, head, key, r);
        var rule := rules[r];
        if k >= MAX_MATCH {
          ListedStop(doc, node, rules, visited + seen, RuleChain(rules, r), m[..k], was, overflowed);
          assert (visited + seen) + RuleChain(rules, r) == visited + all;
          overflowed := true;
          return;
        }
        var ok := MatchFrom(doc, node, rule.comps, |rule.comps| - 1);
        WholeSelector(rule.comps);
        AcceptedIs(doc, node, rules, r);
        ListedNext(doc, node, rules, visited + seen, r, m[..k], was, overflowed);
        assert (visited + seen) + [r] == visited + (seen + [r]);
        assert seen + ([r] + RuleChain(rules, rule.next)) == (seen + [r]) + RuleChain(rules, rule.next);
        if ok {
          m[k] := r;
          assert m[..k + 1] == m[..k] + [r];
          ValidMore(rules, m[..k], r);
          k := k + 1;
        }
        seen := seen + [r];
        r := rule.next;
      }
      ChainEnds(rules);
      assert seen + [] == seen;
    }

    /** The class part of css_compute: the bucket of every word of the class attribute. */
    method CollectClasses(doc: Document, node: nat, ghost n: nat, m: array<nat>, nm: nat, ghost keys: seq<Key>,
                          ghost was: bool)
      returns (k: nat)
      requires doc.Valid() && node < |doc.nodes| && Filed(n) && m != byTag && m != byCls && m != byId
      requires m.Length == MAX_MATCH && nm <= MAX_MATCH && Valid(rules, m[..nm])
      requires Listed(doc, node, rules, Bucketed(rules, n, keys), m[..nm], was, overflowed)
      modifies m, this`overflowed
      ensures nm <= k <= MAX_MATCH && Filed(n) && Valid(rules, m[..k])
      ensures Listed(doc, node, rules, Bucketed(rules, n, keys + ClassKeys(doc, ClassWords(doc, node))), m[..k], was,
                     overflowed)
    {
      hide FiledAt, Listed, Words, SkipWs, WordEnd, TreeOk, Bucketed, Members, ClassKey;
      k := nm;
      var v := doc.attr(node, Class);
      ghost var seen: seq<string> := [];
      assert keys + ClassKeys(doc, seen) == keys;
      if v.None? { return; }
      var s, i := v.value, 0;
      assert seen + Words(s, 0) == Words(s, 0);
      while i < |s|
        invariant i <= |s| && nm <= k <= MAX_MATCH && Filed(n) && Valid(rules, m[..k])
        invariant ClassWords(doc, node) == seen + Words(s, i)
        invariant Listed(doc, node, rules, Bucketed(rules, n, keys + ClassKeys(doc, seen)), m[..k], was, overflowed)
        decreases |s| - i
      {
        WordsOnce(s, i);
        var st, e := NextWord(s, i);
        if e > st {
          var w := s[st..e];
          ghost var done := keys + ClassKeys(doc, seen);
          ClassKeyIs(doc, w);
          var head := byCls[doc.hash(w) % BUCKETS];
          k := Collect(doc, node, n, head, ClassKey(doc, w), m, k, Bucketed(rules, n, done), was);
          BucketedMore(rules, n, done, ClassKey(doc, w));
          assert done + [ClassKey(doc, w)] == keys + ClassKeys(doc, seen + [w]);
          seen := seen + [w];
          assert seen[..|seen| - 1] + ([w] + Words(s, e)) == seen + Words(s, e);
        }
        WordsEnd(s, e);
        i := e;
      }
      WordsEnd(s, i);
      assert seen + [] == seen;
    }

    /** The first part of css_compute: the list is the first 192 of the accepted rules in the
        buckets of the element, in their order, and the mark is set exactly when it was full
        with a rule still to look at.  So everything listed is accepted, and without overflow
        the list is what a scan of the whole table would accept. */
    method Gather(doc: Document, node: nat) returns (m: array<nat>, nm: nat)
      requires doc.Valid() && node < |doc.nodes| && doc.nodes[node].tag < tags && Filed(|rules|)
      modifies this`overflowed
      ensures fresh(m) && m.Length == MAX_MATCH && nm <= MAX_MATCH && Filed(|rules|) && Valid(rules, m[..nm])
      ensures m[..nm] == First(Picked(doc, node, rules, VisitedRules(doc, node, rules)))
      ensures overflowed <==> old(overflowed) || Spills(doc, node, rules, VisitedRules(doc, node, rules))
      ensures overflowed && !old(overflowed) ==> nm == MAX_MATCH
      ensures forall r: nat :: r in m[..nm] ==> Accepted(doc, node, rules, r)
      ensures !overflowed ==> forall r: nat :: r in m[..nm] <==> Accepted(doc, node, rules, r)
    {
      hide FiledAt, TreeOk, Accepted, Picked, ClassWords, ClassKeys, Bucketed, Members, Spills, First;
      m := new nat[MAX_MATCH];
      nm := 0;
      ghost var n, was := |rules|, overflowed;
      ListedNone(doc, node, rules, was);
      NoKeys(rules, n);
      assert m[..0] == [];
      var t := doc.nodes[node].tag;
      nm := Collect(doc, node, n, universal, Universal, m, nm, Bucketed(rules, n, []), was);
      BucketedMore(rules, n, [], Universal);
      assert [] + [Universal] == [Universal];
      nm := Collect(doc, node, n, byTag[t], ByTag(t), m, nm, Bucketed(rules, n, [Universal]), was);
      BucketedMore(rules, n, [Universal], ByTag(t));
      ghost var keys := [Universal, ByTag(t)];
      assert [Universal] + [ByTag(t)] == keys;
      nm := CollectClasses(doc, node, n, m, nm, keys, was);
      keys := keys + ClassKeys(doc, ClassWords(doc, node));
      var v := doc.attr(node, Id);
      if v.Some? {
        var b := doc.hash(v.value) % BUCKETS;
        nm := Collect(doc, node, n, byId[b], ById(b), m, nm, Bucketed(rules, n, keys), was);
        BucketedMore(rules, n, keys, ById(b));
        keys := keys + [ById(b)];
      } else {
        assert keys + [] == keys;
      }
      assert keys == KeysOf(doc, node);
      ListAgrees(doc, node, rules);
    }

    /** The match list of css_compute: those rules in ascending (spec, order). */
    method MatchedRules(doc: Document, node: nat) returns (m: array<nat>, nm: nat)
      requires doc.Valid() && node < |doc.nodes| && doc.nodes[node].tag < tags && Filed(|rules|)
      modifies this`overflowed
      ensures fresh(m) && nm <= m.Length == MAX_MATCH && Filed(|rules|) && Sorted(rules, m[..nm])
      ensures multiset(m[..nm]) == multiset(First(Picked(doc, node, rules, VisitedRules(doc, node, rules))))
      ensures overflowed <==> old(overflowed) || Spills(doc, node, rules, VisitedRules(doc, node, rules))
      ensures overflowed && !old(overflowed) ==> nm == MAX_MATCH
      ensures forall r: nat :: r in m[..nm] ==> Accepted(doc, node, rules, r)
      ensures !overflowed ==> forall r: nat :: r in m[..nm] <==> Accepted(doc, node, rules, r)
    {
      hide *;
      m, nm := Gather(doc, node);
      ghost var found := m[..nm];
      FiledTable();
      Sort(m, nm);
      SameMembers(found, m[..nm]);
    }

    lemma FiledTable()
      requires Filed(|rules|)
      ensures forall i :: 0 <= i < |rules| ==> |rules[i].comps| > 0
    {
      hide FiledAt;
    }

    // ---------- lowest priority first ----------

    /** The insertion sort of css_compute. */
    method Sort(m: array<nat>, nm: nat)
      requires nm <= m.Length && Valid(rules, m[..nm])
      modifies m
      ensures multiset(m[..nm]) == multiset(old(m[..nm]))
      ensures Valid(rules, m[..nm])
      ensures Sorted(rules, m[..nm])
    {
      var i := 1;
      while i < nm
        invariant 1 <= i && (nm >= 1 ==> i <= nm) && multiset(m[..nm]) == multiset(old(m[..nm]))
        invariant Valid(rules, m[..nm])
        invariant i <= nm ==> Sorted(rules, m[..i])
      {
        Insert(m, nm, i);
        i := i + 1;
      }
    }

    /** One round: m[i] is moved down to its place. */
    method Insert(m: array<nat>, nm: nat, i: nat)
      requires 1 <= i < nm <= m.Length && Valid(rules, m[..nm])
      requires Sorted(rules, m[..i])
      modifies m
      ensures multiset(m[..nm]) == multiset(old(m[..nm]))
      ensures Valid(rules, m[..nm])
      ensures Sorted(rules, m[..i + 1])
    {
      hide *;
      ghost var a := m[..nm];
      assert a[..i] == m[..i];
      var p := ShiftUp(m, nm, i);
      MovedIs(a, m[..nm], i, p);
      Permuted(a, m[..nm], i, p);
      SortedInsert(rules, a, m[..nm], i, p);
      assert m[..nm][..i + 1] == m[..i + 1];
    }

    /** The inner loop: the larger elements move up by one, and m[i] goes below them. */
    method ShiftUp(m: array<nat>, nm: nat, i: nat) returns (p: nat)
      requires 1 <= i < nm <= m.Length && Valid(rules, m[..nm])
      modifies m
      ensures p <= i && ShiftedTo(old(m[..nm]), m[..nm], i, p) && |old(m[..nm])| == nm
      ensures Valid(rules, old(m[..nm]))
      ensures forall k :: p <= k < i ==> Above(rules, old(m[..nm])[k], old(m[..nm])[i])
      ensures p > 0 ==> !Above(rules, old(m[..nm])[p - 1], old(m[..nm])[i])
    {
      hide Above;
      ghost var a := m[..nm];
      var x := m[i];
      var j: int := i - 1;
      while j >= 0 && Above(rules, m[j], x)
        invariant -1 <= j < i
        invariant forall k :: 0 <= k <= j ==> m[k] == a[k]
        invariant forall k :: j + 2 <= k <= i ==> m[k] == a[k - 1]
        invariant forall k :: i < k < nm ==> m[k] == a[k]
        invariant forall k :: j < k < i ==> Above(rules, a[k], x)
      {
        m[j + 1] := m[j];
        j := j - 1;
      }
      m[j + 1] := x;
      p := j + 1;
    }
  }

  lemma FiledBound(rules: seq<Rule>, n: nat, head: nat, key: Key)
    requires FiledAt(rules, n, head, key)
    ensures head == NIL || head < n
  {
  }

  lemma FiledParts(rules: seq<Rule>, n: nat, head: nat, key: Key)
    requires FiledAt(rules, n, head, key)
    ensures n <= |rules| <= 3072 && (forall i :: 0 <= i < |rules| ==> |rules[i].comps| > 0)
    ensures (head == 0xFFFF || head < n) && RuleChain(rules, head) == Members(rules, n, key)
  {
  }

  lemma WholeSelector(comps: seq<Comp>)
    requires |comps| > 0
    ensures comps[..|comps| - 1 + 1] == comps
  {
  }

  lemma LinkOf(rules: seq<Rule>, n: nat, head: nat, key: Key, r: nat)
    requires FiledAt(rules, n, head, key) && r < n
    ensures r < |rules| && |rules[r].comps| > 0 && (rules[r].next == 0xFFFF || rules[r].next < r)
    ensures RuleChain(rules, r) == [r] + RuleChain(rules, rules[r].next)
  {
    hide Members;
    var rest := if rules[r].next < r then RuleChain(rules, rules[r].next) else [];
    assert rest == RuleChain(rules, rules[r].next);
  }

  lemma ChainEnds(rules: seq<Rule>)
    ensures |rules| <= 0xFFFF ==> RuleChain(rules, 0xFFFF) == []
  {
  }

  lemma AcceptedIs(doc: Document, node: nat, rules: seq<Rule>, r: nat)
    requires doc.Valid() && r < |rules| && |rules[r].comps| > 0
    ensures Accepted(doc, node, rules, r) <==> Accepts(doc, node, rules[r].comps)
  {
    hide Accepts, TreeOk;
  }

  lemma NoKeys(rules: seq<Rule>, n: nat)
    requires n <= |rules| && forall i :: 0 <= i < |rules| ==> |rules[i].comps| > 0
    ensures Bucketed(rules, n, []) == []
  {
  }

  lemma ClassKeyIs(doc: Document, w: string)
    ensures ClassKey(doc, w) == ByClass(doc.hash(w) % BUCKETS) && doc.hash(w) % BUCKETS < BUCKETS
  {
  }

  lemma WordsOnce(s: string, i: nat)
    requires i <= |s|
    ensures var st := SkipWs(s, i);
      if st == |s| then Words(s, i) == [] && WordEnd(s, st) == |s|
      else Words(s, i) == [s[st..WordEnd(s, st)]] + Words(s, WordEnd(s, st)) && st < WordEnd(s, st)
  {
  }

  lemma WordsEnd(s: string, i: nat)
    requires i <= |s|
    ensures i == |s| ==> Words(s, i) == []
  {
  }

  /** b is a with a[i] moved down to p. */
  ghost predicate ShiftedTo(a: seq<nat>, b: seq<nat>, i: nat, p: nat) {
    && p <= i < |a| == |b| && b[p] == a[i]
    && (forall k :: 0 <= k < p ==> b[k] == a[k])
    && (forall k :: p < k <= i ==> b[k] == a[k - 1])
    && (forall k :: i < k < |a| ==> b[k] == a[k])
  }

  lemma MovedIs(a: seq<nat>, b: seq<nat>, i: nat, p: nat)
    requires ShiftedTo(a, b, i, p)
    ensures p <= i < |a| == |b| && b == a[..p] + [a[i]] + a[p..i] + a[i + 1..]
    ensures forall k :: 0 <= k < |b| ==> b[k] in a
  {
  }

  /** Moving an element permutes. */
  lemma Permuted(a: seq<nat>, b: seq<nat>, i: nat, p: nat)
    requires p <= i < |a| && b == a[..p] + [a[i]] + a[p..i] + a[i + 1..]
    ensures multiset(b) == multiset(a)
  {
    assert a == a[..p] + a[p..i] + [a[i]] + a[i + 1..];
    Exchange(a[..p], a[p..i], [a[i]], a[i + 1..]);
  }

  lemma Exchange(u: seq<nat>, v: seq<nat>, x: seq<nat>, w: seq<nat>)
    ensures multiset(u + v + x + w) == multiset(u + x + v + w)
  {
    assert multiset(u + v + x + w) == multiset(u + v + x) + multiset(w);
    assert multiset(u + x + v + w) == multiset(u + x + v) + multiset(w);
  }

  lemma ValidMore(rules: seq<Rule>, s: seq<nat>, r: nat)
    requires Valid(rules, s) && r < |rules|
    ensures Valid(rules, s + [r])
  {
  }

  lemma SameMembers(s: seq<nat>, t: seq<nat>)
    requires multiset(s) == multiset(t)
    ensures forall r: nat :: r in s <==> r in t
  {
    forall r: nat ensures r in s <==> r in t {
      assert r in s <==> r in multiset(s);
      assert r in t <==> r in multiset(t);
    }
  }
}
