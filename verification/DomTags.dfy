/** kernel/dom.h:54-79, 153-206: the tags that tree construction treats apart, and their
    classes.  Every other known tag is Plain. */
module DomTags {
  datatype Tag =
    | NoTag | Unknown | Plain(id: nat)
    | A | Address | Area | Article | Aside | B | Base | Big | Blockquote | Body | Br | Button | Caption | Center | Code
    | Col | Colgroup | Dd | Details | Dialog | Dir | Div | Dl | Dt | Em | Embed | Fieldset | Figcaption | Figure | Font
    | Footer | Form | Frame | Frameset | H1 | H2 | H3 | H4 | H5 | H6 | Head | Header | Hgroup | Hr | Html | I | Iframe
    | Img | Input | Li | Link | Listing | Main | Marquee | Math | Menu | Meta | Nav | Nobr | Noembed | Noframes
    | Noscript | Object | Ol | Optgroup | Option | P | Param | Plaintext | Pre | S | Script | Search | Section | Select
    | Small | Source | Strike | Strong | Style | Summary | Svg | Table | Tbody | Td | Template | Textarea | Tfoot | Th
    | Thead | Title | Tr | Track | Tt | U | Ul | Wbr | Xmp

  /** dom_tag_is_void. */
  predicate IsVoid(t: Tag) {
    || t == Area || t == Base || t == Br || t == Col || t == Embed || t == Hr || t == Img || t == Input
    || t == Link || t == Meta || t == Param || t == Source || t == Track || t == Wbr || t == Frame
  }

  /** dom_tag_is_special: what an unmatched end tag must not reach across. */
  predicate IsSpecial(t: Tag) {
    || t == Address || t == Article || t == Aside || t == Blockquote || t == Body || t == Br || t == Button || t == Caption
    || t == Center || t == Col || t == Colgroup || t == Dd || t == Details || t == Dir || t == Div || t == Dl
    || t == Dt || t == Embed || t == Fieldset || t == Figcaption || t == Figure || t == Footer || t == Form || t == H1
    || t == H2 || t == H3 || t == H4 || t == H5 || t == H6 || t == Head || t == Header || t == Hgroup
    || t == Hr || t == Html || t == Iframe || t == Img || t == Input || t == Li || t == Link || t == Listing
    || t == Main || t == Marquee || t == Menu || t == Meta || t == Nav || t == Noembed || t == Noframes || t == Noscript
    || t == Object || t == Ol || t == P || t == Param || t == Plaintext || t == Pre || t == Script || t == Search
    || t == Section || t == Select || t == Source || t == Style || t == Summary || t == Table || t == Tbody || t == Td
    || t == Template || t == Textarea || t == Tfoot || t == Th || t == Thead || t == Title || t == Tr || t == Track
    || t == Ul || t == Wbr || t == Xmp
  }

  predicate IsHeading(t: Tag) {
    t == H1 || t == H2 || t == H3 || t == H4 || t == H5 || t == H6
  }

  /** dom_tag_closes_p. */
  predicate ClosesP(t: Tag) {
    || t == Address || t == Article || t == Aside || t == Blockquote || t == Center || t == Details || t == Dialog || t == Dir
    || t == Div || t == Dl || t == Fieldset || t == Figcaption || t == Figure || t == Footer || t == Form || t == H1
    || t == H2 || t == H3 || t == H4 || t == H5 || t == H6 || t == Header || t == Hgroup || t == Hr
    || t == Li || t == Dd || t == Dt || t == Listing || t == Main || t == Menu || t == Nav || t == Ol
    || t == P || t == Plaintext || t == Pre || t == Search || t == Section || t == Summary || t == Table || t == Ul
    || t == Xmp
  }

  /** dom_tag_is_headish. */
  predicate IsHeadish(t: Tag) {
    || t == Title || t == Meta || t == Link || t == Style || t == Script || t == Base || t == Noscript || t == Template
  }

  /** dom_tag_rawness: 1 keeps the bytes, 2 decodes character references. */
  function Rawness(t: Tag): nat {
    if t == Script || t == Style || t == Xmp || t == Iframe || t == Noembed || t == Noframes then 1
    else if t == Title || t == Textarea then 2
    else 0
  }

  /** The elements that are always there and never inserted, closed or popped. */
  predicate IsRoot(t: Tag) {
    t == Html || t == Head || t == Body
  }

  datatype Scope = Generic | ButtonScope | ListScope | TableScope

  /** dom_scope_stop. */
  predicate ScopeStop(t: Tag, kind: Scope) {
    if kind == TableScope then t == Html || t == Table || t == Template
    else
      || (kind == ButtonScope && t == Button)
      || (kind == ListScope && (t == Ol || t == Ul))
      || t == Html || t == Table || t == Td || t == Th || t == Caption || t == Marquee || t == Object || t == Template
  }

  // ---------- searching the open elements, from the innermost outwards ----------

  /** dom_find: the nearest open `tag` before a scope boundary, or -1. */
  function Find(tags: seq<Tag>, tag: Tag, kind: Scope): (i: int)
    ensures -1 <= i < |tags| && (i >= 0 ==> tags[i] == tag)
    decreases |tags|
  {
    if |tags| == 0 then -1
    else
      var t := tags[|tags| - 1];
      if t == tag then |tags| - 1 else if ScopeStop(t, kind) then -1 else Find(tags[..|tags| - 1], tag, kind)
  }

  /** No boundary and no further `tag` lies inside element i. */
  ghost predicate Innermost(tags: seq<Tag>, i: int, tag: Tag, kind: Scope)
    requires 0 <= i < |tags|
  {
    tags[i] == tag && forall k :: i < k < |tags| ==> tags[k] != tag && !ScopeStop(tags[k], kind)
  }

  lemma {:induction false} FindNearest(tags: seq<Tag>, tag: Tag, kind: Scope, i: nat)
    requires i < |tags| && Innermost(tags, i, tag, kind)
    ensures Find(tags, tag, kind) == i
    decreases |tags|
  {
    hide ScopeStop;
    if i < |tags| - 1 {
      FindNearest(tags[..|tags| - 1], tag, kind, i);
    }
  }

  /** dom_find answers i exactly when i is the innermost occurrence with no boundary inside it. */
  lemma {:induction false} FindMeans(tags: seq<Tag>, tag: Tag, kind: Scope, i: nat)
    requires i < |tags|
    ensures Find(tags, tag, kind) == i <==> Innermost(tags, i, tag, kind)
    decreases |tags|
  {
    hide ScopeStop;
    if Innermost(tags, i, tag, kind) {
      FindNearest(tags, tag, kind, i);
    } else if i < |tags| - 1 && tags[|tags| - 1] != tag && !ScopeStop(tags[|tags| - 1], kind) {
      FindMeans(tags[..|tags| - 1], tag, kind, i);
    }
  }

  /** The walk for an open list item: it stops at special elements other than address, div and p. */
  predicate ItemStop(t: Tag) {
    IsSpecial(t) && t != Address && t != Div && t != P
  }

  predicate IsItem(t: Tag, li: bool) {
    if li then t == Li else t == Dd || t == Dt
  }

  function FindItem(tags: seq<Tag>, li: bool): (i: int)
    ensures -1 <= i < |tags| && (i >= 0 ==> IsItem(tags[i], li))
    decreases |tags|
  {
    if |tags| == 0 then -1
    else
      var t := tags[|tags| - 1];
      if IsItem(t, li) then |tags| - 1 else if ItemStop(t) then -1 else FindItem(tags[..|tags| - 1], li)
  }

  /** The nearest open heading before a scope boundary. */
  function FindHeading(tags: seq<Tag>): (i: int)
    ensures -1 <= i < |tags| && (i >= 0 ==> IsHeading(tags[i]))
    decreases |tags|
  {
    if |tags| == 0 then -1
    else
      var t := tags[|tags| - 1];
      if IsHeading(t) then |tags| - 1 else if ScopeStop(t, Generic) then -1 else FindHeading(tags[..|tags| - 1])
  }

  /** The walk for any other end tag: it stops at special elements. */
  function FindPlain(tags: seq<Tag>, tag: Tag): (i: int)
    ensures -1 <= i < |tags| && (i >= 0 ==> tags[i] == tag)
    decreases |tags|
  {
    if |tags| == 0 then -1
    else
      var t := tags[|tags| - 1];
      if t == tag then |tags| - 1 else if IsSpecial(t) then -1 else FindPlain(tags[..|tags| - 1], tag)
  }

  /** What a table part closes before it opens: everything down to its context. */
  predicate TableContext(tag: Tag, t: Tag) {
    || t == Table || t == Template
    || ((tag == Tr || tag == Td || tag == Th) && (t == Tbody || t == Thead || t == Tfoot))
    || ((tag == Td || tag == Th) && t == Tr)
  }

  function PopToContext(tags: seq<Tag>, tag: Tag): (n: nat)
    ensures n <= |tags| && (|tags| >= 2 ==> n >= 2)
    decreases |tags|
  {
    if |tags| <= 2 || TableContext(tag, tags[|tags| - 1]) then |tags| else PopToContext(tags[..|tags| - 1], tag)
  }

  function Cut(tags: seq<Tag>, i: int): (n: nat)
    requires i < |tags|
    ensures n <= |tags|
  {
    if i >= 0 then i else |tags|
  }

  predicate IsRowGroup(t: Tag) {
    t == Table || t == Tbody || t == Thead || t == Tfoot
  }

  /** What closing an open p leaves. */
  function LeftP(tags: seq<Tag>, tag: Tag): (n: nat)
    ensures n <= |tags|
  {
    if ClosesP(tag) then Cut(tags, Find(tags, P, ButtonScope)) else |tags|
  }

  /** A heading closes a heading that is the current element. */
  function LeftHeading(tags: seq<Tag>, n: nat, tag: Tag): (m: nat)
    requires n <= |tags|
    ensures m <= n
  {
    if IsHeading(tag) && n > 0 && IsHeading(tags[n - 1]) then n - 1 else n
  }

  /** How many open elements a start tag in the body leaves open (kernel/dom.h:546-588). */
  function Left(tags: seq<Tag>, tag: Tag): (n: nat)
    ensures n <= |tags|
  {
    LeftOwn(tags[..LeftHeading(tags, LeftP(tags, tag), tag)], tag)
  }

  /** The rule of the tag itself. */
  function LeftOwn(tags: seq<Tag>, tag: Tag): (n: nat)
    ensures n <= |tags|
  {
    var n := |tags|;
    if tag == Li then Cut(tags, FindItem(tags, true))
    else if tag == Dd || tag == Dt then Cut(tags, FindItem(tags, false))
    else if tag == Option then PopIf(tags, n, Option)
    else if tag == Optgroup then PopIf(tags, PopIf(tags, n, Option), Optgroup)
    else if tag == A then Cut(tags, Find(tags, A, Generic))
    else if tag == Button then Cut(tags, Find(tags, Button, Generic))
    else if IsTablePart(tag) then PopToContext(tags, tag)
    else n
  }

  function PopIf(tags: seq<Tag>, n: nat, t: Tag): (m: nat)
    requires n <= |tags|
    ensures m <= n
  {
    if n > 0 && tags[n - 1] == t then n - 1 else n
  }

  predicate IsTablePart(t: Tag) {
    t == Caption || t == Colgroup || t == Thead || t == Tbody || t == Tfoot || t == Tr || t == Td || t == Th
  }

  datatype EndRule = InScope(scope: Scope) | Anywhere

  /** The scope in which an end tag looks for its element, for the tags that look only there. */
  function EndScope(tag: Tag): EndRule {
    if tag == P then InScope(ButtonScope)
    else if tag == Li then InScope(ListScope)
    else if tag == Dd || tag == Dt then InScope(Generic)
    else if tag == Table || IsTablePart(tag) then InScope(TableScope)
    else Anywhere
  }

  /** How many open elements an end tag leaves open (kernel/dom.h:604-642). */
  function EndLeft(tags: seq<Tag>, tag: Tag): (n: nat)
    ensures n <= |tags|
  {
    match EndScope(tag)
    case InScope(kind) => Cut(tags, Find(tags, tag, kind))
    case Anywhere => if IsHeading(tag) then Cut(tags, FindHeading(tags)) else EndAny(tags, tag)
  }

  /** An end tag without a rule of its own: in scope, else, if it does not only format, down to
      the next special element. */
  function EndAny(tags: seq<Tag>, tag: Tag): (n: nat)
    ensures n <= |tags|
  {
    var i := Find(tags, tag, Generic);
    if i >= 0 then i else EndFar(tags, tag)
  }

  function EndFar(tags: seq<Tag>, tag: Tag): (n: nat)
    ensures n <= |tags|
  {
    if IsFormatting(tag) then |tags| else Cut(tags, FindPlain(tags, tag))
  }

  predicate IsFormatting(t: Tag) {
    || t == A || t == B || t == Big || t == Code || t == Em || t == Font || t == I || t == Nobr
    || t == S || t == Small || t == Strike || t == Strong || t == Tt || t == U
  }

  // ---------- what the searches find ----------

  /** Element i is an item of the list, and nothing inside it is one or ends the walk. */
  ghost predicate NearestItem(tags: seq<Tag>, i: int, li: bool)
    requires 0 <= i < |tags|
  {
    IsItem(tags[i], li) && forall k :: i < k < |tags| ==> !IsItem(tags[k], li) && !ItemStop(tags[k])
  }

  /** The walk of a list item answers i exactly when i is the nearest item with no special element
      inside it. */
  lemma {:induction false} FindItemMeans(tags: seq<Tag>, li: bool, i: nat)
    requires i < |tags|
    ensures FindItem(tags, li) == i <==> NearestItem(tags, i, li)
    decreases |tags|
  {
    hide ItemStop, IsItem;
    if i < |tags| - 1 && !IsItem(tags[|tags| - 1], li) && !ItemStop(tags[|tags| - 1]) {
      FindItemMeans(tags[..|tags| - 1], li, i);
    }
  }

  ghost predicate NearestHeading(tags: seq<Tag>, i: int)
    requires 0 <= i < |tags|
  {
    IsHeading(tags[i]) && forall k :: i < k < |tags| ==> !IsHeading(tags[k]) && !ScopeStop(tags[k], Generic)
  }

  /** The end tag of any heading finds the nearest open one, of whatever level, in scope. */
  lemma {:induction false} FindHeadingMeans(tags: seq<Tag>, i: nat)
    requires i < |tags|
    ensures FindHeading(tags) == i <==> NearestHeading(tags, i)
    decreases |tags|
  {
    hide IsHeading, ScopeStop;
    if i < |tags| - 1 && !IsHeading(tags[|tags| - 1]) && !ScopeStop(tags[|tags| - 1], Generic) {
      FindHeadingMeans(tags[..|tags| - 1], i);
    }
  }

  ghost predicate NearestPlain(tags: seq<Tag>, i: int, tag: Tag)
    requires 0 <= i < |tags|
  {
    tags[i] == tag && forall k :: i < k < |tags| ==> tags[k] != tag && !IsSpecial(tags[k])
  }

  /** The last walk of an end tag finds the nearest element of its name with no special one inside. */
  lemma {:induction false} FindPlainMeans(tags: seq<Tag>, tag: Tag, i: nat)
    requires i < |tags|
    ensures FindPlain(tags, tag) == i <==> NearestPlain(tags, i, tag)
    decreases |tags|
  {
    hide *;
    var n := |tags| - 1;
    FindPlainNext(tags, tag);
    if i < n {
      NearestPlainNext(tags, i, tag);
      if tags[n] != tag && !IsSpecial(tags[n]) { FindPlainMeans(tags[..n], tag, i); }
    } else {
      NearestPlainLast(tags, tag);
    }
  }

  lemma FindPlainNext(tags: seq<Tag>, tag: Tag)
    requires |tags| > 0
    ensures var n := |tags| - 1;
      FindPlain(tags, tag) == if tags[n] == tag then n else if IsSpecial(tags[n]) then -1 else FindPlain(tags[..n], tag)
    ensures -1 <= FindPlain(tags[..|tags| - 1], tag) < |tags| - 1
  {
    hide IsSpecial;
  }

  lemma NearestPlainNext(tags: seq<Tag>, i: nat, tag: Tag)
    requires i < |tags| - 1
    ensures var n := |tags| - 1;
      NearestPlain(tags, i, tag) <==> tags[n] != tag && !IsSpecial(tags[n]) && NearestPlain(tags[..n], i, tag)
  {
    hide IsSpecial;
    var n := |tags| - 1;
    assert forall k :: 0 <= k < n ==> tags[..n][k] == tags[k];
  }

  lemma NearestPlainLast(tags: seq<Tag>, tag: Tag)
    requires |tags| > 0
    ensures NearestPlain(tags, |tags| - 1, tag) <==> tags[|tags| - 1] == tag
  {
    hide IsSpecial;
  }

  /** A table part pops down to n exactly when all it pops are no context for it and the element
      left on top is one, or only the two roots are left. */
  lemma {:induction false} PopToContextMeans(tags: seq<Tag>, tag: Tag, n: nat)
    requires 2 <= n <= |tags|
    ensures PopToContext(tags, tag) == n <==> DownToContext(tags, tag, n)
    decreases |tags|
  {
    hide *;
    PopToContextNext(tags, tag);
    DownToContextNext(tags, tag, n);
    if 2 < |tags| && n < |tags| && !TableContext(tag, tags[|tags| - 1]) {
      PopToContextMeans(tags[..|tags| - 1], tag, n);
    }
  }

  ghost predicate DownToContext(tags: seq<Tag>, tag: Tag, n: nat)
    requires 2 <= n <= |tags|
  {
    && (n == 2 || TableContext(tag, tags[n - 1]))
    && forall k :: n <= k < |tags| ==> !TableContext(tag, tags[k])
  }

  lemma PopToContextNext(tags: seq<Tag>, tag: Tag)
    requires |tags| >= 2
    ensures PopToContext(tags, tag)
      == if |tags| == 2 || TableContext(tag, tags[|tags| - 1]) then |tags| else PopToContext(tags[..|tags| - 1], tag)
    ensures PopToContext(tags[..|tags| - 1], tag) < |tags|
  {
    hide TableContext;
  }

  lemma DownToContextNext(tags: seq<Tag>, tag: Tag, n: nat)
    requires 2 <= n <= |tags|
    ensures n == |tags| ==> (DownToContext(tags, tag, n) <==> n == 2 || TableContext(tag, tags[n - 1]))
    ensures var m := |tags| - 1;
      n <= m ==> (DownToContext(tags, tag, n) <==> !TableContext(tag, tags[m]) && DownToContext(tags[..m], tag, n))
  {
    hide TableContext;
    if n < |tags| {
      var m := |tags| - 1;
      assert forall k :: 0 <= k < m ==> tags[..m][k] == tags[k];
    }
  }

  // ---------- what that means for the open elements ----------

  /** A list inside an item keeps the item open: the start tag of a li closes nothing at or below
      an open ul or ol in which no li is open yet. */
  lemma ListsNest(tags: seq<Tag>, k: nat)
    requires k < |tags| && (tags[k] == Ul || tags[k] == Ol) && forall j :: k < j < |tags| ==> tags[j] != Li
    ensures LeftOwn(tags, Li) > k
  {
    hide LeftOwn;
    LeftOwnIs(tags, Li);
    ItemsStopAt(tags, k, true);
  }

  /** The same for a definition list. */
  lemma DefinitionsNest(tags: seq<Tag>, k: nat, tag: Tag)
    requires k < |tags| && tags[k] == Dl && forall j :: k < j < |tags| ==> tags[j] != Dd && tags[j] != Dt
    requires tag == Dd || tag == Dt
    ensures LeftOwn(tags, tag) > k
  {
    hide LeftOwn;
    LeftOwnIs(tags, tag);
    ItemsStopAt(tags, k, false);
  }

  lemma ItemsStopAt(tags: seq<Tag>, k: nat, li: bool)
    requires k < |tags| && ItemStop(tags[k]) && forall j :: k <= j < |tags| ==> !IsItem(tags[j], li)
    ensures Cut(tags, FindItem(tags, li)) > k
  {
    hide FindItem, IsItem, ItemStop;
    var i := FindItem(tags, li);
    if 0 <= i <= k {
      FindItemMeans(tags, li, i);
      assert false;
    }
  }

  predicate PassedByItems(t: Tag) {
    t == P || t == Div || t == Address || t == A || t == B || t == I || t == Em
  }

  /** Without a list between them an item closes the one before it, with what is open inside it, be
      it a link, bold or italic text, a p, a div or an address. */
  lemma ItemsAreSiblings(tags: seq<Tag>, k: nat, tag: Tag)
    requires k < |tags| && (tag == Li || tag == Dd || tag == Dt) && IsItem(tags[k], tag == Li)
    requires forall j :: k < j < |tags| ==> !IsItem(tags[j], tag == Li) && PassedByItems(tags[j])
    ensures LeftOwn(tags, tag) == k
  {
    hide LeftOwn, IsItem, PassedByItems, ItemStop;
    LeftOwnIs(tags, tag);
    forall j | k < j < |tags|
      ensures !ItemStop(tags[j])
    {
      PassedIsNoStop(tags[j]);
    }
    FindItemMeans(tags, tag == Li, k);
  }

  lemma PassedIsNoStop(t: Tag)
    requires PassedByItems(t)
    ensures !ItemStop(t)
  {
    hide ItemStop;
    ItemsPass();
  }

  lemma ItemsPass()
    ensures !ItemStop(P) && !ItemStop(Div) && !ItemStop(Address)
    ensures !ItemStop(A) && !ItemStop(B) && !ItemStop(I) && !ItemStop(Em)
  {
    hide ItemStop;
    BlocksPass();
    LinksPass();
    MarkupPasses();
  }

  lemma BlocksPass()
    ensures !ItemStop(P) && !ItemStop(Div) && !ItemStop(Address)
  {
    hide IsSpecial;
  }

  lemma LinksPass()
    ensures !ItemStop(A) && !ItemStop(B)
  {
  }

  lemma MarkupPasses()
    ensures !ItemStop(I) && !ItemStop(Em)
  {
  }

  /** The start tag of a block closes the p that is open in button scope, with everything inside. */
  lemma BlocksCloseP(tags: seq<Tag>, i: nat, tag: Tag)
    requires i < |tags| && ClosesP(tag) && Innermost(tags, i, P, ButtonScope)
    ensures Left(tags, tag) <= i
  {
    hide Innermost, ClosesP, Find, LeftOwn, IsHeading;
    FindMeans(tags, P, ButtonScope, i);
  }

  /** A heading opens beside the heading that is the current element, of whatever level. */
  lemma HeadingsAreSiblings(tags: seq<Tag>, tag: Tag)
    requires |tags| > 0 && IsHeading(tag) && IsHeading(tags[|tags| - 1])
    requires forall i :: 0 <= i < |tags| ==> tags[i] != P
    ensures Left(tags, tag) == |tags| - 1
  {
    hide Find, LeftOwn, IsHeading, ClosesP;
    var i := Find(tags, P, ButtonScope);
    assert i < 0;
    HeadingHasNoRule(tags[..|tags| - 1], tag);
  }

  lemma HeadingHasNoRule(tags: seq<Tag>, tag: Tag)
    requires IsHeading(tag)
    ensures LeftOwn(tags, tag) == |tags|
  {
    hide FindItem, Cut, Find, PopToContext;
  }

  /** A link or a button closes the one in scope, whatever is open inside it: they never nest. */
  lemma LinksNeverNest(tags: seq<Tag>, i: nat, tag: Tag)
    requires i < |tags| && (tag == A || tag == Button) && Innermost(tags, i, tag, Generic)
    ensures Left(tags, tag) == i
  {
    hide Innermost, Find, LeftOwn, ClosesP, IsHeading;
    LinksAreInline();
    LeftOwnIs(tags, tag);
    FindMeans(tags, tag, Generic, i);
    assert tags[..|tags|] == tags;
  }

  lemma LinksAreInline()
    ensures !ClosesP(A) && !ClosesP(Button) && !IsHeading(A) && !IsHeading(Button)
  {
  }

  /** Options and their groups close what is open of them on top of the stack. */
  lemma OptionsAreSiblings(tags: seq<Tag>)
    requires Rooted(tags)
    ensures LeftOwn(tags + [Option], Option) == |tags|
    ensures LeftOwn(tags + [Optgroup], Option) == |tags| + 1
    ensures LeftOwn(tags + [Optgroup, Option], Option) == |tags| + 1
    ensures LeftOwn(tags + [Optgroup, Option], Optgroup) == |tags|
    ensures LeftOwn(tags + [Optgroup], Optgroup) == |tags|
  {
    hide LeftOwn;
    LeftOwnOption(tags + [Option]);
    LeftOwnOption(tags + [Optgroup]);
    LeftOwnOption(tags + [Optgroup, Option]);
  }

  predicate IsCellOrMarkup(t: Tag) {
    t == Td || t == Th || IsFormatting(t)
  }

  /** A new row closes the row before it and its cells, down to the table or the row group. */
  lemma RowsAreSiblings(tags: seq<Tag>, k: nat)
    requires 2 <= k < |tags| && tags[k] == Tr
    requires IsRowGroup(tags[k - 1]) && forall j :: k < j < |tags| ==> IsCellOrMarkup(tags[j])
    ensures LeftOwn(tags, Tr) == k
    ensures LeftOwn(tags, Td) == k + 1 == LeftOwn(tags, Th)
  {
    hide *;
    RowsPop(tags);
    RowContexts(tags[k - 1]);
    forall j | k < j < |tags|
      ensures !TableContext(Tr, tags[j]) && !TableContext(Td, tags[j]) && !TableContext(Th, tags[j])
    {
      NoContext(tags[j]);
    }
    PopsTo(tags, Tr, k);
    PopsTo(tags, Td, k + 1);
    PopsTo(tags, Th, k + 1);
  }

  lemma RowsPop(tags: seq<Tag>)
    ensures LeftOwn(tags, Tr) == PopToContext(tags, Tr)
    ensures LeftOwn(tags, Td) == PopToContext(tags, Td) && LeftOwn(tags, Th) == PopToContext(tags, Th)
  {
    hide LeftOwn, PopToContext;
    LeftOwnIs(tags, Tr);
    LeftOwnIs(tags, Td);
    LeftOwnIs(tags, Th);
  }

  lemma PopsTo(tags: seq<Tag>, tag: Tag, n: nat)
    requires 2 <= n <= |tags| && TableContext(tag, tags[n - 1])
    requires forall k :: n <= k < |tags| ==> !TableContext(tag, tags[k])
    ensures PopToContext(tags, tag) == n
  {
    hide TableContext, PopToContext;
    PopToContextMeans(tags, tag, n);
  }

  lemma RowContexts(t: Tag)
    requires IsRowGroup(t)
    ensures TableContext(Tr, t) && !TableContext(Tr, Tr) && TableContext(Td, Tr) && TableContext(Th, Tr)
  {
  }

  lemma NoContext(t: Tag)
    requires IsCellOrMarkup(t)
    ensures !TableContext(Tr, t) && !TableContext(Td, t) && !TableContext(Th, t)
  {
    if IsFormatting(t) { MarkupIsNoTable(t); }
    hide IsFormatting;
  }

  lemma MarkupIsNoTable(t: Tag)
    requires IsFormatting(t)
    ensures t != Table && t != Template && t != Tbody && t != Thead && t != Tfoot && t != Tr
    ensures t != Td && t != Th && t != Caption && t != Marquee && t != Object
  {
  }

  /** An end tag without an open element of its name closes nothing, unless it ends a heading. */
  lemma UnmatchedClosesNothing(tags: seq<Tag>, tag: Tag)
    requires !IsHeading(tag) && forall i :: 0 <= i < |tags| ==> tags[i] != tag
    ensures EndLeft(tags, tag) == |tags|
  {
    hide Find, FindPlain, IsHeading, IsFormatting, EndScope;
    EndLeftIs(tags, tag);
    EndAnyIs(tags, tag);
  }

  /** An end tag closes the innermost element of its name that is in its scope. */
  lemma EndClosesInScope(tags: seq<Tag>, tag: Tag, i: nat)
    requires i < |tags| && !IsHeading(tag)
    requires Innermost(tags, i, tag, if EndScope(tag).InScope? then EndScope(tag).scope else Generic)
    ensures EndLeft(tags, tag) == i
  {
    hide Innermost, Find, FindPlain, IsHeading, IsFormatting, EndScope;
    FindMeans(tags, tag, if EndScope(tag).InScope? then EndScope(tag).scope else Generic, i);
    EndLeftIs(tags, tag);
    EndAnyIs(tags, tag);
  }

  /** The end tag of text markup never closes a table, a cell or a caption it stands in. */
  lemma MarkupStaysInside(tags: seq<Tag>, k: nat, tag: Tag)
    requires k < |tags| && IsFormatting(tag) && forall j :: k < j < |tags| ==> tags[j] != tag
    requires var t := tags[k];
      t == Table || t == Td || t == Th || t == Caption || t == Marquee || t == Object || t == Template
    ensures EndLeft(tags, tag) > k
  {
    hide Find, FindPlain, EndScope, ScopeStop, IsFormatting, IsHeading, EndLeft;
    MarkupRule(tag);
    CellsAreScopes(tags[k], tag);
    var i := Find(tags, tag, Generic);
    if 0 <= i <= k {
      FindMeans(tags, tag, Generic, i);
      assert false;
    }
    EndLeftIs(tags, tag);
    EndAnyIs(tags, tag);
  }

  lemma {:induction false} FindStopsAt(tags: seq<Tag>, k: nat, tag: Tag, kind: Scope)
    requires k < |tags| && ScopeStop(tags[k], kind) && forall j :: k <= j < |tags| ==> tags[j] != tag
    ensures Find(tags, tag, kind) < 0
    decreases |tags|
  {
    hide ScopeStop;
    if k < |tags| - 1 {
      FindStopsAt(tags[..|tags| - 1], k, tag, kind);
    }
  }

  /** The end tag of an item does not reach out of the list it stands in. */
  lemma EndItemStaysInList(tags: seq<Tag>, k: nat)
    requires k < |tags| && (tags[k] == Ul || tags[k] == Ol) && forall j :: k < j < |tags| ==> tags[j] != Li
    ensures EndLeft(tags, Li) == |tags|
  {
    hide Find, FindHeading, EndAny, IsHeading;
    FindStopsAt(tags, k, Li, ListScope);
  }

  /** A block inside a button does not close the p around the button. */
  lemma ButtonKeepsP(tags: seq<Tag>, k: nat, tag: Tag)
    requires k < |tags| && tags[k] == Button && forall j :: k < j < |tags| ==> tags[j] != P
    ensures LeftP(tags, tag) == |tags|
  {
    hide Find, ClosesP;
    FindStopsAt(tags, k, P, ButtonScope);
  }

  /** The end tag of a table part does not reach out of the table it stands in. */
  lemma EndPartStaysInTable(tags: seq<Tag>, k: nat, tag: Tag)
    requires k < |tags| && tags[k] == Table && IsTablePart(tag) && forall j :: k < j < |tags| ==> tags[j] != tag
    ensures EndLeft(tags, tag) == |tags|
  {
    hide Find, FindHeading, EndAny, IsHeading;
    FindStopsAt(tags, k, tag, TableScope);
  }

  lemma MarkupRule(tag: Tag)
    requires IsFormatting(tag)
    ensures !IsHeading(tag) && EndScope(tag).Anywhere?
  {
  }

  lemma CellsAreScopes(t: Tag, tag: Tag)
    requires t == Table || t == Td || t == Th || t == Caption || t == Marquee || t == Object || t == Template
    requires IsFormatting(tag)
    ensures ScopeStop(t, Generic) && t != tag
  {
    MarkupIsNoTable(tag);
    hide IsFormatting;
  }

  /** An end tag of any other name never closes a special element that it does not name. */
  lemma OthersStopAtSpecial(tags: seq<Tag>, k: nat, tag: Tag)
    requires k < |tags| && EndScope(tag).Anywhere? && !IsHeading(tag)
    requires IsSpecial(tags[k]) && forall j :: k <= j < |tags| ==> tags[j] != tag
    requires forall i :: 0 <= i < |tags| ==> !Innermost(tags, i, tag, Generic)
    ensures EndLeft(tags, tag) > k
  {
    hide Innermost, Find, FindPlain, EndScope, IsFormatting, IsHeading, IsSpecial, EndLeft;
    var i := Find(tags, tag, Generic);
    if i >= 0 { FindMeans(tags, tag, Generic, i); }
    var p := FindPlain(tags, tag);
    if 0 <= p <= k {
      FindPlainMeans(tags, tag, p);
      assert false;
    }
    EndLeftIs(tags, tag);
    EndAnyIs(tags, tag);
  }

  // ---------- the two root elements stay ----------

  /** The bottom of the stack: html, then head or body. */
  predicate Rooted(tags: seq<Tag>) {
    |tags| >= 2 && IsRoot(tags[0]) && IsRoot(tags[1])
  }

  lemma ItemNotRoot(t: Tag, li: bool)
    requires IsItem(t, li)
    ensures !IsRoot(t)
  {
  }

  lemma HeadingNotRoot(t: Tag)
    requires IsHeading(t)
    ensures !IsRoot(t)
  {
  }

  lemma SomeNotRoots()
    ensures !IsRoot(P) && !IsRoot(Option) && !IsRoot(Optgroup)
  {
  }

  lemma CutRooted(tags: seq<Tag>, i: int)
    requires Rooted(tags) && i < |tags| && (i >= 0 ==> !IsRoot(tags[i]))
    ensures Cut(tags, i) >= 2
  {
    hide IsRoot;
  }

  lemma PopIfRooted(tags: seq<Tag>, n: nat, t: Tag)
    requires Rooted(tags) && 2 <= n <= |tags| && !IsRoot(t)
    ensures PopIf(tags, n, t) >= 2
  {
    hide IsRoot;
  }

  lemma ItemRooted(tags: seq<Tag>, li: bool)
    requires Rooted(tags)
    ensures Cut(tags, FindItem(tags, li)) >= 2
  {
    hide FindItem, Cut, Rooted, IsRoot, IsItem;
    if FindItem(tags, li) >= 0 { ItemNotRoot(tags[FindItem(tags, li)], li); }
    CutRooted(tags, FindItem(tags, li));
  }

  lemma OptionRooted(tags: seq<Tag>)
    requires Rooted(tags)
    ensures PopIf(tags, |tags|, Option) >= 2 && PopIf(tags, PopIf(tags, |tags|, Option), Optgroup) >= 2
  {
    assert |tags| >= 2;
    hide PopIf, Rooted, IsRoot;
    SomeNotRoots();
    PopIfRooted(tags, |tags|, Option);
    PopIfRooted(tags, PopIf(tags, |tags|, Option), Optgroup);
  }

  lemma RootedSize(tags: seq<Tag>)
    requires Rooted(tags)
    ensures |tags| >= 2
  {
  }

  /** The possible values, without the tags that lead to them. */
  lemma LeftOwnCases(tags: seq<Tag>, tag: Tag)
    requires |tags| >= 2
    ensures var n := LeftOwn(tags, tag);
      || n == Cut(tags, FindItem(tags, true)) || n == Cut(tags, FindItem(tags, false))
      || n == PopIf(tags, |tags|, Option) || n == PopIf(tags, PopIf(tags, |tags|, Option), Optgroup)
      || n == Cut(tags, Find(tags, tag, Generic)) || n >= 2
  {
    hide Find, FindItem, PopToContext, Cut, PopIf, IsTablePart;
  }

  lemma LeftOwnRooted(tags: seq<Tag>, tag: Tag)
    requires Rooted(tags) && !IsRoot(tag)
    ensures LeftOwn(tags, tag) >= 2
  {
    hide *;
    RootedSize(tags);
    ItemRooted(tags, true);
    ItemRooted(tags, false);
    OptionRooted(tags);
    CutRooted(tags, Find(tags, tag, Generic));
    LeftOwnCases(tags, tag);
  }

  lemma LeftPIs(tags: seq<Tag>, tag: Tag)
    requires Rooted(tags)
    ensures var i := Find(tags, P, ButtonScope);
      (i >= 0 ==> i >= 2) && LeftP(tags, tag) == (if ClosesP(tag) && i >= 0 then i else |tags|) >= 2
  {
    hide Find, ClosesP, IsRoot, Rooted, Cut;
    RootedSize(tags);
    SomeNotRoots();
    CutRooted(tags, Find(tags, P, ButtonScope));
    CutIs(tags, Find(tags, P, ButtonScope));
  }

  lemma LeftHeadingIs(tags: seq<Tag>, n: nat, tag: Tag)
    requires Rooted(tags) && 2 <= n <= |tags|
    ensures LeftHeading(tags, n, tag) == (if IsHeading(tag) && IsHeading(tags[n - 1]) then n - 1 else n) >= 2
  {
    hide IsRoot, IsHeading;
    if IsHeading(tags[n - 1]) { HeadingNotRoot(tags[n - 1]); }
  }

  lemma RootedPrefix(tags: seq<Tag>, n: nat)
    requires Rooted(tags) && 2 <= n <= |tags|
    ensures Rooted(tags[..n])
  {
    hide IsRoot;
  }

  /** A start tag never closes html, head or body. */
  lemma LeftRooted(tags: seq<Tag>, tag: Tag)
    requires Rooted(tags) && !IsRoot(tag)
    ensures Left(tags, tag) >= 2
  {
    hide Find, LeftOwn, ClosesP, IsRoot, IsHeading, Rooted, LeftP, LeftHeading;
    LeftPIs(tags, tag);
    LeftHeadingIs(tags, LeftP(tags, tag), tag);
    RootedPrefix(tags, LeftHeading(tags, LeftP(tags, tag), tag));
    LeftOwnRooted(tags[..LeftHeading(tags, LeftP(tags, tag), tag)], tag);
  }

  /** A search for anything but a root element ends above the two roots. */
  lemma FindRooted(tags: seq<Tag>, tag: Tag, kind: Scope)
    requires Rooted(tags) && !IsRoot(tag)
    ensures var i := Find(tags, tag, kind);
      (i >= 0 ==> i >= 2) && Cut(tags, i) >= 2 && Cut(tags, i) == if i >= 0 then i else |tags|
  {
    hide Find, Cut, IsRoot, Rooted;
    CutRooted(tags, Find(tags, tag, kind));
    CutIs(tags, Find(tags, tag, kind));
  }

  lemma EndHeading(tags: seq<Tag>)
    requires Rooted(tags)
    ensures Cut(tags, FindHeading(tags)) >= 2
  {
    hide FindHeading, Cut, IsRoot, Rooted, IsHeading;
    if FindHeading(tags) >= 0 { HeadingNotRoot(tags[FindHeading(tags)]); }
    CutRooted(tags, FindHeading(tags));
  }

  /** The rule of a start tag, case by case. */
  lemma LeftOwnIs(tags: seq<Tag>, tag: Tag)
    ensures tag == Li ==> LeftOwn(tags, tag) == Cut(tags, FindItem(tags, true))
    ensures tag == Dd || tag == Dt ==> LeftOwn(tags, tag) == Cut(tags, FindItem(tags, false))
    ensures tag == A || tag == Button ==> LeftOwn(tags, tag) == Cut(tags, Find(tags, tag, Generic))
    ensures tag != Li && tag != Dd && tag != Dt && tag != A && tag != Button && tag != Option && tag != Optgroup ==>
      LeftOwn(tags, tag) == if IsTablePart(tag) then PopToContext(tags, tag) else |tags|
  {
    hide *;
    LeftOwnLi(tags);
    if tag == Dd || tag == Dt { LeftOwnDd(tags, tag); }
    if tag == A || tag == Button { LeftOwnA(tags, tag); }
    if tag != Li && tag != Dd && tag != Dt && tag != A && tag != Button && tag != Option && tag != Optgroup {
      LeftOwnRest(tags, tag);
    }
  }

  lemma CutIs(tags: seq<Tag>, i: int)
    requires i < |tags|
    ensures Cut(tags, i) == if i >= 0 then i else |tags|
  {
  }

  lemma LeftOwnLi(tags: seq<Tag>)
    ensures LeftOwn(tags, Li) == Cut(tags, FindItem(tags, true))
  {
    hide FindItem, Cut, Find, PopToContext;
  }

  lemma LeftOwnDd(tags: seq<Tag>, tag: Tag)
    requires tag == Dd || tag == Dt
    ensures LeftOwn(tags, tag) == Cut(tags, FindItem(tags, false))
  {
    hide FindItem, Cut, Find, PopToContext;
  }

  lemma LeftOwnA(tags: seq<Tag>, tag: Tag)
    requires tag == A || tag == Button
    ensures LeftOwn(tags, tag) == Cut(tags, Find(tags, tag, Generic))
  {
    hide FindItem, Cut, Find, PopToContext;
  }

  lemma LeftOwnOption(tags: seq<Tag>)
    requires Rooted(tags)
    ensures |tags| >= 2 && (tags[|tags| - 1] == Option ==> |tags| > 2)
    ensures LeftOwn(tags, Option) == if tags[|tags| - 1] == Option then |tags| - 1 else |tags|
    ensures var m := if tags[|tags| - 1] == Option then |tags| - 1 else |tags|;
      m >= 2 && (tags[m - 1] == Optgroup ==> m > 2)
      && LeftOwn(tags, Optgroup) == if tags[m - 1] == Optgroup then m - 1 else m
  {
    hide FindItem, Cut, Find, PopToContext;
  }

  lemma LeftOwnRest(tags: seq<Tag>, tag: Tag)
    requires tag != Li && tag != Dd && tag != Dt && tag != A && tag != Button && tag != Option && tag != Optgroup
    ensures IsTablePart(tag) ==> LeftOwn(tags, tag) == PopToContext(tags, tag)
    ensures !IsTablePart(tag) ==> LeftOwn(tags, tag) == |tags|
  {
    hide FindItem, Cut, Find, PopToContext, IsTablePart;
  }

  /** The rule of an end tag, case by case. */
  lemma EndLeftIs(tags: seq<Tag>, tag: Tag)
    ensures EndScope(tag).InScope? ==> EndLeft(tags, tag) == Cut(tags, Find(tags, tag, EndScope(tag).scope))
    ensures EndScope(tag).Anywhere? ==>
      EndLeft(tags, tag) == if IsHeading(tag) then Cut(tags, FindHeading(tags)) else EndAny(tags, tag)
  {
    hide EndScope, Find, FindHeading, EndAny, IsHeading, Cut;
  }

  lemma PlainRooted(tags: seq<Tag>, tag: Tag)
    requires Rooted(tags) && !IsRoot(tag)
    ensures var i := FindPlain(tags, tag); (i >= 0 ==> i >= 2) && Cut(tags, i) == (if i >= 0 then i else |tags|) >= 2
  {
    hide FindPlain, Cut, IsRoot, Rooted;
    CutRooted(tags, FindPlain(tags, tag));
    CutIs(tags, FindPlain(tags, tag));
  }

  lemma EndFarRooted(tags: seq<Tag>, tag: Tag)
    requires Rooted(tags) && !IsRoot(tag)
    ensures EndFar(tags, tag) >= 2
  {
    hide FindPlain, Cut, IsRoot, IsFormatting;
    CutRooted(tags, FindPlain(tags, tag));
  }

  lemma EndAnyIs(tags: seq<Tag>, tag: Tag)
    ensures EndAny(tags, tag) == if Find(tags, tag, Generic) >= 0 then Find(tags, tag, Generic) else EndFar(tags, tag)
    ensures EndFar(tags, tag) == if IsFormatting(tag) then |tags| else Cut(tags, FindPlain(tags, tag))
  {
    hide Find, FindPlain, Cut, IsFormatting;
  }

  /** Neither does an end tag close html, head or body. */
  lemma EndLeftRooted(tags: seq<Tag>, tag: Tag)
    requires Rooted(tags) && !IsRoot(tag)
    ensures EndLeft(tags, tag) >= 2
  {
    hide *;
    EndLeftIs(tags, tag);
    if EndScope(tag).InScope? {
      FindRooted(tags, tag, EndScope(tag).scope);
    } else {
      EndHeading(tags);
      EndAnyIs(tags, tag);
      FindRooted(tags, tag, Generic);
      EndFarRooted(tags, tag);
    }
  }
}
