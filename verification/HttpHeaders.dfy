/** kernel/httpresp.h:62-168: the status line, the header lines and the token lists of a
    response.  Bytes are characters 0..255. */
module HttpHeaders {
  import opened Options
  import opened Scanning

  const U32 := 0x1_0000_0000

  /** What the header block says. */
  datatype Info = Info(status: nat, chunked: bool, haveClen: bool, clen: nat, encoded: bool,
                       location: Bytes, contentType: Bytes)

  const NO_INFO := Info(0, false, false, 0, false, "", "")
  const LOCATION_MAX := 400
  const CTYPE_MAX := 64

  // ---------- scanning ----------

  predicate IsBlank(c: char) {
    c == ' ' || c == '\t'
  }

  predicate IsBreak(c: char) {
    c == '\r' || c == '\n'
  }

  predicate IsDigit(c: char) {
    '0' <= c <= '9'
  }

  // ---------- token lists (hr_value_tokens) ----------

  predicate IsComma(c: char) {
    c == ','
  }

  predicate IsSemicolon(c: char) {
    c == ';'
  }

  /** A token stops at a comma or at its parameters. */
  predicate EndsToken(c: char) {
    IsComma(c) || IsSemicolon(c)
  }

  predicate EndsTokenOrLine(c: char) {
    EndsToken(c) || IsBreak(c)
  }

  predicate EndsMemberOrLine(c: char) {
    IsComma(c) || IsBreak(c)
  }

  function TrimEnd(s: Bytes): Bytes {
    if |s| > 0 && IsBlank(s[|s| - 1]) then TrimEnd(s[..|s| - 1]) else s
  }

  function TrimStart(s: Bytes): Bytes {
    if |s| > 0 && IsBlank(s[0]) then TrimStart(s[1..]) else s
  }

  /** The token of one member of the list: parameters dropped, blanks trimmed, none if empty. */
  function MemberToken(m: Bytes): seq<Bytes> {
    var t := TrimEnd(TrimStart(m[..Scan(m, 0, IsSemicolon)]));
    if t == "" then [] else [t]
  }

  /** The tokens of a comma-separated list. */
  function Tokens(w: Bytes): seq<Bytes>
    decreases |w|
  {
    var c := Scan(w, 0, IsComma);
    if c == |w| then MemberToken(w) else MemberToken(w[..c]) + Tokens(w[c + 1..])
  }

  /** A header value ends at the first CR or LF. */
  function ValueOf(v: Bytes): Bytes {
    v[..Scan(v, 0, IsBreak)]
  }

  /** hr_tok_eq: word is in lower case. */
  predicate TokEq(t: Bytes, word: Bytes) {
    LowerAll(t) == word
  }

  /** HR_TOK_HAS, HR_TOK_LAST and HR_TOK_OTHER. */
  datatype Flags = Flags(has: bool, last: bool, other: bool)

  ghost predicate AnyIs(ts: seq<Bytes>, word: Bytes) {
    exists t :: t in ts && TokEq(t, word)
  }

  predicate Neither(t: Bytes, word: Bytes, word2: Option<Bytes>) {
    !TokEq(t, word) && (word2.Some? ==> !TokEq(t, word2.value))
  }

  ghost predicate AnyOther(ts: seq<Bytes>, word: Bytes, word2: Option<Bytes>) {
    exists t :: t in ts && Neither(t, word, word2)
  }

  ghost function FlagsOf(ts: seq<Bytes>, word: Bytes, word2: Option<Bytes>): Flags {
    Flags(AnyIs(ts, word), |ts| > 0 && TokEq(ts[|ts| - 1], word), AnyOther(ts, word, word2))
  }

  lemma {:induction false} ScanDrop(s: Bytes, k: nat, p: nat, stop: char -> bool)
    requires k + p <= |s|
    ensures Scan(s, k + p, stop) == k + Scan(s[k..], p, stop)
    decreases |s| - p
  {
    if k + p < |s| && !stop(s[k + p]) {
      ScanDrop(s, k, p + 1, stop);
    }
  }

  lemma {:induction false} ScanAtMost(s: Bytes, p: nat, q: nat, stop: char -> bool)
    requires p <= q <= |s| && (q < |s| ==> stop(s[q]))
    ensures Scan(s, p, stop) <= q
    decreases q - p
  {
    if p < q {
      ScanAtMost(s, p + 1, q, stop);
    }
  }

  /** A leading blank does not change the tokens. */
  lemma LeadingBlank(w: Bytes)
    requires |w| > 0 && IsBlank(w[0])
    ensures Tokens(w) == Tokens(w[1..])
  {
    hide TrimEnd;
    ScanDrop(w, 1, 0, IsComma);
    var c := Scan(w, 0, IsComma);
    var m := w[..c];
    assert m[1..] == w[1..][..c - 1];
    MemberBlank(m);
    if c < |w| {
      assert w[1..][c..] == w[c + 1..];
    } else {
      assert m == w;
    }
  }

  lemma MemberBlank(m: Bytes)
    requires |m| > 0 && IsBlank(m[0])
    ensures MemberToken(m) == MemberToken(m[1..])
  {
    hide TrimEnd;
    ScanDrop(m, 1, 0, IsSemicolon);
    var q := Scan(m, 0, IsSemicolon);
    assert m[..q][1..] == m[1..][..q - 1];
  }

  lemma NoToken()
    ensures MemberToken("") == []
  {
  }

  /** A leading comma only closes an empty member. */
  lemma LeadingComma(w: Bytes)
    requires |w| > 0 && IsComma(w[0])
    ensures Tokens(w) == Tokens(w[1..])
  {
    hide MemberToken, Scan;
    assert Scan(w, 0, IsComma) == 0 by { ScanIs(w, 0, 0, IsComma); }
    assert w[..0] == "";
    NoToken();
  }

  /** The token of the member m that starts with no blank and ends at s. */
  lemma MemberTokenIs(m: Bytes, s: nat)
    requires |m| > 0 ==> !IsBlank(m[0])
    requires s <= |m| && (s < |m| ==> IsSemicolon(m[s])) && forall k :: 0 <= k < s ==> !IsSemicolon(m[k])
    ensures MemberToken(m) == if TrimEnd(m[..s]) == "" then [] else [TrimEnd(m[..s])]
  {
    hide TrimEnd, Scan;
    ScanIs(m, 0, s, IsSemicolon);
    assert TrimStart(m[..s]) == m[..s];
  }

  lemma TokensOnce(w: Bytes, c: nat)
    requires c == Scan(w, 0, IsComma)
    ensures Tokens(w) == if c == |w| then MemberToken(w) else MemberToken(w[..c]) + Tokens(w[c + 1..])
  {
    hide MemberToken, Scan;
  }

  /** A member that starts with neither: its token, then the rest from its comma on. */
  lemma MemberStep(w: Bytes, s: nat, c: nat)
    requires |w| > 0 && !IsBlank(w[0]) && !IsComma(w[0])
    requires c == Scan(w, 0, IsComma) && s == Scan(w, 0, EndsToken)
    ensures s <= c
    ensures Tokens(w) == (if TrimEnd(w[..s]) == "" then [] else [TrimEnd(w[..s])]) + Tokens(w[c..])
  {
    hide TrimEnd, Scan, MemberToken, Tokens;
    ScanAtMost(w, 0, c, EndsToken);
    TokensOnce(w, c);
    var m := w[..c];
    assert m[..s] == w[..s];
    MemberTokenIs(m, s);
    if c == |w| {
      assert m == w && w[c..] == "";
      TokensOfNothing();
    } else {
      assert IsComma(w[c..][0]) && w[c..][1..] == w[c + 1..];
      LeadingComma(w[c..]);
    }
  }

  lemma TokensOfNothing()
    ensures Tokens("") == []
  {
    assert Scan("", 0, IsComma) == 0 && Scan("", 0, IsSemicolon) == 0;
  }

  /** Scanning the whole line with the line breaks as extra stops is scanning the value. */
  lemma CutScan(v: Bytes, p: nat, q: nat, stop: char -> bool, both: char -> bool)
    requires forall d :: both(d) <==> stop(d) || IsBreak(d)
    requires p <= |ValueOf(v)| && q == Scan(v, p, both)
    ensures q == Scan(ValueOf(v), p, stop)
  {
    var n := |ValueOf(v)|;
    ScanAtMost(v, p, n, both);
    assert q < n ==> !IsBreak(v[q]);
    ScanIs(ValueOf(v), p, q, stop);
  }

  /** The leading blanks and commas of the value, skipped. */
  method SkipSeparators(v: Bytes, p0: nat) returns (p: nat)
    requires p0 <= |ValueOf(v)|
    ensures p0 <= p <= |ValueOf(v)| && Tokens(ValueOf(v)[p..]) == Tokens(ValueOf(v)[p0..])
    ensures p < |ValueOf(v)| ==> !IsBlank(v[p]) && !IsComma(v[p])
  {
    hide Tokens;
    p := p0;
    ghost var w := ValueOf(v);
    while p < |v| && (v[p] == ' ' || v[p] == '\t' || v[p] == ',')
      invariant p0 <= p <= |w| && Tokens(w[p..]) == Tokens(w[p0..])
    {
      assert w[p..][0] == v[p] && w[p..][1..] == w[p + 1..];
      if IsBlank(v[p]) { LeadingBlank(w[p..]); } else { LeadingComma(w[p..]); }
      p := p + 1;
    }
  }

  /** The trailing blanks of v[ts..s], dropped. */
  method TrimBack(v: Bytes, ts: nat, s: nat) returns (te: nat)
    requires ts <= s <= |v|
    ensures ts <= te <= s && v[ts..te] == TrimEnd(v[ts..s])
  {
    hide TrimEnd;
    te := s;
    while te > ts && (v[te - 1] == ' ' || v[te - 1] == '\t')
      invariant ts <= te <= s && TrimEnd(v[ts..te]) == TrimEnd(v[ts..s])
    {
      TrimOne(v[ts..te]);
      assert v[ts..te][..te - ts - 1] == v[ts..te - 1];
      te := te - 1;
    }
    TrimOne(v[ts..te]);
  }

  lemma SliceOfValue(v: Bytes, p: nat, q: nat)
    requires p <= q <= |ValueOf(v)|
    ensures |ValueOf(v)| <= |v| && v[p..q] == ValueOf(v)[p..q]
  {
  }

  /** One member from ts on: the end of its token and the start of what follows. */
  method NextMember(v: Bytes, ts: nat) returns (te: nat, next: nat)
    requires ts < |ValueOf(v)| && !IsBlank(v[ts]) && !IsComma(v[ts])
    ensures ts <= te <= next <= |ValueOf(v)| && ts < next
    ensures Tokens(ValueOf(v)[ts..]) == (if te == ts then [] else [v[ts..te]]) + Tokens(ValueOf(v)[next..])
  {
    hide Tokens, TrimEnd, Scan;
    ghost var w := ValueOf(v);
    var p := Skip(v, ts, EndsTokenOrLine);
    CutScan(v, ts, p, EndsToken, EndsTokenOrLine);
    ghost var s := p;
    SliceOfValue(v, ts, p);
    te := TrimBack(v, ts, p);
    next := Skip(v, p, EndsMemberOrLine);
    CutScan(v, p, next, IsComma, EndsMemberOrLine);
    MemberAt(w, ts, s, next);
  }

  lemma TrimOne(t: Bytes)
    ensures TrimEnd(t) == if |t| > 0 && IsBlank(t[|t| - 1]) then TrimEnd(t[..|t| - 1]) else t
  {
  }

  lemma CommaAfterToken(w: Bytes, ts: nat, s: nat, c: nat)
    requires ts <= |w| && s == Scan(w, ts, EndsToken) && c == Scan(w, s, IsComma)
    ensures c == Scan(w, ts, IsComma)
  {
    ScanIs(w, ts, c, IsComma);
  }

  lemma MemberAt(w: Bytes, ts: nat, s: nat, c: nat)
    requires ts < |w| && !IsBlank(w[ts]) && !IsComma(w[ts])
    requires s == Scan(w, ts, EndsToken) && c == Scan(w, s, IsComma)
    ensures ts < c
    ensures Tokens(w[ts..]) == (if TrimEnd(w[ts..s]) == "" then [] else [TrimEnd(w[ts..s])]) + Tokens(w[c..])
  {
    hide *;
    CommaAfterToken(w, ts, s, c);
    ScanDrop(w, ts, 0, IsComma);
    ScanDrop(w, ts, 0, EndsToken);
    MemberStep(w[ts..], s - ts, c - ts);
    assert w[ts..][..s - ts] == w[ts..s] && w[ts..][c - ts..] == w[c..];
  }

  lemma AnyIsGrows(seen: seq<Bytes>, t: Bytes, word: Bytes)
    ensures AnyIs(seen + [t], word) == (AnyIs(seen, word) || TokEq(t, word))
  {
    hide TokEq;
    var all := seen + [t];
    assert all[|seen|] == t;
    if AnyIs(seen, word) {
      var u :| u in seen && TokEq(u, word);
      assert u in all;
    }
    if AnyIs(all, word) {
      var u :| u in all && TokEq(u, word);
      assert u in seen || u == t;
    }
  }

  lemma AnyOtherGrows(seen: seq<Bytes>, t: Bytes, word: Bytes, word2: Option<Bytes>)
    ensures AnyOther(seen + [t], word, word2) == (AnyOther(seen, word, word2) || Neither(t, word, word2))
  {
    hide Neither;
    var all := seen + [t];
    assert all[|seen|] == t;
    if AnyOther(seen, word, word2) {
      var u :| u in seen && Neither(u, word, word2);
      assert u in all;
    }
    if AnyOther(all, word, word2) {
      var u :| u in all && Neither(u, word, word2);
      assert u in seen || u == t;
    }
  }

  lemma FlagsGrow(seen: seq<Bytes>, t: Bytes, word: Bytes, word2: Option<Bytes>)
    ensures var f, g := FlagsOf(seen, word, word2), FlagsOf(seen + [t], word, word2);
      && g.has == (f.has || TokEq(t, word)) && g.last == TokEq(t, word)
      && g.other == (f.other || Neither(t, word, word2))
  {
    hide TokEq, Neither, AnyIs, AnyOther;
    AnyIsGrows(seen, t, word);
    AnyOtherGrows(seen, t, word, word2);
  }

  /** kernel/httpresp.h hr_value_tokens: the flags of the list of tokens, never of a substring. */
  method ValueTokens(v: Bytes, word: Bytes, word2: Option<Bytes>) returns (f: Flags)
    ensures f == FlagsOf(Tokens(ValueOf(v)), word, word2)
  {
    hide *;
    ghost var w := ValueOf(v);
    ghost var seen: seq<Bytes> := [];
    var p := 0;
    var has, lastIs, other := false, false, false;
    assert w[0..] == w;
    FlagsOfNone(word, word2);
    while true
      invariant p <= |w| && Tokens(w) == seen + Tokens(w[p..])
      invariant Flags(has, lastIs, other) == FlagsOf(seen, word, word2)
      decreases |w| - p
    {
      p := SkipSeparators(v, p);
      ValueEnd(v, p);
      if p >= |v| || IsBreak(v[p]) {
        break;
      }
      var te, next := NextMember(v, p);
      if te != p {
        var t := v[p..te];
        FlagsGrow(seen, t, word, word2);
        NeitherIs(t, word, word2);
        if TokEq(t, word) {
          has := true;
          lastIs := true;
        } else {
          lastIs := false;
          if !(word2.Some? && TokEq(t, word2.value)) { other := true; }
        }
        seen := seen + [t];
      }
      p := next;
    }
    assert w[p..] == "";
    TokensOfNothing();
    assert seen + [] == seen;
    f := Flags(has, lastIs, other);
  }

  lemma NeitherIs(t: Bytes, word: Bytes, word2: Option<Bytes>)
    ensures Neither(t, word, word2) == (!TokEq(t, word) && !(word2.Some? && TokEq(t, word2.value)))
    ensures TokEq(t, word) ==> !Neither(t, word, word2)
  {
  }

  lemma FlagsOfNone(word: Bytes, word2: Option<Bytes>)
    ensures FlagsOf([], word, word2) == Flags(false, false, false)
  {
    var none: seq<Bytes> := [];
    assert forall t :: t !in none;
    assert !AnyIs(none, word) && !AnyOther(none, word, word2);
  }

  lemma ValueEnd(v: Bytes, p: nat)
    requires p <= |ValueOf(v)|
    ensures |ValueOf(v)| <= |v|
    ensures (p >= |v| || IsBreak(v[p])) == (p == |ValueOf(v)|)
  {
  }

  // ---------- header lines ----------

  predicate NotBlank(c: char) {
    !IsBlank(c)
  }

  predicate NotDigit(c: char) {
    !IsDigit(c)
  }

  predicate IsLineFeed(c: char) {
    c == '\n'
  }

  predicate EndsWord(c: char) {
    c == ' ' || c == '\n'
  }

  predicate NotSpace(c: char) {
    c != ' '
  }

  /** The value of a header line, if the line is that header (name is in lower case). */
  function ValueFor(line: Bytes, name: Bytes): Option<Bytes> {
    if |line| > |name| && LowerAll(line[..|name|]) == name && line[|name|] == ':'
    then Some(line[Scan(line, |name| + 1, NotBlank)..]) else None
  }

  /** kernel/httpresp.h hr_header_value. */
  method HeaderValue(line: Bytes, name: Bytes) returns (v: Option<Bytes>)
    ensures v == ValueFor(line, name)
  {
    hide Scan, Lower;
    var k := 0;
    while k < |name|
      invariant k <= |name| && k <= |line| && LowerAll(line[..k]) == name[..k]
    {
      if k >= |line| || Lower(line[k]) != name[k] {
        if k < |line| && |line| >= |name| {
          assert LowerAll(line[..|name|])[k] == Lower(line[k]);
        }
        return None;
      }
      assert LowerAll(line[..k + 1]) == LowerAll(line[..k]) + [Lower(line[k])];
      assert name[..k + 1] == name[..k] + [name[k]];
      k := k + 1;
    }
    assert name[..|name|] == name;
    if k >= |line| || line[k] != ':' {
      return None;
    }
    var p := Skip(line, k + 1, NotBlank);
    v := Some(line[p..]);
  }

  /** The leading decimal digits of s, as a number. */
  function Decimal(s: Bytes, acc: nat): nat {
    if |s| == 0 || !IsDigit(s[0]) then acc else Decimal(s[1..], 10 * acc + (s[0] as int - '0' as int))
  }

  lemma {:induction false} DecimalSteps(s: Bytes, a: nat, b: nat)
    requires a % U32 == b % U32
    ensures Decimal(s, a) % U32 == Decimal(s, b) % U32
    decreases |s|
  {
    if |s| > 0 && IsDigit(s[0]) {
      var d := s[0] as int - '0' as int;
      TimesTen(a, b, d);
      DecimalSteps(s[1..], 10 * a + d, 10 * b + d);
    }
  }

  lemma TimesTen(a: nat, b: nat, d: int)
    requires a % U32 == b % U32
    ensures (10 * a + d) % U32 == (10 * b + d) % U32
  {
    var k := a / U32 - b / U32;
    assert 10 * a + d == (10 * b + d) + 10 * k * U32;
  }

  /** The u32 accumulation of content-length: the number modulo 2^32. */
  method DecimalU32(s: Bytes) returns (n: nat)
    ensures n == Decimal(s, 0) % U32
  {
    hide Decimal;
    n := 0;
    var p := 0;
    assert s[0..] == s;
    while p < |s| && '0' <= s[p] <= '9'
      invariant p <= |s| && n < U32 && Decimal(s[p..], n) % U32 == Decimal(s, 0) % U32
    {
      var m := 10 * n + (s[p] as int - '0' as int);
      DecimalOne(s, p, n);
      ModTwice(m);
      DecimalSteps(s[p + 1..], m, m % U32);
      n := m % U32;
      p := p + 1;
    }
    DecimalOne(s, p, n);
    ModTwice(n);
  }

  lemma ModTwice(m: nat)
    ensures m % U32 % U32 == m % U32 && (m < U32 ==> m % U32 == m)
  {
  }

  lemma DecimalOne(s: Bytes, p: nat, acc: nat)
    requires p <= |s|
    ensures Decimal(s[p..], acc)
      == if p < |s| && '0' <= s[p] <= '9' then Decimal(s[p + 1..], 10 * acc + (s[p] as int - '0' as int)) else acc
  {
    if p < |s| {
      assert s[p..][0] == s[p] && s[p..][1..] == s[p + 1..];
    }
  }

  /** kernel/httpresp.h hr_copy_value: the value without trailing blanks, cut to the field. */
  function Copied(v: Bytes, size: nat): Bytes
    requires size > 0
  {
    var w := ValueOf(v);
    TrimEnd(if |w| < size then w else w[..size - 1])
  }

  method CopyValue(v: Bytes, size: nat) returns (dst: Bytes)
    requires size > 0
    ensures dst == Copied(v, size)
  {
    hide Scan, TrimEnd, Copied;
    ghost var w := ValueOf(v);
    dst := "";
    var p := 0;
    while p < |v| && |dst| + 1 < size && !IsBreak(v[p])
      invariant p <= |w| && |dst| == p < size && dst == v[..p]
    {
      dst := dst + [v[p]];
      p := p + 1;
    }
    CopiedIs(v, size, p);
    ghost var full := dst;
    while |dst| > 0 && (dst[|dst| - 1] == ' ' || dst[|dst| - 1] == '\t')
      invariant TrimEnd(dst) == TrimEnd(full)
    {
      TrimOne(dst);
      dst := dst[..|dst| - 1];
    }
    TrimOne(dst);
  }

  lemma CopiedIs(v: Bytes, size: nat, p: nat)
    requires p < size && p <= |ValueOf(v)|
    requires p >= |v| || p + 1 >= size || IsBreak(v[p])
    ensures Copied(v, size) == TrimEnd(v[..p])
  {
    hide TrimEnd;
    var w := ValueOf(v);
    assert (if |w| < size then w else w[..size - 1]) == v[..p];
  }

  /** What one header line adds. */
  ghost function LineEffect(info: Info, line: Bytes): Info {
    var cl, te, ce := ValueFor(line, "content-length"), ValueFor(line, "transfer-encoding"), ValueFor(line, "content-encoding");
    var lo, ct := ValueFor(line, "location"), ValueFor(line, "content-type");
    if cl.Some? then info.(haveClen := true, clen := Decimal(cl.value, 0) % U32)
    else if te.Some? then CodingEffect(info, FlagsOf(Tokens(ValueOf(te.value)), "chunked", Some("identity")))
    else if ce.Some? then
      info.(encoded := info.encoded || FlagsOf(Tokens(ValueOf(ce.value)), "identity", None).other)
    else if lo.Some? then info.(location := Copied(lo.value, LOCATION_MAX))
    else if ct.Some? then info.(contentType := Copied(ct.value, CTYPE_MAX))
    else info
  }

  /** chunked only counts as the final coding; any coding that cannot be undone marks the body encoded. */
  function CodingEffect(info: Info, f: Flags): Info {
    info.(chunked := info.chunked || (f.has && f.last), encoded := info.encoded || f.other || (f.has && !f.last))
  }

  /** One iteration of the header loop. */
  method ParseLine(info0: Info, line: Bytes) returns (info: Info)
    ensures info == LineEffect(info0, line)
  {
    hide ValueFor, Decimal, FlagsOf, Tokens, ValueOf, Copied;
    info := info0;
    var v := HeaderValue(line, "content-length");
    if v.Some? {
      var n := DecimalU32(v.value);
      info := info.(haveClen := true, clen := n);
      return;
    }
    v := HeaderValue(line, "transfer-encoding");
    if v.Some? {
      var f := ValueTokens(v.value, "chunked", Some("identity"));
      if f.has && f.last { info := info.(chunked := true); }
      if f.other { info := info.(encoded := true); }
      if f.has && !f.last { info := info.(encoded := true); }
      return;
    }
    v := HeaderValue(line, "content-encoding");
    if v.Some? {
      var f := ValueTokens(v.value, "identity", None);
      if f.other { info := info.(encoded := true); }
      return;
    }
    v := HeaderValue(line, "location");
    if v.Some? {
      var l := CopyValue(v.value, LOCATION_MAX);
      info := info.(location := l);
      return;
    }
    v := HeaderValue(line, "content-type");
    if v.Some? {
      var c := CopyValue(v.value, CTYPE_MAX);
      info := info.(contentType := c);
    }
  }

  /** The lines of h from p on, without their line feeds. */
  function Lines(h: Bytes, p: nat): seq<Bytes>
    requires p <= |h|
    decreases |h| - p
  {
    if p == |h| then []
    else
      var e := Scan(h, p, IsLineFeed);
      [h[p..e]] + Lines(h, if e < |h| then e + 1 else |h|)
  }

  ghost function Effects(info: Info, lines: seq<Bytes>): Info
    decreases |lines|
  {
    if |lines| == 0 then info else hide LineEffect; Effects(LineEffect(info, lines[0]), lines[1..])
  }

  /** Where the status code starts and where the header lines start. */
  function StatusAt(h: Bytes): (p: nat)
    ensures p <= |h|
  {
    Scan(h, Scan(h, 0, EndsWord), NotSpace)
  }

  function LinesAt(h: Bytes): (p: nat)
    ensures p <= |h|
  {
    var e := Scan(h, Scan(h, StatusAt(h), NotDigit), IsLineFeed);
    if e < |h| then e + 1 else e
  }

  function StatusOf(h: Bytes): nat {
    Decimal(h[StatusAt(h)..], 0)
  }

  ghost function HeadersOf(h: Bytes): Info {
    Effects(NO_INFO.(status := StatusOf(h)), Lines(h, LinesAt(h)))
  }

  /** The status code, and the position after its digits. */
  method ParseStatus(h: Bytes) returns (code: nat, p: nat)
    requires StatusOf(h) <= 0x7FFF_FFFF
    ensures code == StatusOf(h) && p == Scan(h, StatusAt(h), NotDigit)
  {
    hide *;
    StatusParts(h);
    p := Skip(h, 0, EndsWord);
    p := Skip(h, p, NotSpace);
    code := 0;
    while p < |h| && '0' <= h[p] <= '9'
      invariant StatusAt(h) <= p <= |h| && Decimal(h[p..], code) == StatusOf(h)
      invariant Scan(h, p, NotDigit) == Scan(h, StatusAt(h), NotDigit)
    {
      DecimalOne(h, p, code);
      DigitScan(h, p);
      code := 10 * code + (h[p] as int - '0' as int);
      p := p + 1;
    }
    DecimalOne(h, p, code);
    DigitScan(h, p);
  }

  /** kernel/httpresp.h hr_parse_headers over the header block h.  The status code must fit
      the C int it is accumulated in. */
  method ParseHeaders(h: Bytes) returns (info: Info)
    requires StatusOf(h) <= 0x7FFF_FFFF
    ensures info == HeadersOf(h)
  {
    hide *;
    StatusParts(h);
    var code, p := ParseStatus(h);
    info := NO_INFO.(status := code);
    p := Skip(h, p, IsLineFeed);
    if p < |h| { p := p + 1; }
    ghost var goal := HeadersOf(h);
    while p < |h|
      invariant p <= |h| && Effects(info, Lines(h, p)) == goal
    {
      var e := Skip(h, p, IsLineFeed);
      LinesStep(info, h, p, e);
      info := ParseLine(info, h[p..e]);
      p := if e < |h| then e + 1 else |h|;
    }
    EffectsDone(info, h, p);
  }

  lemma StatusParts(h: Bytes)
    ensures StatusAt(h) == Scan(h, Scan(h, 0, EndsWord), NotSpace)
    ensures StatusOf(h) == Decimal(h[StatusAt(h)..], 0)
    ensures LinesAt(h) == (var e := Scan(h, Scan(h, StatusAt(h), NotDigit), IsLineFeed); if e < |h| then e + 1 else e)
    ensures HeadersOf(h) == Effects(NO_INFO.(status := StatusOf(h)), Lines(h, LinesAt(h)))
  {
  }

  lemma DigitScan(h: Bytes, p: nat)
    requires p <= |h|
    ensures Scan(h, p, NotDigit) == if p < |h| && '0' <= h[p] <= '9' then Scan(h, p + 1, NotDigit) else p
  {
  }

  lemma LinesStep(info: Info, h: Bytes, p: nat, e: nat)
    requires p < |h| && e == Scan(h, p, IsLineFeed)
    ensures p <= e <= |h|
    ensures Effects(info, Lines(h, p)) == Effects(LineEffect(info, h[p..e]), Lines(h, if e < |h| then e + 1 else |h|))
  {
    hide LineEffect;
    var rest := Lines(h, if e < |h| then e + 1 else |h|);
    assert ([h[p..e]] + rest)[1..] == rest;
  }

  lemma EffectsDone(info: Info, h: Bytes, p: nat)
    requires p == |h|
    ensures Effects(info, Lines(h, p)) == info
  {
  }

  /** A line that makes the body chunked: chunked is its final transfer coding (RFC 7230
      section 3.3.1), as a whole token and not as a substring. */
  ghost predicate NamesChunkedLast(line: Bytes) {
    && ValueFor(line, "content-length").None? && ValueFor(line, "transfer-encoding").Some?
    && var ts := Tokens(ValueOf(ValueFor(line, "transfer-encoding").value));
       |ts| > 0 && LowerAll(ts[|ts| - 1]) == "chunked"
  }

  lemma LineChunks(info: Info, line: Bytes)
    ensures LineEffect(info, line).chunked == (info.chunked || NamesChunkedLast(line))
  {
    hide ValueFor, Tokens, ValueOf, Copied, Decimal, AnyOther;
    if ValueFor(line, "transfer-encoding").Some? {
      var ts := Tokens(ValueOf(ValueFor(line, "transfer-encoding").value));
      if |ts| > 0 && TokEq(ts[|ts| - 1], "chunked") {
        assert AnyIs(ts, "chunked");
      }
    }
  }

  lemma {:induction false} EffectsChunked(info: Info, lines: seq<Bytes>)
    ensures Effects(info, lines).chunked <==> info.chunked || exists l :: l in lines && NamesChunkedLast(l)
    decreases |lines|
  {
    hide LineEffect, NamesChunkedLast;
    if |lines| > 0 {
      var l0, rest := lines[0], lines[1..];
      LineChunks(info, l0);
      EffectsChunked(LineEffect(info, l0), rest);
      assert forall l :: l in lines <==> l == l0 || l in rest;
    }
  }

  /** The body is chunked exactly when some header line names chunked as its final coding. */
  lemma ChunkedExactlyWhen(h: Bytes)
    ensures HeadersOf(h).chunked <==> exists l :: l in Lines(h, LinesAt(h)) && NamesChunkedLast(l)
  {
    hide NamesChunkedLast, Lines, LinesAt, StatusOf;
    EffectsChunked(NO_INFO.(status := StatusOf(h)), Lines(h, LinesAt(h)));
  }

  /** A line that makes the body one that cannot be shown: it names a coding other than chunked and
      identity, or applies another one on top of chunked. */
  ghost predicate NamesUnknown(line: Bytes) {
    var te, ce := ValueFor(line, "transfer-encoding"), ValueFor(line, "content-encoding");
    && ValueFor(line, "content-length").None?
    && if te.Some? then
         var ts := Tokens(ValueOf(te.value));
         || (exists t :: t in ts && LowerAll(t) != "chunked" && LowerAll(t) != "identity")
         || (|ts| > 0 && LowerAll(ts[|ts| - 1]) != "chunked" && exists t :: t in ts && LowerAll(t) == "chunked")
       else ce.Some? && exists t :: t in Tokens(ValueOf(ce.value)) && LowerAll(t) != "identity"
  }

  lemma LineEncodes(info: Info, line: Bytes)
    ensures LineEffect(info, line).encoded == (info.encoded || NamesUnknown(line))
  {
    hide ValueFor, Tokens, ValueOf, Copied, Decimal;
  }

  lemma {:induction false} EffectsEncoded(info: Info, lines: seq<Bytes>)
    ensures Effects(info, lines).encoded <==> info.encoded || exists l :: l in lines && NamesUnknown(l)
    decreases |lines|
  {
    hide LineEffect, NamesUnknown;
    if |lines| > 0 {
      var l0, rest := lines[0], lines[1..];
      LineEncodes(info, l0);
      EffectsEncoded(LineEffect(info, l0), rest);
      assert forall l :: l in lines <==> l == l0 || l in rest;
    }
  }

  /** The body is marked as encoded exactly when some header line asks for that. */
  lemma EncodedExactlyWhen(h: Bytes)
    ensures HeadersOf(h).encoded <==> exists l :: l in Lines(h, LinesAt(h)) && NamesUnknown(l)
  {
    hide NamesUnknown, Lines, LinesAt, StatusOf;
    EffectsEncoded(NO_INFO.(status := StatusOf(h)), Lines(h, LinesAt(h)));
  }
}
