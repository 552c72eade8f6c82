/** kernel/httpresp.h: whole responses, written as RFC 7230 writes them and read back by the calls
    of hr_feed and hr_finish, however the bytes are cut. */
module HttpMessage {
  import opened Options
  import opened HttpHeaders
  import opened HttpResp
  import opened Scanning

  // ---------- numbers, lists and header lines are read back ----------

  function DecDigit(v: nat): char
    requires v < 10
  {
    ('0' as int + v) as char
  }

  function DecOf(n: nat): (s: Bytes)
    ensures |s| >= 1
  {
    if n < 10 then [DecDigit(n)] else DecOf(n / 10) + [DecDigit(n % 10)]
  }

  lemma {:induction false} DecAppend(s: Bytes, d: char, rest: Bytes, acc: nat)
    requires (forall k :: 0 <= k < |s| ==> IsDigit(s[k])) && IsDigit(d) && (|rest| > 0 ==> !IsDigit(rest[0]))
    ensures Decimal(s + [d] + rest, acc) == 10 * Decimal(s, acc) + (d as int - '0' as int)
    decreases |s|
  {
    if |s| == 0 {
      assert s + [d] + rest == [d] + rest && ([d] + rest)[1..] == rest;
    } else {
      assert (s + [d] + rest)[1..] == s[1..] + [d] + rest;
      DecAppend(s[1..], d, rest, 10 * acc + (s[0] as int - '0' as int));
    }
  }

  lemma {:induction false} DecDigits(n: nat)
    ensures forall k :: 0 <= k < |DecOf(n)| ==> IsDigit(DecOf(n)[k])
  {
    if n >= 10 {
      DecDigits(n / 10);
    }
  }

  /** A number written in decimal is read back, whatever stands behind it. */
  lemma {:induction false} DecimalRoundTrip(n: nat, rest: Bytes)
    requires |rest| > 0 ==> !IsDigit(rest[0])
    ensures Decimal(DecOf(n) + rest, 0) == n
  {
    if n < 10 {
      assert "" + [DecDigit(n)] + rest == DecOf(n) + rest;
      DecAppend("", DecDigit(n), rest, 0);
    } else {
      DecDigits(n / 10);
      DecimalRoundTrip(n / 10, "");
      assert DecOf(n / 10) + "" == DecOf(n / 10);
      DecAppend(DecOf(n / 10), DecDigit(n % 10), rest, 0);
    }
  }

  /** A member of a list: a token and its parameters, which a semicolon starts. */
  datatype Member = Member(token: Bytes, params: Bytes) {
    ghost predicate Valid() {
      && |token| > 0 && (forall k :: 0 <= k < |token| ==> !IsBlank(token[k]) && !EndsTokenOrLine(token[k]))
      && (|params| > 0 ==> params[0] == ';') && (forall k :: 0 <= k < |params| ==> !EndsMemberOrLine(params[k]))
    }
  }

  function Listed(ms: seq<Member>): Bytes {
    if |ms| == 0 then ""
    else if |ms| == 1 then ms[0].token + ms[0].params
    else ms[0].token + ms[0].params + ", " + Listed(ms[1..])
  }

  function TokensOf(ms: seq<Member>): seq<Bytes> {
    seq(|ms|, k requires 0 <= k < |ms| => ms[k].token)
  }

  lemma {:induction false} NoTrim(t: Bytes)
    requires |t| > 0 ==> !IsBlank(t[|t| - 1])
    ensures TrimEnd(t) == t
  {
  }

  lemma MemberRead(m: Member)
    requires m.Valid()
    ensures MemberToken(m.token + m.params) == [m.token]
  {
    hide TrimEnd, MemberToken;
    var w, s := m.token + m.params, |m.token|;
    assert w[..s] == m.token && w[0] == m.token[0];
    NoTrim(m.token);
    MemberTokenIs(w, s);
  }

  /** A list of members is read as its tokens, without their parameters. */
  lemma {:induction false} ListRoundTrip(ms: seq<Member>)
    requires forall k :: 0 <= k < |ms| ==> ms[k].Valid()
    ensures Tokens(Listed(ms)) == TokensOf(ms)
    decreases |ms|
  {
    hide MemberToken, Tokens;
    if |ms| == 0 {
      TokensOfNothing();
    } else {
      var m, w := ms[0].token + ms[0].params, Listed(ms);
      MemberRead(ms[0]);
      var t, u := ms[0].token, ms[0].params;
      assert forall k :: 0 <= k < |m| ==> m[k] == if k < |t| then t[k] else u[k - |t|];
      if |ms| == 1 {
        ScanIs(w, 0, |m|, IsComma);
        TokensOnce(w, |m|);
      } else {
        var rest := Listed(ms[1..]);
        assert w == m + ", " + rest && w[..|m|] == m && w[|m|] == ',' && w[|m| + 1..] == " " + rest;
        ScanIs(w, 0, |m|, IsComma);
        TokensOnce(w, |m|);
        LeadingBlank(" " + rest);
        assert (" " + rest)[1..] == rest;
        ListRoundTrip(ms[1..]);
        assert [ms[0].token] + TokensOf(ms[1..]) == TokensOf(ms);
      }
    }
  }

  /** A header field: its name in any case, its value without line breaks or a leading blank. */
  datatype Field = Field(name: Bytes, value: Bytes) {
    ghost predicate Valid() {
      && |name| > 0 && (forall k :: 0 <= k < |name| ==> name[k] != ':' && !IsBreak(name[k]))
      && (forall k :: 0 <= k < |value| ==> !IsBreak(value[k])) && (|value| > 0 ==> !IsBlank(value[0]))
    }

    function Line(): Bytes {
      name + ": " + value + "\r"
    }

    predicate Is(word: Bytes) {
      LowerAll(name) == word
    }
  }

  /** A field answers to its own name, in any case, and to no other. */
  lemma FieldRead(f: Field, word: Bytes)
    requires f.Valid() && forall k :: 0 <= k < |word| ==> word[k] != ':'
    ensures ValueFor(f.Line(), word) == if f.Is(word) then Some(f.value + "\r") else None
  {
    hide Scan, Lower;
    var line, n := f.Line(), |f.name|;
    assert line[..n] == f.name && line[n] == ':' && line[n + 1] == ' ' && line[n + 2..] == f.value + "\r";
    if f.Is(word) {
      assert !IsBlank(line[n + 2]) by {
        assert line[n + 2] == (f.value + "\r")[0];
      }
      ScanIs(line, n + 1, n + 2, NotBlank);
    } else if |word| > n && |word| < |line| {
      LowerColon();
      assert LowerAll(line[..|word|])[n] == Lower(line[n]);
    } else if |word| < n {
      assert line[|word|] == f.name[|word|];
    }
  }

  lemma LowerColon()
    ensures Lower(':') == ':'
  {
  }

  // ---------- the header block is read back ----------

  function FieldLines(fs: seq<Field>): Bytes {
    if |fs| == 0 then "" else fs[0].Line() + "\n" + FieldLines(fs[1..])
  }

  function StatusLine(code: nat, reason: Bytes): Bytes {
    "HTTP/1.1 " + DecOf(code) + " " + reason + "\r\n"
  }

  /** The status line, the fields and the blank line. */
  function Head(code: nat, reason: Bytes, fs: seq<Field>): Bytes {
    StatusLine(code, reason) + FieldLines(fs) + "\r\n"
  }

  ghost predicate Wellformed(reason: Bytes, fs: seq<Field>) {
    && (forall k :: 0 <= k < |reason| ==> !IsBreak(reason[k]))
    && (forall k :: 0 <= k < |fs| ==> fs[k].Valid())
  }

  function LinesOf(fs: seq<Field>): seq<Bytes> {
    if |fs| == 0 then [] else [fs[0].Line()] + LinesOf(fs[1..])
  }

  lemma LineIs(f: Field)
    requires f.Valid()
    ensures forall k :: 0 <= k < |f.Line()| - 1 ==> !IsBreak(f.Line()[k])
    ensures |f.Line()| > 1 && f.Line()[|f.Line()| - 1] == '\r'
  {
  }

  lemma OneLine(h: Bytes, p: nat, line: Bytes, rest: Bytes)
    requires p <= |h| && h[p..] == line + "\n" + rest && forall k :: 0 <= k < |line| ==> line[k] != '\n'
    ensures p + |line| + 1 <= |h| && h[p + |line| + 1..] == rest
    ensures Lines(h, p) == [line] + Lines(h, p + |line| + 1)
  {
    hide Scan;
    var e, t := p + |line|, h[p..];
    assert |t| == |line| + 1 + |rest| && t[|line|] == '\n' && t[..|line|] == line && t[|line| + 1..] == rest;
    assert forall k :: 0 <= k < |t| ==> h[p + k] == t[k];
    assert h[p..e] == t[..|line|] && h[e + 1..] == t[|line| + 1..];
    assert forall k :: p <= k < e ==> h[k] == line[k - p];
    ScanIs(h, p, e, IsLineFeed);
  }

  lemma {:induction false} FieldsAreLines(h: Bytes, p: nat, fs: seq<Field>)
    requires p <= |h| && h[p..] == FieldLines(fs) + "\r\n" && forall k :: 0 <= k < |fs| ==> fs[k].Valid()
    ensures Lines(h, p) == LinesOf(fs) + ["\r"]
    decreases |fs|
  {
    hide Lines;
    if |fs| == 0 {
      assert h[p..] == "\r" + "\n" + "";
      OneLine(h, p, "\r", "");
      NoLines(h, p + 2);
    } else {
      var line, rest := fs[0].Line(), FieldLines(fs[1..]) + "\r\n";
      LineIs(fs[0]);
      assert h[p..] == line + "\n" + rest;
      hide Scan, FieldLines;
      NoFeed(fs[0]);
      OneLine(h, p, line, rest);
      FieldsAreLines(h, p + |line| + 1, fs[1..]);
    }
  }

  lemma NoFeed(f: Field)
    requires f.Valid()
    ensures forall k :: 0 <= k < |f.Line()| ==> f.Line()[k] != '\n'
  {
    LineIs(f);
  }

  lemma NoLines(h: Bytes, p: nat)
    requires p <= |h| && h[p..] == ""
    ensures Lines(h, p) == []
  {
  }

  lemma StatusRead(code: nat, reason: Bytes, rest: Bytes)
    requires forall k :: 0 <= k < |reason| ==> !IsBreak(reason[k])
    ensures var h := StatusLine(code, reason) + rest; StatusOf(h) == code && LinesAt(h) == |StatusLine(code, reason)|
  {
    hide Scan, DecOf, Decimal;
    var d, line := DecOf(code), StatusLine(code, reason);
    var h, n := line + rest, 9 + |DecOf(code)|;
    DecDigits(code);
    assert "HTTP/1.1 " == "HTTP/1.1" + " " && |"HTTP/1.1"| == 8;
    var w := "HTTP/1.1";
    assert w == ['H', 'T', 'T', 'P', '/', '1', '.', '1'];
    assert forall k :: 0 <= k < 8 ==> h[k] == w[k];
    assert h[8] == ' ' && h[9..] == d + (" " + reason + "\r\n" + rest);
    assert forall k :: 0 <= k < |d| ==> h[9 + k] == d[k];
    assert h[n] == ' ' && forall k :: 0 <= k < |reason| ==> h[n + 1 + k] == reason[k];
    assert |line| == n + 1 + |reason| + 2 && h[|line| - 2] == '\r' && h[|line| - 1] == '\n';
    ScanIs(h, 0, 8, EndsWord);
    ScanIs(h, 8, 9, NotSpace);
    ScanIs(h, 9, n, NotDigit);
    ScanIs(h, n, |line| - 1, IsLineFeed);
    DecimalRoundTrip(code, " " + reason + "\r\n" + rest);
  }

  /** The status code and the effects of the fields, in order, are what the header block says. */
  lemma HeadRead(code: nat, reason: Bytes, fs: seq<Field>)
    requires Wellformed(reason, fs)
    ensures HeadersOf(Head(code, reason, fs)) == Effects(NO_INFO.(status := code), LinesOf(fs))
  {
    var line, rest := StatusLine(code, reason), FieldLines(fs) + "\r\n";
    var h := Head(code, reason, fs);
    assert h == line + rest && h[|line|..] == rest;
    hide LinesAt, StatusOf, Lines, StatusLine, FieldLines, Head, LineEffect;
    StatusRead(code, reason, rest);
    FieldsAreLines(h, |line|, fs);
    EffectsJoin(NO_INFO.(status := code), LinesOf(fs), ["\r"]);
    BlankLine(Effects(NO_INFO.(status := code), LinesOf(fs)));
    assert ["\r"][1..] == [];
  }

  lemma BlankLine(info: Info)
    ensures LineEffect(info, "\r") == info
  {
    hide Scan;
    assert |"\r"| == 1 && |"location"| == 8 && |"content-type"| == 12;
    assert |"content-length"| == 14 && |"transfer-encoding"| == 17 && |"content-encoding"| == 16;
  }

  lemma {:induction false} EffectsJoin(info: Info, a: seq<Bytes>, b: seq<Bytes>)
    ensures Effects(info, a + b) == Effects(Effects(info, a), b)
    decreases |a|
  {
    hide LineEffect;
    if |a| == 0 {
      assert a + b == b;
    } else {
      assert (a + b)[1..] == a[1..] + b;
      EffectsJoin(LineEffect(info, a[0]), a[1..], b);
    }
  }

  lemma {:induction false} LinesJoin(a: seq<Field>, b: seq<Field>)
    ensures LinesOf(a + b) == LinesOf(a) + LinesOf(b)
    decreases |a|
  {
    if |a| == 0 {
      assert a + b == b;
    } else {
      assert (a + b)[1..] == a[1..] + b;
      LinesJoin(a[1..], b);
    }
  }

  /** A field that says nothing about where the body ends. */
  predicate Plain(f: Field) {
    !f.Is("content-length") && !f.Is("transfer-encoding")
  }

  lemma NoColons()
    ensures forall k :: 0 <= k < |"content-length"| ==> "content-length"[k] != ':'
    ensures forall k :: 0 <= k < |"transfer-encoding"| ==> "transfer-encoding"[k] != ':'
    ensures forall k :: 0 <= k < |"content-encoding"| ==> "content-encoding"[k] != ':'
    ensures forall k :: 0 <= k < |"location"| ==> "location"[k] != ':'
  {
    var a, b, c, d := "content-length", "transfer-encoding", "content-encoding", "location";
    assert ':' !in a && ':' !in b && ':' !in c && ':' !in d;
    assert forall k :: 0 <= k < |a| ==> a[k] in a;
    assert forall k :: 0 <= k < |b| ==> b[k] in b;
    assert forall k :: 0 <= k < |c| ==> c[k] in c;
    assert forall k :: 0 <= k < |d| ==> d[k] in d;
  }

  lemma PlainField(info: Info, f: Field)
    requires f.Valid() && Plain(f)
    ensures var r := LineEffect(info, f.Line());
      r.haveClen == info.haveClen && r.clen == info.clen && r.chunked == info.chunked
  {
    hide ValueFor, FlagsOf, Tokens, ValueOf, Copied, Decimal;
    NoColons();
    FieldRead(f, "content-length");
    FieldRead(f, "transfer-encoding");
  }

  lemma {:induction false} PlainFields(info: Info, fs: seq<Field>)
    requires forall k :: 0 <= k < |fs| ==> fs[k].Valid() && Plain(fs[k])
    ensures var r := Effects(info, LinesOf(fs));
      r.haveClen == info.haveClen && r.clen == info.clen && r.chunked == info.chunked
    decreases |fs|
  {
    hide LineEffect, Plain;
    if |fs| > 0 {
      PlainField(info, fs[0]);
      PlainFields(LineEffect(info, fs[0].Line()), fs[1..]);
    }
  }

  /** The field that counts, with plain ones before and behind it. */
  lemma AmongPlain(info: Info, a: seq<Field>, f: Field, b: seq<Field>)
    requires forall k :: 0 <= k < |a| ==> a[k].Valid() && Plain(a[k])
    requires forall k :: 0 <= k < |b| ==> b[k].Valid() && Plain(b[k])
    ensures var i := Effects(info, LinesOf(a)); var j := LineEffect(i, f.Line());
      var r := Effects(info, LinesOf(a + [f] + b));
      && i.haveClen == info.haveClen && i.clen == info.clen && i.chunked == info.chunked
      && r.haveClen == j.haveClen && r.clen == j.clen && r.chunked == j.chunked
  {
    var i := Effects(info, LinesOf(a));
    PlainFields(info, a);
    LinesJoin(a + [f], b);
    LinesJoin(a, [f]);
    assert LinesOf([f]) == [f.Line()] by { assert [f][1..] == []; }
    EffectsJoin(info, LinesOf(a) + [f.Line()], LinesOf(b));
    EffectsJoin(info, LinesOf(a), [f.Line()]);
    assert [f.Line()][1..] == [];
    hide LineEffect;
    assert Effects(i, [f.Line()]) == LineEffect(i, f.Line());
    PlainFields(LineEffect(i, f.Line()), b);
  }

  /** The field announces n bytes. */
  predicate NamesLength(f: Field, n: nat) {
    f.Is("content-length") && f.value == DecOf(n)
  }

  /** A length announced in decimal is the length read; it is kept modulo 2^32. */
  lemma LengthField(info: Info, f: Field, n: nat)
    requires f.Valid() && NamesLength(f, n) && n < 0x1_0000_0000
    ensures LineEffect(info, f.Line()) == info.(haveClen := true, clen := n)
  {
    hide ValueFor, FlagsOf, Tokens, ValueOf, Copied, Decimal;
    NoColons();
    FieldRead(f, "content-length");
    DecimalRoundTrip(n, "\r");
  }

  /** A coding list whose last token is chunked, in any case, makes the body chunked. */
  lemma CodingField(info: Info, f: Field)
    requires f.Valid() && NamesChunked(f)
    ensures LineEffect(info, f.Line()).chunked
  {
    hide *;
    CodingRead(f);
    ValueClean(f);
    LineChunks(info, f.Line());
    ChunkedLast(f.Line(), f.value + "\r", Tokens(f.value));
  }

  /** The last coding of the list is chunked, in any case. */
  predicate NamesChunked(f: Field) {
    f.Is("transfer-encoding") && var ts := Tokens(f.value); |ts| > 0 && LowerAll(ts[|ts| - 1]) == "chunked"
  }

  lemma ChunkedLast(line: Bytes, v: Bytes, ts: seq<Bytes>)
    requires ValueFor(line, "content-length").None? && ValueFor(line, "transfer-encoding") == Some(v)
    requires Tokens(ValueOf(v)) == ts && |ts| > 0 && LowerAll(ts[|ts| - 1]) == "chunked"
    ensures NamesChunkedLast(line)
  {
    hide ValueFor, Tokens, ValueOf, LowerAll;
  }

  lemma CodingRead(f: Field)
    requires f.Valid() && NamesChunked(f)
    ensures |Tokens(f.value)| > 0 && LowerAll(Tokens(f.value)[|Tokens(f.value)| - 1]) == "chunked"
    ensures ValueFor(f.Line(), "content-length").None?
    ensures ValueFor(f.Line(), "transfer-encoding") == Some(f.value + "\r")
  {
    hide ValueFor, LowerAll, Tokens;
    NoColons();
    FieldRead(f, "content-length");
    FieldRead(f, "transfer-encoding");
    assert |"content-length"| == 14 && |"transfer-encoding"| == 17;
  }

  lemma ValueClean(f: Field)
    requires f.Valid()
    ensures ValueOf(f.value + "\r") == f.value
  {
    hide Scan;
    ScanIs(f.value + "\r", 0, |f.value|, IsBreak);
  }

  /** A redirect's target is the value of its location, if the field of hr_t can hold it. */
  lemma LocationField(info: Info, f: Field)
    requires f.Valid() && f.Is("location") && |f.value| < 400
    requires |f.value| > 0 ==> !IsBlank(f.value[|f.value| - 1])
    ensures LineEffect(info, f.Line()) == info.(location := f.value)
  {
    hide ValueFor, ValueOf, Tokens, TrimEnd;
    NoColons();
    FieldRead(f, "content-length");
    FieldRead(f, "transfer-encoding");
    FieldRead(f, "content-encoding");
    FieldRead(f, "location");
    assert |"location"| == 8 && |"content-length"| == 14 && |"transfer-encoding"| == 17 && |"content-encoding"| == 16;
    ValueClean(f);
    NoTrim(f.value);
  }

  // ---------- where the header block ends ----------

  lemma {:induction false} FindBlankSkips(b: Bytes, p: nat, q: nat)
    requires p <= q && forall k :: p <= k < q ==> !BlankAt(b, k)
    ensures FindBlank(b, p) == FindBlank(b, q)
    decreases q - p
  {
    if p < q {
      FindBlankSkips(b, p + 1, q);
    }
  }

  /** A line behind the line end at e: nothing before its own line end can be the blank line. */
  lemma LineSkipped(b: Bytes, e: nat, line: Bytes, rest: Bytes)
    requires e + 2 <= |b| && CrlfAt(b, e) && b[e + 2..] == line + "\n" + rest
    requires |line| > 1 && line[|line| - 1] == '\r' && forall k :: 0 <= k < |line| - 1 ==> !IsBreak(line[k])
    ensures var q := e + 1 + |line|; CrlfAt(b, q) && b[q + 2..] == rest && FindBlank(b, e) == FindBlank(b, q)
  {
    var t, n := b[e + 2..], |line|;
    var q := e + 1 + n;
    assert |t| == n + 1 + |rest| && t[n] == '\n' && t[n + 1..] == rest;
    assert forall k :: 0 <= k < |t| ==> b[e + 2 + k] == t[k];
    assert forall k :: 0 <= k < n ==> t[k] == line[k];
    assert b[q] == t[n - 1] && b[q + 1] == t[n] && b[q + 2..] == t[n + 1..];
    assert forall k :: e + 2 <= k < q ==> b[k] == line[k - (e + 2)] && b[k] != '\r';
    FindBlankSkips(b, e, q);
  }

  lemma {:induction false} FieldsEnd(b: Bytes, e: nat, fs: seq<Field>, body: Bytes)
    requires e + 2 <= |b| && CrlfAt(b, e) && b[e + 2..] == FieldLines(fs) + "\r\n" + body
    requires forall k :: 0 <= k < |fs| ==> fs[k].Valid()
    ensures FindBlank(b, e) == Some(e + |FieldLines(fs)|)
    decreases |fs|
  {
    hide *;
    if |fs| == 0 {
      NoFields(fs, body);
      BlankHere(b, e, body);
    } else {
      FirstLine(fs, body);
      LineIs(fs[0]);
      LineSkipped(b, e, fs[0].Line(), FieldLines(fs[1..]) + "\r\n" + body);
      FieldsEnd(b, e + 1 + |fs[0].Line()|, fs[1..], body);
    }
  }

  lemma BlankHere(b: Bytes, e: nat, body: Bytes)
    requires e + 2 <= |b| && CrlfAt(b, e) && b[e + 2..] == "\r\n" + body
    ensures FindBlank(b, e) == Some(e)
  {
    var t := b[e + 2..];
    assert t[0] == '\r' && t[1] == '\n' && b[e + 2] == t[0] && b[e + 3] == t[1];
  }

  lemma NoFields(fs: seq<Field>, body: Bytes)
    requires |fs| == 0
    ensures FieldLines(fs) == "" && FieldLines(fs) + "\r\n" + body == "\r\n" + body
  {
  }

  lemma FirstLine(fs: seq<Field>, body: Bytes)
    requires |fs| > 0
    ensures FieldLines(fs) + "\r\n" + body == fs[0].Line() + "\n" + (FieldLines(fs[1..]) + "\r\n" + body)
    ensures |FieldLines(fs)| == |fs[0].Line()| + 1 + |FieldLines(fs[1..])|
  {
  }

  lemma StatusLineIs(code: nat, reason: Bytes)
    requires forall k :: 0 <= k < |reason| ==> !IsBreak(reason[k])
    ensures var line := StatusLine(code, reason); var n := |line|;
      n >= 2 && line[n - 2] == '\r' && line[n - 1] == '\n' && forall k :: 0 <= k < n - 2 ==> line[k] != '\r'
  {
    hide DecOf;
    var d := DecOf(code);
    DecDigits(code);
    var w := "HTTP/1.1 ";
    assert '\r' !in w && forall k :: 0 <= k < |w| ==> w[k] in w;
    var line := StatusLine(code, reason);
    assert forall k :: 0 <= k < |w| ==> line[k] == w[k];
    assert forall k :: 0 <= k < |d| ==> line[|w| + k] == d[k];
    assert line[|w| + |d|] == ' ';
    assert forall k :: 0 <= k < |reason| ==> line[|w| + |d| + 1 + k] == reason[k];
  }

  /** The header block ends where it was written to end, whatever the body is. */
  lemma HeadEnds(code: nat, reason: Bytes, fs: seq<Field>, body: Bytes)
    requires Wellformed(reason, fs)
    ensures var h := Head(code, reason, fs); |h| >= 4 && FindBlank(h + body, 0) == Some(|h| - 4)
  {
    var line, b := StatusLine(code, reason), Head(code, reason, fs) + body;
    var n := |line|;
    StatusLineIs(code, reason);
    HeadParts(code, reason, fs, body);
    hide StatusLine, FieldLines, Head, FindBlank;
    assert CrlfAt(b, n - 2);
    FindBlankSkips(b, 0, n - 2);
    FieldsEnd(b, n - 2, fs, body);
  }

  lemma HeadParts(code: nat, reason: Bytes, fs: seq<Field>, body: Bytes)
    ensures var line, b := StatusLine(code, reason), Head(code, reason, fs) + body;
      && |Head(code, reason, fs)| == |line| + |FieldLines(fs)| + 2
      && (forall k :: 0 <= k < |line| ==> b[k] == line[k]) && b[|line|..] == FieldLines(fs) + "\r\n" + body
  {
    hide StatusLine, FieldLines;
    var line, b := StatusLine(code, reason), Head(code, reason, fs) + body;
    assert b == line + (FieldLines(fs) + "\r\n" + body);
  }

  // ---------- a whole response ----------

  /** The state behind any calls that brought a header block and the bytes of a body. */
  lemma MessageState(parts: seq<Bytes>, code: nat, reason: Bytes, fs: seq<Field>, body: Bytes)
    requires Wellformed(reason, fs) && Concat(parts) == Head(code, reason, fs) + body
    requires |Concat(parts)| <= CAP
    ensures var s := FeedAll(parts); var info := Effects(NO_INFO.(status := code), LinesOf(fs));
      && s.buf == Concat(parts) && !s.truncated && s.hdrDone && s.bodyStart == |Head(code, reason, fs)| <= |s.buf|
      && s.info == info && s.complete == Ended(s.buf, s.bodyStart, info)
      && s.tooBig == (info.haveClen && !info.chunked && info.clen > CAP - s.bodyStart)
  {
    var data, h := Concat(parts), Head(code, reason, fs);
    HeadEnds(code, reason, fs, body);
    HeadRead(code, reason, fs);
    FeedAllIs(parts);
    ShortStored(data);
    hide Head, Walk, HeadersOf, FindBlank, Expected, Stored, FeedAll, Plausible, Passes, Ended, Effects;
    ExpectedHeaders(data, FirstOf(parts));
    assert data[..|h|] == h;
  }

  /** Whatever the calls were, the buffer has the first bytes of all that came, a mark says whether
      some did not fit, and the headers are done once their end is among them.  Then it is known
      whether the declared length can fit, and a response without a body is complete. */
  lemma BufferKeeps(parts: seq<Bytes>)
    ensures var s, data := FeedAll(parts), Concat(parts);
      && s.buf == (if |data| <= CAP then data else data[..CAP]) && (s.truncated <==> |data| > CAP)
      && (s.hdrDone <==> exists i: nat :: BlankAt(s.buf, i)) && (s.complete ==> s.hdrDone) && s.bodyStart <= CAP
      && (s.tooBig <==> s.hdrDone && s.info.haveClen && !s.info.chunked && s.info.clen > CAP - s.bodyStart)
      && (s.hdrDone && NoBody(s.info.status) ==> s.complete)
  {
    hide Walk, HeadersOf, FindBlank, Expected, FeedAll, Plausible, BlankAt;
    var data, first := Concat(parts), FirstOf(parts);
    FeedAllIs(parts);
    BlankFound(Stored(data), 0);
    if FindBlank(Stored(data), 0).None? {
      ExpectedNoHeaders(data, first);
    } else {
      ExpectedHeaders(data, first);
    }
  }

  lemma {:induction false} BlankFound(b: Bytes, p: nat)
    ensures FindBlank(b, p).Some? <==> exists i: nat :: i >= p && BlankAt(b, i)
    decreases |b| - p
  {
    if p + 4 <= |b| && !BlankAt(b, p) { BlankFound(b, p + 1); }
  }

  /** Whatever the calls were, a response with a declared length is complete exactly when that many
      bytes are behind its header block, and its page is exactly those bytes. */
  lemma DeclaredPage(parts: seq<Bytes>)
    requires var s := FeedAll(parts); s.hdrDone && !s.info.chunked && s.info.haveClen && !NoBody(s.info.status)
    ensures var s := FeedAll(parts); var n := s.info.clen;
      && s.buf == Stored(Concat(parts)) && Sound(s)
      && (s.complete <==> s.bodyStart + n <= |s.buf|)
      && (s.complete ==> BodyOf(s) == Concat(parts)[s.bodyStart..s.bodyStart + n])
      && (s.tooBig ==> !s.complete)
  {
    hide Walk, HeadersOf, FindBlank, Expected, FeedAll, Plausible, Passes, Unwrap;
    var data, first := Concat(parts), FirstOf(parts);
    FeedAllIs(parts);
    if FindBlank(Stored(data), 0).None? {
      ExpectedNoHeaders(data, first);
    } else {
      ExpectedHeaders(data, first);
      var s := FeedAll(parts);
      assert forall i, j :: 0 <= i <= j <= |s.buf| ==> s.buf[i..j] == data[i..j];
    }
  }

  /** A response without a declared length is never complete before the connection closes, and its
      page is everything behind the header block. */
  lemma UndeclaredPage(parts: seq<Bytes>)
    requires var s := FeedAll(parts); s.hdrDone && !s.info.chunked && !s.info.haveClen && !NoBody(s.info.status)
    ensures var s := FeedAll(parts);
      !s.complete && s.buf == Stored(Concat(parts)) && s.bodyStart <= |s.buf| && BodyOf(s) == s.buf[s.bodyStart..]
  {
    hide Walk, HeadersOf, FindBlank, Expected, FeedAll, Plausible, Passes, Unwrap;
    var data, first := Concat(parts), FirstOf(parts);
    FeedAllIs(parts);
    if FindBlank(Stored(data), 0).None? {
      ExpectedNoHeaders(data, first);
    } else {
      ExpectedHeaders(data, first);
    }
  }

  /** A response that declares its length is read back: however the bytes are cut into calls, the
      response is complete with the last of them and the page is the body. */
  lemma DeclaredRoundTrip(parts: seq<Bytes>, code: nat, reason: Bytes, a: seq<Field>, f: Field, b: seq<Field>,
                          body: Bytes)
    requires Wellformed(reason, a + [f] + b) && !NoBody(code)
    requires NamesLength(f, |body|)
    requires (forall k :: 0 <= k < |a| ==> Plain(a[k])) && (forall k :: 0 <= k < |b| ==> Plain(b[k]))
    requires Concat(parts) == Head(code, reason, a + [f] + b) + body && |Concat(parts)| <= CAP
    ensures var s := FeedAll(parts);
      && s.hdrDone && s.complete && !s.truncated && !s.tooBig && s.info.status == code
      && s.bodyStart <= |s.buf| && BodyOf(s) == body
  {
    var fs, info := a + [f] + b, NO_INFO.(status := code);
    MessageState(parts, code, reason, fs, body);
    MiddleFields(reason, a, f, b);
    AmongPlain(info, a, f, b);
    LengthField(Effects(info, LinesOf(a)), f, |body|);
    EffectsStatus(info, LinesOf(fs));
    hide Walk, FeedAll, Concat, Effects, LineEffect, Head, LinesOf, Unwrap, DecOf;
    var s, h := FeedAll(parts), Head(code, reason, fs);
    assert (h + body)[|h|..] == body;
  }

  lemma MiddleFields(reason: Bytes, a: seq<Field>, f: Field, b: seq<Field>)
    requires Wellformed(reason, a + [f] + b)
    ensures (forall k :: 0 <= k < |a| ==> a[k].Valid()) && f.Valid() && (forall k :: 0 <= k < |b| ==> b[k].Valid())
  {
    var fs := a + [f] + b;
    assert fs[|a|] == f && forall k :: 0 <= k < |a| ==> fs[k] == a[k];
    assert forall k :: 0 <= k < |b| ==> fs[|a| + 1 + k] == b[k];
  }

  /** The header block of a chunked response. */
  lemma ChunkedHead(code: nat, reason: Bytes, a: seq<Field>, f: Field, b: seq<Field>)
    requires Wellformed(reason, a + [f] + b)
    requires NamesChunked(f)
    requires (forall k :: 0 <= k < |a| ==> Plain(a[k])) && (forall k :: 0 <= k < |b| ==> Plain(b[k]))
    ensures var info := HeadersOf(Head(code, reason, a + [f] + b)); info.chunked && info.status == code
  {
    var fs, info := a + [f] + b, NO_INFO.(status := code);
    HeadRead(code, reason, fs);
    MiddleFields(reason, a, f, b);
    AmongPlain(info, a, f, b);
    CodingField(Effects(info, LinesOf(a)), f);
    EffectsStatus(info, LinesOf(fs));
  }

  /** A chunked response is read back: however the bytes are cut into calls, the response is complete
      with its last-chunk line and the page is the data of its chunks. */
  lemma ChunkedRoundTrip(parts: seq<Bytes>, code: nat, reason: Bytes, a: seq<Field>, f: Field, b: seq<Field>,
                         cs: seq<Bytes>, trailer: Bytes)
    requires Wellformed(reason, a + [f] + b) && !NoBody(code)
    requires NamesChunked(f)
    requires (forall k :: 0 <= k < |a| ==> Plain(a[k])) && (forall k :: 0 <= k < |b| ==> Plain(b[k]))
    requires forall c :: c in cs ==> |c| > 0
    requires Concat(parts) == Head(code, reason, a + [f] + b) + (Encode(cs) + "0\r\n" + trailer)
    requires |Concat(parts)| <= CAP
    ensures var s := FeedAll(parts);
      && s.hdrDone && s.complete && !s.truncated && !s.tooBig && s.info.status == code
      && s.bodyStart <= |s.buf| && BodyOf(s) == Flatten(cs)
  {
    var fs, body := a + [f] + b, Encode(cs) + "0\r\n" + trailer;
    MessageState(parts, code, reason, fs, body);
    ChunkedHead(code, reason, a, f, b);
    HeadRead(code, reason, fs);
    hide *;
    ChunksThere(FeedAll(parts), Head(code, reason, fs), cs, trailer);
  }

  lemma ChunksThere(s: State, h: Bytes, cs: seq<Bytes>, trailer: Bytes)
    requires s.buf == h + (Encode(cs) + "0\r\n" + trailer) && s.hdrDone && s.bodyStart == |h| && s.info.chunked
    requires s.complete == Ended(s.buf, s.bodyStart, s.info) && !NoBody(s.info.status)
    requires forall c :: c in cs ==> |c| > 0
    ensures s.complete && BodyOf(s) == Flatten(cs)
  {
    hide Walk, Unwrap, Encode, Flatten;
    BodyThere(h, Encode(cs), trailer);
    DecodeEncoded(s.buf, |h|, |h| + |Encode(cs)|, cs);
  }

  lemma BodyThere(h: Bytes, e: Bytes, trailer: Bytes)
    ensures var b := h + (e + "0\r\n" + trailer);
      |h| + |e| + 3 <= |b| && b[|h|..|h| + |e|] == e && b[|h| + |e|..|h| + |e| + 3] == "0\r\n"
  {
  }

  /** As long as a byte of the last-chunk line is missing the response is not complete. */
  lemma ChunkedNoSooner(parts: seq<Bytes>, missing: Bytes, code: nat, reason: Bytes, a: seq<Field>, f: Field,
                        b: seq<Field>, cs: seq<Bytes>)
    requires Wellformed(reason, a + [f] + b) && !NoBody(code)
    requires NamesChunked(f)
    requires (forall k :: 0 <= k < |a| ==> Plain(a[k])) && (forall k :: 0 <= k < |b| ==> Plain(b[k]))
    requires forall c :: c in cs ==> |c| > 0
    requires |missing| > 0 && |Concat(parts) + missing| <= CAP
    requires Concat(parts) + missing == Head(code, reason, a + [f] + b) + (Encode(cs) + "0\r\n")
    ensures !FeedAll(parts).complete
  {
    hide *;
    var fs := a + [f] + b;
    ChunkedHead(code, reason, a, f, b);
    HeadEnds(code, reason, fs, Encode(cs) + "0\r\n");
    FeedAllIs(parts);
    assert |Concat(parts)| <= |Concat(parts) + missing|;
    CapIs();
    ShortStored(Concat(parts));
    if FindBlank(Concat(parts), 0).None? {
      ExpectedNoHeaders(Concat(parts), FirstOf(parts));
      assert !INIT.complete by { InitIs(); }
    } else {
      FindBlankGrows(Concat(parts), missing, 0);
      NotDone(Concat(parts), FirstOf(parts), missing, Head(code, reason, fs), cs);
    }
  }

  lemma CapIs()
    ensures CAP == 0x4_0000
  {
  }

  lemma InitIs()
    ensures !INIT.complete
  {
  }

  lemma NotDone(data: Bytes, first: nat, missing: Bytes, h: Bytes, cs: seq<Bytes>)
    requires data + missing == h + (Encode(cs) + "0\r\n") && |missing| > 0 && |data| <= 0x4_0000 && Stored(data) == data
    requires FindBlank(data, 0) == Some(|h| - 4) && |h| >= 4 && Plausible(data, first)
    requires HeadersOf(h).chunked && !NoBody(HeadersOf(h).status) && forall c :: c in cs ==> |c| > 0
    ensures !Expected(data, first).complete
  {
    hide Walk, HeadersOf, FindBlank, Expected, Plausible, Passes, Encode, Stored;
    ExpectedHeaders(data, first);
    BodyAlone(h, Encode(cs));
    NoEndYet(data, missing, |h|, |h| + |Encode(cs)|, cs);
    assert data[..|h|] == (data + missing)[..|h|] == h;
  }

  lemma NoEndYet(data: Bytes, missing: Bytes, p: nat, q: nat, cs: seq<Bytes>)
    requires |missing| > 0 && p <= |data| && p <= q && q + 3 == |data + missing| && forall c :: c in cs ==> |c| > 0
    requires (data + missing)[p..q] == Encode(cs) && (data + missing)[q..q + 3] == "0\r\n"
    ensures !Walk(data, p).1
  {
    hide *;
    DecodeEncoded(data + missing, p, q, cs);
    EndMissing(data, missing, p, q);
  }

  lemma EndMissing(data: Bytes, missing: Bytes, p: nat, q: nat)
    requires p <= |data| && |missing| > 0 && Walk(data + missing, p) == (q, true)
    requires q + 3 == |data + missing| && (data + missing)[q..q + 3] == "0\r\n"
    ensures !Walk(data, p).1
  {
    hide *;
    if Walk(data, p).1 {
      WalkDoneGrows(data, missing, p);
      StopsAtLine(data, p);
      LastLineWhole(data, missing, q);
    }
  }

  lemma BodyAlone(h: Bytes, e: Bytes)
    ensures var b := h + (e + "0\r\n");
      |b| == |h| + |e| + 3 && b[|h|..|h| + |e|] == e && b[|h| + |e|..|h| + |e| + 3] == "0\r\n"
  {
  }

  /** Where the walker sees the end there is a whole size line. */
  lemma {:induction false} StopsAtLine(b: Bytes, p: nat)
    requires p <= |b| && Walk(b, p).1
    ensures FindLine(b, Walk(b, p).0).Some?
    decreases |b| - p
  {
    hide Hex, FindLine;
    match FindLine(b, p)
    case None =>
    case Some(e) =>
      var size := Hex(b[p..e], 0);
      if size > 0 && e + 2 + size + 2 <= |b| {
        StopsAtLine(b, e + 2 + size + 2);
      }
  }

  lemma LastLineWhole(data: Bytes, missing: Bytes, q: nat)
    requires q + 3 == |data + missing| && (data + missing)[q..q + 3] == "0\r\n" && FindLine(data, q).Some?
    ensures |missing| == 0
  {
    hide FindLine;
    FindLineGrows(data, missing, q);
    var b := data + missing;
    var t := b[q..q + 3];
    assert b[q] == t[0] && b[q + 1] == t[1] && b[q + 2] == t[2];
    FindLineIs(b, q, q + 1);
  }
}
