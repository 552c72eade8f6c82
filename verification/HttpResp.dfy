/** kernel/httpresp.h:37-60, 170-259: the response store, the chunk walker and the in-place
    unwrapping of a chunked body (RFC 7230 section 4.1). */
module HttpResp {
  import opened Options
  import opened HttpHeaders
  import opened Scanning

  /** HR_BUF_SIZE. */
  const CAP := 0x4_0000

  // ---------- finding the ends of headers and of size lines ----------

  predicate BlankAt(b: Bytes, i: nat) {
    i + 3 < |b| && b[i] == '\r' && b[i + 1] == '\n' && b[i + 2] == '\r' && b[i + 3] == '\n'
  }

  /** The first blank line end at or after i. */
  function FindBlank(b: Bytes, i: nat): (r: Option<nat>)
    ensures r.Some? ==> i <= r.value && BlankAt(b, r.value)
    decreases |b| - i
  {
    if i + 3 >= |b| then None else if BlankAt(b, i) then Some(i) else FindBlank(b, i + 1)
  }

  predicate CrlfAt(b: Bytes, i: nat) {
    i + 1 < |b| && b[i] == '\r' && b[i + 1] == '\n'
  }

  /** The end of the line that starts at i, if all of it is there. */
  function FindLine(b: Bytes, i: nat): (r: Option<nat>)
    ensures r.Some? ==> i <= r.value && r.value + 1 < |b| && CrlfAt(b, r.value)
    decreases |b| - i
  {
    if i + 1 >= |b| then None else if CrlfAt(b, i) then Some(i) else FindLine(b, i + 1)
  }

  // ---------- chunk sizes ----------

  predicate IsHex(c: char) {
    '0' <= c <= '9' || 'a' <= c <= 'f' || 'A' <= c <= 'F'
  }

  /** hr_hexval of a hexadecimal digit. */
  function HexVal(c: char): (v: nat)
    requires IsHex(c)
    ensures v < 16
  {
    if c <= '9' then c as int - '0' as int
    else if 'a' <= c then c as int - 'a' as int + 10
    else c as int - 'A' as int + 10
  }

  /** The number written by the leading hexadecimal digits of a size line. */
  function Hex(line: Bytes, acc: nat): nat {
    if |line| == 0 || !IsHex(line[0]) then acc else Hex(line[1..], 16 * acc + HexVal(line[0]))
  }

  function Digits(line: Bytes): nat {
    if |line| == 0 || !IsHex(line[0]) then 0 else 1 + Digits(line[1..])
  }

  /** One above the largest number that `room` more digits can make of acc. */
  function Limit(acc: nat, room: nat): nat
    decreases room
  {
    if room == 0 then acc + 1 else Limit(16 * acc + 15, room - 1)
  }

  lemma {:induction false} LimitMonotone(a: nat, b: nat, room: nat)
    requires a <= b
    ensures a < Limit(a, room) <= Limit(b, room)
    decreases room
  {
    if room > 0 {
      LimitMonotone(16 * a + 15, 16 * b + 15, room - 1);
    }
  }

  lemma {:induction false} HexBound(line: Bytes, acc: nat, room: nat)
    requires Digits(line) <= room
    ensures Hex(line, acc) < Limit(acc, room)
    decreases |line|
  {
    LimitMonotone(acc, acc, room);
    if |line| > 0 && IsHex(line[0]) {
      var next := 16 * acc + HexVal(line[0]);
      HexBound(line[1..], next, room - 1);
      LimitMonotone(next, 16 * acc + 15, room - 1);
    }
  }

  /** A size of at most seven digits is below 2^28, so that no u32 sum of the walker wraps. */
  lemma SevenDigits(line: Bytes)
    requires Digits(line) <= 7
    ensures Hex(line, 0) < 0x1000_0000
  {
    HexBound(line, 0, 7);
    assert Limit(0, 7) == Limit(0xF, 6) == Limit(0xFF, 5) == Limit(0xFFF, 4);
    assert Limit(0xFFF, 4) == Limit(0xFFFF, 3) == Limit(0xF_FFFF, 2) == Limit(0xFF_FFFF, 1) == Limit(0xFFF_FFFF, 0);
  }

  // ---------- the walker and the body, on values ----------

  /** hr_walk_chunks from p: where it stops, and whether it saw the end of the body. */
  function Walk(b: Bytes, p: nat): (r: (nat, bool))
    requires p <= |b|
    ensures p <= r.0 <= |b|
    decreases |b| - p
  {
    match FindLine(b, p)
    case None => (p, false)
    case Some(e) =>
      var size := Hex(b[p..e], 0);
      if size == 0 then (p, true)
      else if e + 2 + size + 2 > |b| then (p, false)
      else Walk(b, e + 2 + size + 2)
  }

  /** Whole chunks lead from p to q. */
  ghost predicate Passes(b: Bytes, p: nat, q: nat)
    requires p <= |b|
    decreases |b| - p
  {
    p == q ||
    (match FindLine(b, p)
     case None => false
     case Some(e) =>
       var size := Hex(b[p..e], 0);
       size > 0 && e + 2 + size + 2 <= |b| && Passes(b, e + 2 + size + 2, q))
  }

  /** Every size line the walker can meet from p on has at most seven digits. */
  ghost predicate ShortLines(b: Bytes, p: nat)
    requires p <= |b|
    decreases |b| - p
  {
    match FindLine(b, p)
    case None => true
    case Some(e) =>
      var size := Hex(b[p..e], 0);
      Digits(b[p..e]) <= 7 && (size > 0 && e + 2 + size + 2 <= |b| ==> ShortLines(b, e + 2 + size + 2))
  }

  /** The body: the data of every chunk from r on, the last one cut off where the bytes end. */
  function Unwrap(b: Bytes, r: nat): (t: Bytes)
    decreases |b| - r
  {
    if r >= |b| then ""
    else
      match FindLine(b, r)
      case None => ""
      case Some(e) =>
        var size := Hex(b[r..e], 0);
        if size == 0 then ""
        else
          var take := if size < |b| - (e + 2) then size else |b| - (e + 2);
          b[e + 2..e + 2 + take] + Unwrap(b, e + 2 + size + 2)
  }

  /** The data of the whole chunks from p to q, where the walker passed. */
  ghost function Passed(b: Bytes, p: nat, q: nat): Bytes
    requires p <= |b| && Passes(b, p, q)
    decreases |b| - p
  {
    if p == q then ""
    else
      var e := FindLine(b, p).value;
      var size := Hex(b[p..e], 0);
      b[e + 2..e + 2 + size] + Passed(b, e + 2 + size + 2, q)
  }

  // ---------- extension lemmas ----------

  lemma {:induction false} FindLineGrows(b: Bytes, more: Bytes, i: nat)
    requires FindLine(b, i).Some?
    ensures FindLine(b + more, i) == FindLine(b, i)
    decreases |b| - i
  {
    if !CrlfAt(b, i) {
      FindLineGrows(b, more, i + 1);
    }
  }

  lemma {:induction false} FindBlankGrows(b: Bytes, more: Bytes, i: nat)
    requires FindBlank(b, i).Some?
    ensures FindBlank(b + more, i) == FindBlank(b, i)
    decreases |b| - i
  {
    if !BlankAt(b, i) {
      FindBlankGrows(b, more, i + 1);
    }
  }

  /** Without a blank line so far, only the last three bytes can be part of one. */
  lemma {:induction false} FindBlankFrom(b: Bytes, more: Bytes, i: nat, from: nat)
    requires i <= from && FindBlank(b, i).None? && (from + 3 <= |b| || from <= i)
    ensures FindBlank(b + more, i) == FindBlank(b + more, from)
    decreases from - i
  {
    if i < from {
      assert i + 3 < |b| ==> !BlankAt(b, i);
      FindBlankFrom(b, more, i + 1, from);
    }
  }

  /** The walker's position is always reached over whole chunks. */
  lemma {:induction false} WalkPasses(b: Bytes, p: nat)
    requires p <= |b|
    ensures Passes(b, p, Walk(b, p).0)
    decreases |b| - p
  {
    hide Hex;
    match FindLine(b, p)
    case None =>
    case Some(e) =>
      var size := Hex(b[p..e], 0);
      if size > 0 && e + 2 + size + 2 <= |b| {
        WalkPasses(b, e + 2 + size + 2);
      }
  }

  lemma {:induction false} PassesGrows(b: Bytes, more: Bytes, p: nat, q: nat)
    requires p <= |b| && Passes(b, p, q)
    ensures Passes(b + more, p, q)
    decreases |b| - p
  {
    hide Hex;
    if p != q {
      FindLineGrows(b, more, p);
      var e := FindLine(b, p).value;
      assert (b + more)[p..e] == b[p..e];
      PassesGrows(b, more, e + 2 + Hex(b[p..e], 0) + 2, q);
    }
  }

  /** Walking on from a position already passed gives what walking from the start gives. */
  lemma {:induction false} WalkResumes(b: Bytes, p: nat, q: nat)
    requires p <= |b| && Passes(b, p, q)
    ensures p <= q <= |b| && Walk(b, q) == Walk(b, p)
    ensures ShortLines(b, p) ==> ShortLines(b, q)
    decreases |b| - p
  {
    hide Hex, Digits;
    if p != q {
      var e := FindLine(b, p).value;
      WalkResumes(b, e + 2 + Hex(b[p..e], 0) + 2, q);
    }
  }

  /** Once the walker has seen the end, more bytes do not change what it saw. */
  lemma {:induction false} WalkDoneGrows(b: Bytes, more: Bytes, p: nat)
    requires p <= |b| && Walk(b, p).1
    ensures Walk(b + more, p) == Walk(b, p)
    decreases |b| - p
  {
    hide Hex;
    FindLineGrows(b, more, p);
    var e := FindLine(b, p).value;
    assert (b + more)[p..e] == b[p..e];
    if Hex(b[p..e], 0) > 0 {
      WalkDoneGrows(b, more, e + 2 + Hex(b[p..e], 0) + 2);
    }
  }

  lemma WalkExtends(b: Bytes, more: Bytes, p: nat)
    requires p <= |b|
    ensures Walk(b + more, p) == Walk(b + more, Walk(b, p).0)
  {
    hide Walk, Passes, ShortLines;
    WalkPasses(b, p);
    PassesGrows(b, more, p, Walk(b, p).0);
    WalkResumes(b + more, p, Walk(b, p).0);
  }

  lemma PassesOnce(b: Bytes, p: nat, q: nat)
    requires p <= |b| && Passes(b, p, q) && p != q
    ensures FindLine(b, p).Some?
    ensures var e := FindLine(b, p).value; var size := Hex(b[p..e], 0);
      p <= e && size > 0 && e + 2 + size + 2 <= |b| && Passes(b, e + 2 + size + 2, q)
  {
    hide Hex;
  }

  lemma PassedIs(b: Bytes, p: nat, q: nat, e: nat, size: nat)
    requires p <= |b| && Passes(b, p, q) && p != q
    requires FindLine(b, p) == Some(e) && size == Hex(b[p..e], 0) && e + 2 + size + 2 <= |b| && Passes(b, e + 2 + size + 2, q)
    ensures Passed(b, p, q) == b[e + 2..e + 2 + size] + Passed(b, e + 2 + size + 2, q)
  {
    hide Hex, FindLine, Passes;
  }

  /** One chunk of the way: its data is b[d..next - 2]. */
  lemma PassedOnce(b: Bytes, p: nat, q: nat) returns (d: nat, next: nat)
    requires p <= |b| && Passes(b, p, q) && p != q
    ensures p < d <= next - 2 && next <= |b| && Passes(b, next, q)
    ensures Passed(b, p, q) == b[d..next - 2] + Passed(b, next, q)
    ensures Unwrap(b, p) == b[d..next - 2] + Unwrap(b, next)
  {
    hide *;
    PassesOnce(b, p, q);
    var e := FindLine(b, p).value;
    d := e + 2;
    next := d + Hex(b[p..e], 0) + 2;
    PassedIs(b, p, q, e, Hex(b[p..e], 0));
    UnwrapOnce(b, p, e);
  }

  lemma UnwrapOnce(b: Bytes, p: nat, e: nat)
    requires p <= |b| && FindLine(b, p) == Some(e) && Hex(b[p..e], 0) > 0 && e + 2 + Hex(b[p..e], 0) + 2 <= |b|
    ensures Unwrap(b, p) == b[e + 2..e + 2 + Hex(b[p..e], 0)] + Unwrap(b, e + 2 + Hex(b[p..e], 0) + 2)
  {
    hide Hex, FindLine;
  }

  lemma PassesSelf(b: Bytes, p: nat)
    requires p <= |b|
    ensures Passes(b, p, p) && Passed(b, p, p) == ""
  {
  }

  /** The body up to where the walker passed, then the rest. */
  lemma {:induction false} UnwrapPassed(b: Bytes, p: nat, q: nat)
    requires p <= |b| && Passes(b, p, q)
    ensures q <= |b| && Unwrap(b, p) == Passed(b, p, q) + Unwrap(b, q)
    decreases |b| - p
  {
    hide *;
    if p == q {
      PassesSelf(b, p);
    } else {
      var d, next := PassedOnce(b, p, q);
      UnwrapPassed(b, next, q);
      var c := b[d..next - 2];
      assert c + (Passed(b, next, q) + Unwrap(b, q)) == (c + Passed(b, next, q)) + Unwrap(b, q);
    }
  }

  /** When the walker saw a zero-size or unreadable size line, the body consists of exactly
      the chunks it had passed. */
  lemma UnwrapIsPassed(b: Bytes, p: nat)
    requires p <= |b| && Walk(b, p).1
    ensures Passes(b, p, Walk(b, p).0) && Unwrap(b, p) == Passed(b, p, Walk(b, p).0)
  {
    hide Passed, Hex;
    WalkPasses(b, p);
    var q := Walk(b, p).0;
    UnwrapPassed(b, p, q);
    WalkStops(b, p);
  }

  lemma {:induction false} WalkStops(b: Bytes, p: nat)
    requires p <= |b| && Walk(b, p).1
    ensures Unwrap(b, Walk(b, p).0) == ""
    decreases |b| - p
  {
    hide Hex;
    var e := FindLine(b, p).value;
    if Hex(b[p..e], 0) > 0 {
      WalkStops(b, e + 2 + Hex(b[p..e], 0) + 2);
    }
  }

  // ---------- the parser state, on values ----------

  /** hr_t and the bytes in HR_BUF, without what hr_finish adds. */
  datatype State = State(buf: Bytes, truncated: bool, tooBig: bool, hdrDone: bool, bodyStart: nat, info: Info,
                         complete: bool, chunkPos: nat)

  const INIT := State("", false, false, false, 0, NO_INFO, false, 0)

  /** The positions lie in the stored bytes, and the walker stands at a size line. */
  ghost predicate Sound(s: State) {
    && |s.buf| <= CAP && s.bodyStart <= |s.buf| && (!s.hdrDone ==> !s.complete)
    && (s.hdrDone && s.info.chunked ==> Passes(s.buf, s.bodyStart, s.chunkPos) && s.chunkPos <= |s.buf|)
  }

  /** A 1xx, 204 or 304 response has no body at all. */
  predicate NoBody(status: nat) {
    status == 204 || status == 304 || 100 <= status < 200
  }

  function Clip(data: Bytes, room: nat): Bytes {
    if |data| < room then data else data[..room]
  }

  /** The first part of hr_feed: the bytes that fit are stored. */
  function Store(s: State, data: Bytes): State
    requires |s.buf| <= CAP
  {
    s.(buf := s.buf + Clip(data, CAP - |s.buf|), truncated := s.truncated || |data| > CAP - |s.buf|)
  }

  ghost function Started(s: State, i: nat): State
    requires i + 4 <= |s.buf| <= CAP
  {
    var bs := i + 4;
    var info := HeadersOf(s.buf[..bs]);
    s.(hdrDone := true, bodyStart := bs, info := info, chunkPos := bs,
       tooBig := info.haveClen && !info.chunked && info.clen > CAP - bs)
  }

  /** The second part: the blank line is looked for where it can have been completed. */
  ghost function FindHeaders(s: State, old_: nat): State
    requires |s.buf| <= CAP
  {
    if s.hdrDone then s
    else
      match FindBlank(s.buf, if old_ >= 3 then old_ - 3 else 0)
      case None => s
      case Some(i) => Started(s, i)
  }

  /** The third part: is the response complete? */
  ghost function CheckEnd(s: State): State
    requires s.bodyStart <= |s.buf| && (s.hdrDone && s.info.chunked ==> s.chunkPos <= |s.buf|)
  {
    if !s.hdrDone || s.complete then s
    else if s.info.chunked then
      var w := Walk(s.buf, s.chunkPos);
      s.(chunkPos := w.0, complete := w.1 || NoBody(s.info.status))
    else
      s.(complete := (s.info.haveClen && |s.buf| - s.bodyStart >= s.info.clen) || NoBody(s.info.status))
  }

  lemma StoreSound(s: State, data: Bytes)
    requires Sound(s)
    ensures Sound(Store(s, data)) && Sound(FindHeaders(Store(s, data), |s.buf|))
  {
    hide HeadersOf, FindBlank, Walk, Passes;
    var more := Clip(data, CAP - |s.buf|);
    var t := Store(s, data);
    if s.hdrDone && s.info.chunked {
      PassesGrows(s.buf, more, s.bodyStart, s.chunkPos);
    }
    var f := FindHeaders(t, |s.buf|);
    if f.hdrDone && !s.hdrDone {
      PassesSelf(f.buf, f.bodyStart);
    }
  }

  /** hr_feed on values. */
  ghost function FeedStep(s: State, data: Bytes): State
    requires Sound(s)
  {
    hide *;
    SoundMeans(s);
    StoreSound(s, data);
    SoundMeans(Store(s, data));
    SoundMeans(FindHeaders(Store(s, data), |s.buf|));
    CheckEnd(FindHeaders(Store(s, data), |s.buf|))
  }

  lemma SoundMeans(s: State)
    requires Sound(s)
    ensures |s.buf| <= CAP && s.bodyStart <= |s.buf| && (s.hdrDone && s.info.chunked ==> s.chunkPos <= |s.buf|)
  {
  }

  lemma FeedSound(s: State, data: Bytes)
    requires Sound(s)
    ensures Sound(FeedStep(s, data))
  {
    hide HeadersOf, FindBlank, Walk, Passes, Store, FindHeaders;
    StoreSound(s, data);
    var f := FindHeaders(Store(s, data), |s.buf|);
    if f.hdrDone && f.info.chunked && !f.complete {
      WalkPasses(f.buf, f.chunkPos);
      PassesJoin(f.buf, f.bodyStart, f.chunkPos, Walk(f.buf, f.chunkPos).0);
    }
  }

  lemma {:induction false} PassesJoin(b: Bytes, p: nat, q: nat, r: nat)
    requires p <= |b| && q <= |b| && Passes(b, p, q) && Passes(b, q, r)
    ensures Passes(b, p, r)
    decreases |b| - p
  {
    hide Hex, FindLine;
    if p != q {
      var e := FindLine(b, p).value;
      PassesJoin(b, e + 2 + Hex(b[p..e], 0) + 2, q, r);
    }
  }

  // ---------- splitting the bytes into calls ----------

  function Stored(data: Bytes): (b: Bytes)
    ensures |b| <= CAP
  {
    Clip(data, CAP)
  }

  /** The response has ended, going by the bytes stored so far. */
  ghost predicate Ended(b: Bytes, bs: nat, info: Info)
    requires bs <= |b|
  {
    || NoBody(info.status)
    || (if info.chunked then Walk(b, bs).1 else info.haveClen && |b| - bs >= info.clen)
  }

  /** The state after all of data, where `first` bytes were stored when the call that
      completed the headers had stored its bytes. */
  ghost function Expected(data: Bytes, first: nat): State
  {
    var b := Stored(data);
    match FindBlank(b, 0)
    case None => INIT.(buf := b, truncated := |data| > CAP)
    case Some(i) =>
      var s := Started(INIT.(buf := b, truncated := |data| > CAP), i);
      s.(complete := Ended(b, s.bodyStart, s.info),
         chunkPos := if s.info.chunked then WalkedTo(b, s.bodyStart, s.info.status, first) else s.bodyStart)
  }

  /** A response without a body is complete at once: its walker never moves again. */
  ghost function WalkedTo(b: Bytes, bs: nat, status: nat, first: nat): nat
    requires bs <= |b|
  {
    if NoBody(status) && bs <= first <= |b| then Walk(b[..first], bs).0 else Walk(b, bs).0
  }

  lemma StoredGrows(data: Bytes, more: Bytes)
    ensures Stored(data + more) == Stored(data) + Clip(more, CAP - |Stored(data)|)
    ensures |data + more| > CAP <==> |data| > CAP || |more| > CAP - |Stored(data)|
  {
  }

  /** `first` is a possible store size at that moment. */
  ghost predicate Plausible(data: Bytes, first: nat) {
    FindBlank(Stored(data), 0).Some? ==> FindBlank(Stored(data), 0).value + 4 <= first <= |Stored(data)|
  }

  lemma ExpectedNoHeaders(data: Bytes, first: nat)
    requires FindBlank(Stored(data), 0).None?
    ensures Expected(data, first) == INIT.(buf := Stored(data), truncated := |data| > CAP)
    ensures Sound(Expected(data, first))
  {
    hide Walk, HeadersOf;
  }

  lemma ExpectedHeaders(data: Bytes, first: nat)
    requires FindBlank(Stored(data), 0).Some? && Plausible(data, first)
    ensures var b, i := Stored(data), FindBlank(Stored(data), 0).value;
      var s := Started(INIT.(buf := b, truncated := |data| > CAP), i);
      && Expected(data, first)
        == s.(complete := Ended(b, s.bodyStart, s.info),
              chunkPos := if s.info.chunked then WalkedTo(b, s.bodyStart, s.info.status, first) else s.bodyStart)
      && s.bodyStart == i + 4 <= first <= |b| && s.buf == b && s.hdrDone && s.chunkPos == s.bodyStart
  {
    hide Walk, HeadersOf;
  }

  /** The walker's position in the two cases. */
  lemma WalkedSound(b: Bytes, s: State, first: nat)
    requires s.bodyStart <= first <= |b|
    ensures var w := WalkedTo(b, s.bodyStart, s.info.status, first); w <= |b| && Passes(b, s.bodyStart, w)
  {
    hide Walk, Passes;
    WalkPasses(b, s.bodyStart);
    WalkPasses(b[..first], s.bodyStart);
    assert b[..first] + b[first..] == b;
    PassesGrows(b[..first], b[first..], s.bodyStart, Walk(b[..first], s.bodyStart).0);
  }

  lemma ExpectedSound(data: Bytes, first: nat)
    requires Plausible(data, first)
    ensures Sound(Expected(data, first))
  {
    hide Walk, HeadersOf, FindBlank, Expected, Passes, Ended, WalkedTo;
    if FindBlank(Stored(data), 0).None? {
      ExpectedNoHeaders(data, first);
    } else {
      ExpectedHeaders(data, first);
      var b, i := Stored(data), FindBlank(Stored(data), 0).value;
      var s := Started(INIT.(buf := b, truncated := |data| > CAP), i);
      WalkedSound(b, s, first);
    }
  }

  lemma FeedStepIs(s: State, data: Bytes)
    requires Sound(s)
    ensures Sound(Store(s, data)) && Sound(FindHeaders(Store(s, data), |s.buf|))
    ensures FeedStep(s, data) == CheckEnd(FindHeaders(Store(s, data), |s.buf|))
  {
    hide Store, FindHeaders, CheckEnd, Passes;
    StoreSound(s, data);
  }

  /** More bytes before the blank line is complete. */
  lemma StepBeforeHeaders(data: Bytes, first: nat, more: Bytes)
    requires FindBlank(Stored(data), 0).None?
    ensures Sound(Expected(data, first))
    ensures FeedStep(Expected(data, first), more) == Expected(data + more, |Stored(data + more)|)
  {
    hide Walk, HeadersOf, FindBlank, Expected, Ended, FeedStep, Stored, Clip, Started, WalkedTo, Passes;
    ExpectedNoHeaders(data, first);
    StoredGrows(data, more);
    var s := Expected(data, first);
    var b, m := Stored(data), Clip(more, CAP - |Stored(data)|);
    var from := if |b| >= 3 then |b| - 3 else 0;
    FindBlankFrom(b, m, 0, from);
    FeedStepIs(s, more);
    var t := Store(s, more);
    assert t == INIT.(buf := Stored(data + more), truncated := |data + more| > CAP);
    if FindBlank(Stored(data + more), 0).None? {
      ExpectedNoHeaders(data + more, |Stored(data + more)|);
    } else {
      ExpectedHeaders(data + more, |Stored(data + more)|);
      FirstStep(t, FindBlank(t.buf, 0).value);
    }
  }

  /** The call that completes the headers. */
  lemma FirstStep(t: State, i: nat)
    requires i + 4 <= |t.buf| <= CAP && !t.hdrDone && !t.complete
    ensures var s := Started(t, i);
      CheckEnd(s) == s.(complete := Ended(s.buf, s.bodyStart, s.info),
                        chunkPos := if s.info.chunked then WalkedTo(s.buf, s.bodyStart, s.info.status, |s.buf|) else s.bodyStart)
  {
    hide Walk, HeadersOf;
    assert t.buf[..|t.buf|] == t.buf;
  }

  lemma EndedGrows(b: Bytes, m: Bytes, bs: nat, info: Info)
    requires bs <= |b| && Ended(b, bs, info)
    ensures Ended(b + m, bs, info)
  {
    hide Walk;
    if info.chunked && !NoBody(info.status) {
      WalkDoneGrows(b, m, bs);
    }
  }

  /** What a later call does to a state whose headers are complete. */
  lemma LaterStep(b: Bytes, m: Bytes, s: State, first: nat)
    requires s.bodyStart <= first <= |b| && s.hdrDone
    requires s.complete == Ended(b, s.bodyStart, s.info)
    requires s.chunkPos == (if s.info.chunked then WalkedTo(b, s.bodyStart, s.info.status, first) else s.bodyStart)
    requires s.buf == b + m
    ensures s.info.chunked ==> s.chunkPos <= |s.buf|
    ensures CheckEnd(s) == s.(complete := Ended(b + m, s.bodyStart, s.info),
                              chunkPos := if s.info.chunked then WalkedTo(b + m, s.bodyStart, s.info.status, first) else s.bodyStart)
  {
    hide Walk, HeadersOf;
    WalkedSound(b, s, first);
    assert (b + m)[..first] == b[..first];
    if s.complete {
      EndedGrows(b, m, s.bodyStart, s.info);
      if s.info.chunked && !NoBody(s.info.status) {
        WalkDoneGrows(b, m, s.bodyStart);
      }
    } else if s.info.chunked {
      WalkExtends(b, m, s.bodyStart);
    }
  }

  /** More bytes after the blank line. */
  lemma StepAfterHeaders(data: Bytes, first: nat, more: Bytes)
    requires FindBlank(Stored(data), 0).Some? && Plausible(data, first)
    ensures Sound(Expected(data, first)) && Plausible(data + more, first)
    ensures FeedStep(Expected(data, first), more) == Expected(data + more, first)
  {
    hide Walk, HeadersOf, FindBlank, Expected, Ended, FeedStep, Stored, Clip, WalkedTo, CheckEnd, Passes;
    ExpectedSound(data, first);
    ExpectedHeaders(data, first);
    StoredGrows(data, more);
    var s := Expected(data, first);
    var b, m := Stored(data), Clip(more, CAP - |Stored(data)|);
    FindBlankGrows(b, m, 0);
    ExpectedHeaders(data + more, first);
    FeedStepIs(s, more);
    var t := Store(s, more);
    assert (b + m)[..s.bodyStart] == b[..s.bodyStart];
    assert t.buf == b + m;
    assert t.hdrDone && t.bodyStart == s.bodyStart && t.info == s.info;
    assert t.complete == Ended(b, t.bodyStart, t.info);
    assert t.chunkPos == (if t.info.chunked then WalkedTo(b, t.bodyStart, t.info.status, first) else t.bodyStart);
    LaterStep(b, m, t, first);
  }

  // ---------- the theorem about splits ----------

  function Concat(parts: seq<Bytes>): Bytes {
    if |parts| == 0 then "" else Concat(parts[..|parts| - 1]) + parts[|parts| - 1]
  }

  lemma EmptyExpected()
    ensures Plausible("", 0) && Expected("", 0) == INIT && FindBlank(Stored(""), 0).None? && Sound(INIT)
  {
  }

  /** The size of the store after the call that completed the headers. */
  ghost function FirstOf(parts: seq<Bytes>): nat {
    if |parts| == 0 then 0
    else
      var before := parts[..|parts| - 1];
      if FindBlank(Stored(Concat(before)), 0).Some? then FirstOf(before) else |Stored(Concat(parts))|
  }

  /** hr_feed called on one part after the other, from hr_reset on. */
  ghost function FeedAll(parts: seq<Bytes>): (s: State)
    ensures Sound(s)
  {
    if |parts| == 0 then
      EmptyExpected();
      INIT
    else
      var s := FeedAll(parts[..|parts| - 1]);
      FeedSound(s, parts[|parts| - 1]);
      FeedStep(s, parts[|parts| - 1])
  }

  lemma {:induction false} FeedAllIs(parts: seq<Bytes>)
    ensures Plausible(Concat(parts), FirstOf(parts))
    ensures FeedAll(parts) == Expected(Concat(parts), FirstOf(parts))
    decreases |parts|
  {
    hide Walk, HeadersOf, FindBlank, Expected, Ended, FeedStep, Stored, Plausible;
    if |parts| == 0 {
      EmptyExpected();
    } else {
      var before, last := parts[..|parts| - 1], parts[|parts| - 1];
      FeedAllIs(before);
      var data := Concat(before);
      if FindBlank(Stored(data), 0).None? {
        StepBeforeHeaders(data, FirstOf(before), last);
        WholeIsPlausible(data + last);
      } else {
        StepAfterHeaders(data, FirstOf(before), last);
      }
    }
  }

  lemma WholeIsPlausible(data: Bytes)
    ensures Plausible(data, |Stored(data)|)
  {
  }

  /** One call with all the bytes. */
  ghost function OneCall(data: Bytes): State {
    FeedAll([data])
  }

  lemma OneCallIs(data: Bytes)
    ensures Plausible(data, |Stored(data)|) && OneCall(data) == Expected(data, |Stored(data)|)
  {
    hide Expected, Plausible, FeedAll;
    FeedAllIs([data]);
    EmptyExpected();
    assert [data][..0] == [];
    assert Concat([data]) == data;
  }

  /** A chunk of nonzero size starts at p, and all of it is there. */
  predicate WholeChunkAt(b: Bytes, p: nat)
    requires p <= |b|
  {
    match FindLine(b, p)
    case None => false
    case Some(e) => Hex(b[p..e], 0) > 0 && e + 2 + Hex(b[p..e], 0) + 2 <= |b|
  }

  /** The one case in which splits differ, read off the bytes: among those that fit the buffer
      there is a complete header block, it announces a chunked body under a status that has
      no body, and a whole chunk stands right behind it. */
  ghost predicate ChunksWithoutBody(data: Bytes) {
    var b := Stored(data);
    match FindBlank(b, 0)
    case None => false
    case Some(i) =>
      var h := HeadersOf(b[..i + 4]);
      h.chunked && NoBody(h.status) && WholeChunkAt(b, i + 4)
  }

  /** The walker leaves its place exactly over a whole chunk. */
  lemma WalkMovesExactlyWhen(b: Bytes, p: nat)
    requires p <= |b|
    ensures Walk(b, p).0 != p <==> WholeChunkAt(b, p)
  {
    hide Hex;
    if WholeChunkAt(b, p) { WalkFurther(b, FindLine(b, p).value + 2 + Hex(b[p..FindLine(b, p).value], 0) + 2); }
  }

  /** Those are the bytes that make one call move the walker of a response without a body. */
  lemma ChunksWithoutBodyMeans(data: Bytes)
    ensures var s := OneCall(data);
      ChunksWithoutBody(data) <==> s.hdrDone && s.info.chunked && NoBody(s.info.status) && s.chunkPos != s.bodyStart
  {
    hide Walk, HeadersOf, FindBlank, Expected, Stored, OneCall, WholeChunkAt, NoBody;
    OneCallIs(data);
    var b := Stored(data);
    if FindBlank(b, 0).None? {
      ExpectedNoHeaders(data, |b|);
    } else {
      ExpectedHeaders(data, |b|);
      assert b[..|b|] == b;
      WalkMovesExactlyWhen(b, FindBlank(b, 0).value + 4);
    }
  }

  /** However the bytes are cut into calls, every field but the walker's position is the
      same, and so is the position unless the response has chunks but no body. */
  lemma SplitsAgree(parts: seq<Bytes>)
    ensures var s, one := FeedAll(parts), OneCall(Concat(parts));
      && s.(chunkPos := one.chunkPos) == one
      && (!ChunksWithoutBody(Concat(parts)) ==> s == one)
  {
    hide Walk, HeadersOf, FindBlank, Expected, Stored, FeedAll, OneCall, Plausible, ChunksWithoutBody;
    var data := Concat(parts);
    ChunksWithoutBodyMeans(data);
    FeedAllIs(parts);
    OneCallIs(data);
    if FindBlank(Stored(data), 0).None? {
      ExpectedNoHeaders(data, FirstOf(parts));
      ExpectedNoHeaders(data, |Stored(data)|);
    } else {
      ExpectedHeaders(data, FirstOf(parts));
      ExpectedHeaders(data, |Stored(data)|);
      var b := Stored(data);
      var s := OneCall(data);
      assert b[..|b|] == b;
      WalkPrefix(b, s.bodyStart, FirstOf(parts));
    }
  }

  /** A walk over fewer bytes does not get further; if it does not move over all of them, it
      does not move over fewer. */
  lemma WalkPrefix(b: Bytes, p: nat, n: nat)
    requires p <= n <= |b|
    ensures Walk(b, p).0 == p ==> Walk(b[..n], p).0 == p
  {
    hide Walk, Passes;
    assert b[..n] + b[n..] == b;
    WalkPasses(b[..n], p);
    PassesGrows(b[..n], b[n..], p, Walk(b[..n], p).0);
    WalkPasses(b, p);
    WalkResumes(b, p, Walk(b[..n], p).0);
    WalkFurther(b, Walk(b[..n], p).0);
  }

  lemma WalkFurther(b: Bytes, p: nat)
    requires p <= |b|
    ensures p <= Walk(b, p).0
  {
  }

  /** Cutting right behind the headers leaves the walker there. */
  lemma CutBehindHeaders(data: Bytes)
    requires ChunksWithoutBody(data)
    ensures var bs := OneCall(data).bodyStart;
      bs <= |data| && FeedAll([data[..bs], data[bs..]]).chunkPos == bs
  {
    hide Walk, HeadersOf, Expected, FeedAll, OneCall, Plausible, FindBlank, Stored, ChunksWithoutBody;
    ChunksWithoutBodyMeans(data);
    OneCallIs(data);
    if FindBlank(Stored(data), 0).None? {
      ExpectedNoHeaders(data, |Stored(data)|);
    } else {
      ExpectedHeaders(data, |Stored(data)|);
      var bs := OneCall(data).bodyStart;
      StoredPrefix(data, bs);
      var head, tail := data[..bs], data[bs..];
      TwoParts(head, tail);
      assert head + tail == data;
      FeedAllIs([head, tail]);
      BlankInPrefix(Stored(data), bs - 4);
      ExpectedHeaders(data, FirstOf([head, tail]));
      WalkNowhere(head);
    }
  }

  lemma StoredPrefix(data: Bytes, n: nat)
    requires n <= |Stored(data)|
    ensures n <= |data| && Stored(data[..n]) == data[..n] == Stored(data)[..n]
  {
  }

  lemma TwoParts(head: Bytes, tail: Bytes)
    ensures Concat([head, tail]) == head + tail
    ensures FirstOf([head, tail]) == if FindBlank(Stored(head), 0).Some? then |Stored(head)| else |Stored(head + tail)|
  {
    hide Stored, FindBlank;
    EmptyExpected();
    assert [head, tail][..1] == [head] && [head][..0] == [];
    assert Concat([head]) == head;
  }

  lemma {:induction false} BlankAtPrefix(b: Bytes, i: nat, n: nat)
    requires FindBlank(b, i) == Some(n)
    ensures n + 4 <= |b| && FindBlank(b[..n + 4], i) == Some(n)
    decreases n - i
  {
    if !BlankAt(b, i) {
      BlankAtPrefix(b, i + 1, n);
    }
  }

  lemma BlankInPrefix(b: Bytes, n: nat)
    requires FindBlank(b, 0) == Some(n)
    ensures n + 4 <= |b| && FindBlank(b[..n + 4], 0) == Some(n)
  {
    BlankAtPrefix(b, 0, n);
  }

  lemma WalkNowhere(b: Bytes)
    ensures Walk(b, |b|) == (|b|, false)
  {
  }

  /** Splitting never matters for a byte sequence exactly when its bytes are not those of a
      chunked response without a body, with a whole chunk behind its headers. */
  lemma SplitsAgreeExactlyWhen(data: Bytes)
    ensures (forall parts :: Concat(parts) == data ==> FeedAll(parts) == OneCall(data)) <==> !ChunksWithoutBody(data)
  {
    hide FeedAll, OneCall, ChunksWithoutBody;
    if ChunksWithoutBody(data) {
      ChunksWithoutBodyMeans(data);
      CutBehindHeaders(data);
      var bs := OneCall(data).bodyStart;
      var parts := [data[..bs], data[bs..]];
      TwoParts(data[..bs], data[bs..]);
      assert Concat(parts) == data;
    } else {
      forall parts | Concat(parts) == data ensures FeedAll(parts) == OneCall(data) {
        SplitsAgree(parts);
      }
    }
  }

  // ---------- a response whose splits differ ----------

  const STATUS_LINE := "H 204\n"
  const CODING_LINE := "transfer-encoding:chunked\r"
  const HEAD := STATUS_LINE + CODING_LINE + "\n\r\n"
  const CHUNK := "1\r\nx\r\n"

  lemma {:induction false} FindBlankIs(a: Bytes, rest: Bytes, i: nat)
    requires i <= |a| && forall k :: i <= k < |a| ==> a[k] != '\r'
    ensures FindBlank(a + "\r\n\r\n" + rest, i) == Some(|a|)
    decreases |a| - i
  {
    var b := a + "\r\n\r\n" + rest;
    if i < |a| {
      assert b[i] == a[i];
      FindBlankIs(a, rest, i + 1);
    }
  }

  lemma CodingLine()
    ensures NamesChunkedLast(CODING_LINE)
  {
    hide Scan, Tokens;
    var line := CODING_LINE;
    assert line[0] == 't' && "content-length"[0] == 'c';
    assert LowerAll(line[..14])[0] == 't';
    assert ValueFor(line, "content-length").None?;
    assert line[..17] == "transfer-encoding";
    assert LowerAll(line[..17]) == "transfer-encoding";
    ScanIs(line, 18, 18, NotBlank);
    var v := line[18..];
    assert v == "chunked\r";
    assert ValueFor(line, "transfer-encoding") == Some(v);
    ScanIs(v, 0, 7, IsBreak);
    assert ValueOf(v) == "chunked";
    OneToken("chunked");
    assert LowerAll("chunked") == "chunked";
  }

  lemma OneToken(w: Bytes)
    requires |w| > 0 && forall k :: 0 <= k < |w| ==> !IsBlank(w[k]) && !IsComma(w[k]) && !IsSemicolon(w[k])
    ensures Tokens(w) == [w]
  {
    ScanIs(w, 0, |w|, IsComma);
    ScanIs(w, 0, |w|, IsSemicolon);
    assert w[..|w|] == w;
  }

  lemma {:induction false} NoReturnIn(a: Bytes, b: Bytes)
    requires '\r' !in a && '\r' !in b
    ensures forall k :: 0 <= k < |a + b| ==> (a + b)[k] != '\r'
  {
    forall k | 0 <= k < |a + b| ensures (a + b)[k] != '\r' {
      if k < |a| { assert a[k] in a; } else { assert b[k - |a|] in b; }
    }
  }

  lemma ExampleBlank()
    ensures |HEAD| == 35 && FindBlank(HEAD + CHUNK, 0) == Some(31)
  {
    var a, b := STATUS_LINE, "transfer-encoding:chunked";
    assert |a| == 6 && |b| == 25;
    NoReturnIn(a, b);
    assert CODING_LINE == b + "\r";
    assert HEAD == (a + b) + "\r\n\r\n";
    FindBlankIs(a + b, CHUNK, 0);
  }

  lemma StatusLine(rest: Bytes)
    ensures StatusOf(STATUS_LINE + rest) == 204 && LinesAt(STATUS_LINE + rest) == 6
  {
    hide Scan;
    var h := STATUS_LINE + rest;
    assert h[0] == 'H' && h[1] == ' ' && h[2] == '2' && h[3] == '0' && h[4] == '4' && h[5] == '\n';
    ScanIs(h, 0, 1, EndsWord);
    ScanIs(h, 1, 2, NotSpace);
    ScanIs(h, 2, 5, NotDigit);
    ScanIs(h, 5, 5, IsLineFeed);
    DecimalOne(h, 2, 0);
    DecimalOne(h, 3, 2);
    DecimalOne(h, 4, 20);
    DecimalOne(h, 5, 204);
  }

  lemma ExampleLines()
    ensures CODING_LINE in Lines(HEAD, 6)
  {
    hide Scan;
    var l := CODING_LINE;
    assert |l| == 26;
    assert forall k :: 0 <= k < 26 ==> l[k] != '\n' by {
      assert '\n' !in l;
      assert forall k :: 0 <= k < 26 ==> l[k] in l;
    }
    assert forall k :: 6 <= k < 32 ==> HEAD[k] == l[k - 6];
    ScanIs(HEAD, 6, 32, IsLineFeed);
    assert HEAD[6..32] == l;
    assert Lines(HEAD, 6)[0] == l;
  }

  lemma ExampleWalk()
    ensures |HEAD| == 35 && Walk(HEAD + CHUNK, 35).0 == 41
  {
    ExampleBlank();
    var b := HEAD + CHUNK;
    assert |CHUNK| == 6 && CHUNK[0] == '1' && CHUNK[1] == '\r' && CHUNK[2] == '\n';
    assert b[35] == CHUNK[0] && b[36] == CHUNK[1] && b[37] == CHUNK[2];
    hide HEAD;
    assert FindLine(b, 36) == Some(36);
    assert FindLine(b, 35) == Some(36);
    assert b[35..36] == "1";
    assert Hex("1", 0) == 1 by {
      assert "1"[1..] == "";
    }
    assert FindLine(b, 41) == None;
    assert Walk(b, 41) == (41, false);
  }

  /** A 204 response that is chunked all the same, with one whole chunk: two calls cut behind
      the headers leave the walker elsewhere than one call does. */
  lemma SplitsCanDiffer()
    ensures FeedAll([HEAD, CHUNK]) != OneCall(HEAD + CHUNK)
  {
    hide HEAD, CHUNK, Walk, FindBlank, HeadersOf, FeedAll, OneCall, Expected, Lines, LinesAt, StatusOf, ChunksWithoutBody;
    var data := HEAD + CHUNK;
    ExampleBlank();
    ExampleWalk();
    ExampleHeaders();
    ShortStored(data);
    OneCallIs(data);
    ExpectedHeaders(data, |Stored(data)|);
    ChunksWithoutBodyMeans(data);
    assert data[..35] == HEAD && data[35..] == CHUNK;
    assert data[..|data|] == data;
    CutBehindHeaders(data);
  }

  lemma ShortStored(data: Bytes)
    requires |data| <= CAP
    ensures Stored(data) == data
  {
  }

  lemma ExampleHeaders()
    ensures HeadersOf(HEAD).chunked && HeadersOf(HEAD).status == 204 && |HEAD + CHUNK| <= CAP
  {
    hide *;
    HeadParts();
    CodingLine();
    ExampleLines();
    StatusLine(CODING_LINE + "\n\r\n");
    ChunkedExactlyWhen(HEAD);
    StatusKept(HEAD);
  }

  lemma HeadParts()
    ensures HEAD == STATUS_LINE + (CODING_LINE + "\n\r\n") && |HEAD + CHUNK| <= CAP
  {
    ExampleBlank();
    assert |CHUNK| == 6;
  }

  lemma {:induction false} EffectsStatus(info: Info, lines: seq<Bytes>)
    ensures Effects(info, lines).status == info.status
    decreases |lines|
  {
    hide ValueFor, FlagsOf;
    if |lines| > 0 {
      EffectsStatus(LineEffect(info, lines[0]), lines[1..]);
    }
  }

  lemma StatusKept(h: Bytes)
    ensures HeadersOf(h).status == StatusOf(h)
  {
    EffectsStatus(NO_INFO.(status := StatusOf(h)), Lines(h, LinesAt(h)));
  }

  // ---------- the chunked coding, written and read ----------

  function HexDigit(v: nat): char
    requires v < 16
  {
    if v < 10 then ('0' as int + v) as char else ('a' as int + v - 10) as char
  }

  function HexOf(n: nat): (s: Bytes)
    ensures |s| >= 1
  {
    if n < 16 then [HexDigit(n)] else HexOf(n / 16) + [HexDigit(n % 16)]
  }

  lemma {:induction false} HexAppend(s: Bytes, d: char, acc: nat)
    requires (forall k :: 0 <= k < |s| ==> IsHex(s[k])) && IsHex(d)
    ensures Hex(s + [d], acc) == 16 * Hex(s, acc) + HexVal(d)
    decreases |s|
  {
    if |s| == 0 {
      assert s + [d] == [d] && [d][1..] == "";
    } else {
      assert (s + [d])[1..] == s[1..] + [d];
      HexAppend(s[1..], d, 16 * acc + HexVal(s[0]));
    }
  }

  lemma {:induction false} HexRoundTrip(n: nat)
    ensures forall k :: 0 <= k < |HexOf(n)| ==> IsHex(HexOf(n)[k])
    ensures Hex(HexOf(n), 0) == n
  {
    var d := HexDigit(n % 16);
    if n < 16 {
      assert [d][1..] == "";
    } else {
      HexRoundTrip(n / 16);
      HexAppend(HexOf(n / 16), d, 0);
    }
  }

  /** chunk-size CRLF chunk-data CRLF. */
  function EncodeChunk(c: Bytes): Bytes {
    HexOf(|c|) + "\r\n" + c + "\r\n"
  }

  function Encode(cs: seq<Bytes>): Bytes {
    if |cs| == 0 then "" else EncodeChunk(cs[0]) + Encode(cs[1..])
  }

  function Flatten(cs: seq<Bytes>): Bytes {
    if |cs| == 0 then "" else cs[0] + Flatten(cs[1..])
  }

  lemma {:induction false} FindLineIs(b: Bytes, i: nat, e: nat)
    requires i <= e && CrlfAt(b, e) && forall k :: i <= k < e ==> b[k] != '\r'
    ensures FindLine(b, i) == Some(e)
    decreases e - i
  {
    if i < e {
      FindLineIs(b, i + 1, e);
    }
  }

  lemma SizeLine(b: Bytes, p: nat, n: nat)
    requires p + |HexOf(n)| + 2 <= |b| && b[p..p + |HexOf(n)|] == HexOf(n) && CrlfAt(b, p + |HexOf(n)|)
    ensures var e := p + |HexOf(n)|; FindLine(b, p) == Some(e) && Hex(b[p..e], 0) == n
  {
    hide HexOf, FindLine;
    var e := p + |HexOf(n)|;
    HexRoundTrip(n);
    assert forall k :: p <= k < e ==> b[k] == HexOf(n)[k - p];
    FindLineIs(b, p, e);
  }

  lemma PartsOf(t: Bytes, h: Bytes, c: Bytes)
    requires t == h + "\r\n" + c + "\r\n"
    ensures |t| == |h| + 2 + |c| + 2 && t[..|h|] == h && t[|h|] == '\r' && t[|h| + 1] == '\n'
    ensures t[|h| + 2..|h| + 2 + |c|] == c
  {
  }

  lemma ChunkParts(b: Bytes, p: nat, next: nat, c: Bytes)
    requires p <= next <= |b| && b[p..next] == EncodeChunk(c)
    ensures var e := p + |HexOf(|c|)|;
      && next == e + 2 + |c| + 2 && b[p..e] == HexOf(|c|) && CrlfAt(b, e) && b[e + 2..e + 2 + |c|] == c
  {
    hide HexOf;
    var t, h := b[p..next], |HexOf(|c|)|;
    PartsOf(t, HexOf(|c|), c);
    hide EncodeChunk;
    SubSlice(b, p, next, 0, h);
    SubSlice(b, p, next, h + 2, h + 2 + |c|);
    assert b[p + h] == t[h] && b[p + h + 1] == t[h + 1];
    assert next == p + h + 2 + |c| + 2;
    assert CrlfAt(b, p + h);
    assert p + 0 == p;
    assert b[p..p + h] == HexOf(|c|);
    assert p + (h + 2) == p + h + 2;
    assert b[p + h + 2..p + h + 2 + |c|] == c;
  }

  lemma SubSlice(b: Bytes, p: nat, q: nat, i: nat, j: nat)
    requires p <= q <= |b| && i <= j <= q - p
    ensures b[p..q][i..j] == b[p + i..p + j]
  {
    var t, u := b[p..q][i..j], b[p + i..p + j];
    forall k | 0 <= k < j - i ensures t[k] == u[k] {
      assert t[k] == b[p..q][i + k];
    }
  }

  /** A whole chunk, as the walker and the unwrapper see it. */
  lemma ChunkStep(b: Bytes, p: nat, next: nat, c: Bytes)
    requires |c| > 0 && p <= next <= |b| && b[p..next] == EncodeChunk(c)
    ensures p < next && Walk(b, p) == Walk(b, next) && Unwrap(b, p) == c + Unwrap(b, next)
  {
    hide Hex, HexOf, FindLine, Unwrap, EncodeChunk;
    ChunkParts(b, p, next, c);
    SizeLine(b, p, |c|);
    var e := p + |HexOf(|c|)|;
    assert next == e + 2 + Hex(b[p..e], 0) + 2;
    UnwrapOnce(b, p, e);
    assert Walk(b, p) == Walk(b, next);
    assert Unwrap(b, p) == c + Unwrap(b, next);
  }

  /** The last-chunk line. */
  lemma LastChunk(b: Bytes, p: nat)
    requires p + 3 <= |b| && b[p..p + 3] == "0\r\n"
    ensures Walk(b, p) == (p, true) && Unwrap(b, p) == ""
  {
    hide Hex, FindLine;
    assert HexOf(0) == "0";
    var t := b[p..p + 3];
    assert b[p] == t[0] && b[p + 1] == t[1] && b[p + 2] == t[2];
    assert b[p..p + 1] == "0";
    SizeLine(b, p, 0);
  }

  /** Reading back what the chunked coding of section 4.1 wrote: the walker passes every
      chunk and stops at the last-chunk line, and the body is the concatenated data. */
  lemma {:induction false} DecodeEncoded(b: Bytes, p: nat, q: nat, cs: seq<Bytes>)
    requires forall c :: c in cs ==> |c| > 0
    requires p <= q && q + 3 <= |b| && b[p..q] == Encode(cs) && b[q..q + 3] == "0\r\n"
    ensures Walk(b, p) == (q, true) && Unwrap(b, p) == Flatten(cs)
    decreases |cs|
  {
    hide Walk, Unwrap, EncodeChunk;
    if |cs| == 0 {
      LastChunk(b, p);
    } else {
      var next := p + |EncodeChunk(cs[0])|;
      assert b[p..q][..next - p] == b[p..next] && b[p..q][next - p..] == b[next..q];
      ChunkStep(b, p, next, cs[0]);
      DecodeEncoded(b, next, q, cs[1..]);
    }
  }

  // ---------- the code ----------

  const INT_MAX := 0x7FFF_FFFF

  /** The input limits: the status code fits an int and size lines have at most 7 digits. */
  ghost predicate Fits(s: State) {
    s.hdrDone && s.bodyStart <= |s.buf| ==>
      StatusOf(s.buf[..s.bodyStart]) <= INT_MAX && (s.info.chunked ==> ShortLines(s.buf, s.bodyStart))
  }

  lemma HexGrows(s: Bytes, acc: nat)
    ensures acc <= Hex(s, acc)
  {
  }

  lemma HexOne(b: Bytes, i: nat, e: nat, acc: nat)
    requires i <= e <= |b|
    ensures Hex(b[i..e], acc) == if i < e && IsHex(b[i]) then Hex(b[i + 1..e], 16 * acc + HexVal(b[i])) else acc
  {
    if i < e {
      assert b[i..e][1..] == b[i + 1..e];
    }
  }

  lemma {:induction false} FindLineAgrees(a: Bytes, b: Bytes, i: nat, r: nat)
    requires |a| == |b| && r <= i && r <= |a| && a[r..] == b[r..]
    ensures FindLine(a, i) == FindLine(b, i)
    decreases |a| - i
  {
    if i + 1 < |a| {
      assert a[i] == a[r..][i - r] && a[i + 1] == a[r..][i + 1 - r];
      assert b[i] == b[r..][i - r] && b[i + 1] == b[r..][i + 1 - r];
      FindLineAgrees(a, b, i + 1, r);
    }
  }

  /** The loop that looks for the CRLF of a size line from p on. */
  method EndOfLine(b: array<char>, n: nat, p: nat) returns (e: nat)
    requires p <= n <= b.Length
    ensures e + 1 >= n <==> FindLine(b[..n], p).None?
    ensures e + 1 < n ==> FindLine(b[..n], p) == Some(e)
  {
    hide CrlfAt, FindLine;
    e := p;
    ghost var s := b[..n];
    FindLineOne(s, p);
    while e + 1 < n && !(b[e] == '\r' && b[e + 1] == '\n')
      invariant p <= e && FindLine(s, e) == FindLine(s, p)
    {
      FindLineOne(s, e);
      e := e + 1;
    }
    FindLineOne(s, e);
  }

  lemma FindLineOne(s: Bytes, e: nat)
    ensures FindLine(s, e)
      == if e + 1 >= |s| then None else if s[e] == '\r' && s[e + 1] == '\n' then Some(e) else FindLine(s, e + 1)
  {
  }

  /** The loop that reads the hexadecimal size of b[p..e], in u32 arithmetic. */
  method ReadSize(b: array<char>, n: nat, p: nat, e: nat) returns (size: nat, any: bool)
    requires p <= e <= n <= b.Length && Digits(b[..n][p..e]) <= 7
    ensures size == Hex(b[..n][p..e], 0) < 0x1000_0000 && (!any ==> size == 0)
  {
    hide Hex, Digits, IsHex, HexVal;
    ghost var s := b[..n];
    ghost var goal := Hex(s[p..e], 0);
    SevenDigits(s[p..e]);
    size, any := 0, false;
    var i := p;
    while i < e
      invariant p <= i <= e && Hex(s[i..e], size) == goal && (!any ==> size == 0)
    {
      HexOne(s, i, e, size);
      if !IsHex(b[i]) { break; }
      HexGrows(s[i + 1..e], 16 * size + HexVal(b[i]));
      size := (16 * size + HexVal(b[i])) % U32;
      any := true;
      i := i + 1;
    }
    HexOne(s, i, e, size);
  }

  lemma WalkOnce(b: Bytes, p: nat)
    requires p <= |b| && ShortLines(b, p)
    ensures FindLine(b, p).None? ==> Walk(b, p) == (p, false)
    ensures FindLine(b, p).Some? ==>
      var e := FindLine(b, p).value;
      && p <= e <= |b| && Digits(b[p..e]) <= 7
      && var next := e + 2 + Hex(b[p..e], 0) + 2;
         if Hex(b[p..e], 0) == 0 then Walk(b, p) == (p, true)
         else if next > |b| then Walk(b, p) == (p, false)
         else Walk(b, p) == Walk(b, next) && ShortLines(b, next)
  {
    hide Hex, Digits;
  }

  /** A size of seven digits behind a line of the buffer stays within 32 bits. */
  lemma NoWrap(e: nat, size: nat)
    requires e <= 0x4_0000 && size < 0x1000_0000
    ensures (e + 2 + size + 2) % 0x1_0000_0000 == e + 2 + size + 2
  {
  }

  /** HR_BUF and hr. */
  class Response {
    const buf: array<char>
    var len: nat
    var truncated: bool
    var tooBig: bool
    var hdrDone: bool
    var bodyStart: nat
    var info: Info
    var complete: bool
    var chunkPos: nat
    var finished: bool
    var bodyLen: nat

    ghost function View(): State
      requires len <= buf.Length
      reads this, buf
    {
      State(buf[..len], truncated, tooBig, hdrDone, bodyStart, info, complete, chunkPos)
    }

    ghost predicate Valid()
      reads this, buf
    {
      buf.Length == CAP && len <= CAP && Sound(View())
    }

    /** hr_reset. */
    constructor ()
      ensures Valid() && fresh(buf) && View() == INIT && !finished
    {
      buf := new char[CAP];
      len, truncated, tooBig, hdrDone, bodyStart := 0, false, false, false, 0;
      info, complete, chunkPos, finished, bodyLen := NO_INFO, false, 0, false, 0;
      new;
      EmptyExpected();
      assert buf[..0] == "";
    }

    /** kernel/httpresp.h hr_walk_chunks. */
    method WalkChunks()
      requires buf.Length == CAP && len <= CAP && chunkPos <= len && ShortLines(buf[..len], chunkPos)
      modifies this`chunkPos, this`complete
      ensures chunkPos == Walk(buf[..len], old(chunkPos)).0
      ensures complete == (old(complete) || Walk(buf[..len], old(chunkPos)).1)
    {
      assert len <= 0x4_0000;
      hide *;
      ghost var b := buf[..len];
      ghost var goal := Walk(b, chunkPos);
      while true
        invariant chunkPos <= len && Walk(b, chunkPos) == goal && ShortLines(b, chunkPos) && complete == old(complete)
        decreases len - chunkPos
      {
        var p := chunkPos;
        WalkOnce(b, p);
        var lineEnd := EndOfLine(buf, len, p);
        if lineEnd + 1 >= len { return; }
        var size, any := ReadSize(buf, len, p, lineEnd);
        if !any { complete := true; return; }
        if size == 0 { complete := true; return; }
        var next := (lineEnd + 2 + size + 2) % 0x1_0000_0000;
        NoWrap(lineEnd, size);
        if next > len { return; }
        chunkPos := next;
      }
    }

    /** The first loop of hr_feed: the bytes that fit are copied behind the stored ones. */
    method Append(data: Bytes) returns (take: nat)
      requires buf.Length == CAP && len <= CAP
      modifies buf, this`len, this`truncated
      ensures len <= CAP && take == |Clip(data, CAP - old(len))|
      ensures buf[..len] == old(buf[..len]) + Clip(data, CAP - old(len))
      ensures truncated == (old(truncated) || |data| > CAP - old(len))
    {
      var room := CAP - len;
      take := if |data| < room then |data| else room;
      if take < |data| { truncated := true; }
      ghost var was := buf[..len];
      for i := 0 to take
        invariant len == old(len) && truncated == (old(truncated) || |data| > room)
        invariant len + i <= CAP && buf[..len + i] == was + data[..i]
      {
        buf[len + i] := data[i];
        assert buf[..len + i + 1] == buf[..len + i] + [data[i]];
        assert data[..i + 1] == data[..i] + [data[i]];
      }
      assert data[..take] == Clip(data, room);
      len := len + take;
    }

    /** The search of hr_feed for the blank line, and what it starts. */
    method SearchHeaders(old_: nat)
      requires buf.Length == CAP && len <= CAP && !hdrDone
      requires Sound(FindHeaders(View(), old_)) && Fits(FindHeaders(View(), old_))
      modifies this`hdrDone, this`bodyStart, this`info, this`chunkPos, this`tooBig
      ensures View() == FindHeaders(old(View()), old_)
    {
      hide *;
      ghost var s := View();
      ViewIs();
      var i := if old_ >= 3 then old_ - 3 else 0;
      ghost var from := i;
      ghost var b := buf[..len];
      BlankOne(b, i);
      while i + 3 < len && !(buf[i] == '\r' && buf[i + 1] == '\n' && buf[i + 2] == '\r' && buf[i + 3] == '\n')
        invariant FindBlank(b, i) == FindBlank(b, from) && View() == s
      {
        BlankOne(b, i);
        i := i + 1;
      }
      BlankOne(b, i);
      HeadersFound(s, old_, i);
      if i + 3 < len {
        assert s.buf[..i + 4] == buf[..i + 4];
        var parsed := ParseHeaders(buf[..i + 4]);
        hdrDone, bodyStart, info, chunkPos := true, i + 4, parsed, i + 4;
        tooBig := info.haveClen && !info.chunked && info.clen > 0x4_0000 - bodyStart;
      }
      ViewIs();
    }

    lemma ViewIs()
      requires len <= buf.Length
      ensures View() == State(buf[..len], truncated, tooBig, hdrDone, bodyStart, info, complete, chunkPos)
    {
    }

    /** The last part of hr_feed. */
    method CheckComplete()
      requires buf.Length == CAP && len <= CAP && Sound(View()) && Fits(View())
      modifies this`chunkPos, this`complete
      ensures View() == CheckEnd(old(View()))
    {
      hide *;
      ghost var f := View();
      ViewIs();
      CheckIs(f);
      if hdrDone && !complete {
        if info.chunked {
          ResumeShort(f);
          WalkChunks();
        } else if info.haveClen && len - bodyStart >= info.clen {
          complete := true;
        }
        if info.status == 204 || info.status == 304 || (info.status >= 100 && info.status < 200) { complete := true; }
      }
      ViewIs();
    }

    /** kernel/httpresp.h hr_feed: the new state is that of hr_feed on values. */
    method Feed(data: Bytes) returns (take: nat)
      requires Valid() && Fits(FeedStep(View(), data))
      modifies buf, this`len, this`truncated, this`hdrDone, this`bodyStart, this`info, this`chunkPos, this`tooBig, this`complete
      ensures Valid() && View() == FeedStep(old(View()), data)
      ensures take == |Clip(data, CAP - old(len))|
    {
      assert buf.Length == CAP && len <= CAP && Sound(View());
      hide *;
      ghost var s := View();
      ViewIs();
      FeedStepIs(s, data);
      FeedSound(s, data);
      SoundMeans(s);
      var old_ := len;
      take := Append(data);
      assert View() == Store(s, data);
      ghost var f := FindHeaders(Store(s, data), old_);
      CheckKeeps(f);
      FindNothing(View(), old_);
      if !hdrDone {
        SearchHeaders(old_);
      }
      assert View() == f;
      CheckComplete();
    }

    /** The forward copy of hr_finish, to a place not above where it reads. */
    method MoveDown(w: nat, d: nat, n: nat)
      requires w <= d && d + n <= len <= buf.Length
      modifies buf
      ensures Moved(old(buf[..len]), buf[..len], w, d, n)
    {
      ghost var was := buf[..len];
      for i := 0 to n
        invariant forall k :: 0 <= k < w ==> buf[k] == was[k]
        invariant forall k :: w <= k < w + i ==> buf[k] == was[k + (d - w)]
        invariant forall k :: d + i <= k < len ==> buf[k] == was[k]
      {
        buf[w + i] := buf[d + i];
      }
      MovedFrom(was, buf[..len], w, d, n);
    }

    /** One chunk of the unwrapping loop: false when the loop must stop. */
    method UnwrapChunk(ghost b: Bytes, r: nat, w: nat) returns (more: bool, r': nat, w': nat)
      requires len <= buf.Length && r < len == |b| <= 0x4_0000
      requires InPlace(b, bodyStart, buf[..len], r, w) && ShortLines(b, r)
      modifies buf
      ensures InPlace(b, bodyStart, buf[..len], r', w') && (r' <= len ==> ShortLines(b, r'))
      ensures if more then r' > r else Unwrap(b, r') == ""
    {
      hide *;
      InPlaceAt(b, bodyStart, buf[..len], r, w);
      FindLineAgrees(buf[..len], b, r, r);
      UnwrapCases(b, r);
      WalkOnce(b, r);
      more, r', w' := false, r, w;
      var lineEnd := EndOfLine(buf, len, r);
      if lineEnd + 1 >= len { return; }
      SameLine(buf[..len], b, r, lineEnd);
      var size, any := ReadSize(buf, len, r, lineEnd);
      if !any || size == 0 { return; }
      var data := lineEnd + 2;
      var avail := len - data;
      var take := if size < avail then size else avail;
      ghost var cur := buf[..len];
      MoveDown(w, data, take);
      r' := (data + size + 2) % 0x1_0000_0000;
      w' := w + take;
      more := true;
      InPlaceStep(b, bodyStart, cur, buf[..len], r, w, data, take, r');
    }

    /** The chunked branch of hr_finish: the write cursor w never passes the read cursor r. */
    method UnwrapInPlace() returns (w: nat)
      requires bodyStart <= len <= buf.Length == CAP && ShortLines(buf[..len], bodyStart)
      modifies buf
      ensures bodyStart <= w <= len && buf[bodyStart..w] == Unwrap(old(buf[..len]), bodyStart)
      ensures buf[..bodyStart] == old(buf[..bodyStart])
    {
      assert len <= 0x4_0000;
      hide *;
      ghost var b := buf[..len];
      PrefixSlices(buf, len, bodyStart, bodyStart);
      var r := bodyStart;
      w := bodyStart;
      InPlaceStart(b, bodyStart);
      while r < len
        invariant InPlace(b, bodyStart, buf[..len], r, w) && (r <= len ==> ShortLines(b, r))
        decreases if len >= r then len - r else 0
      {
        var more;
        more, r, w := UnwrapChunk(b, r, w);
        if !more { break; }
      }
      UnwrapCases(b, r);
      InPlaceEnds(b, bodyStart, buf[..len], r, w);
      PrefixSlices(buf, len, bodyStart, w);
    }

    /** kernel/httpresp.h hr_finish: the buffer holds the page at body_start. */
    method Finish()
      requires Valid() && (!finished ==> Fits(View()))
      modifies buf, this`bodyStart, this`bodyLen, this`finished
      ensures finished && len == old(len)
      ensures old(finished) ==> bodyStart == old(bodyStart) && bodyLen == old(bodyLen) && buf[..] == old(buf[..])
      ensures !old(finished) ==> bodyStart == (if hdrDone then old(bodyStart) else 0)
      ensures !old(finished) ==> bodyStart + bodyLen <= len && buf[bodyStart..bodyStart + bodyLen] == BodyOf(old(View()))
    {
      if finished { return; }
      ghost var s := View();
      if !hdrDone {
        bodyStart, bodyLen, finished := 0, len, true;
        return;
      }
      if info.chunked {
        var w := UnwrapInPlace();
        bodyLen := w - bodyStart;
      } else {
        bodyLen := len - bodyStart;
        if info.haveClen && info.clen < bodyLen { bodyLen := info.clen; }
        PlainBody(buf, len, bodyStart, bodyLen);
      }
      finished := true;
    }
  }

  /** The page of a finished response. */
  function BodyOf(s: State): Bytes
    requires s.bodyStart <= |s.buf|
  {
    if !s.hdrDone then s.buf
    else if s.info.chunked then Unwrap(s.buf, s.bodyStart)
    else if s.info.haveClen && s.info.clen < |s.buf| - s.bodyStart then s.buf[s.bodyStart..s.bodyStart + s.info.clen]
    else s.buf[s.bodyStart..]
  }

  ghost predicate Moved(was: Bytes, now: Bytes, w: nat, d: nat, n: nat) {
    && |now| == |was| && w <= d && d + n <= |was|
    && now[..w] == was[..w] && now[w..w + n] == was[d..d + n] && now[d + n..] == was[d + n..]
  }

  lemma MovedFrom(was: Bytes, now: Bytes, w: nat, d: nat, n: nat)
    requires |now| == |was| && w <= d && d + n <= |was|
    requires forall k :: 0 <= k < w ==> now[k] == was[k]
    requires forall k :: w <= k < w + n ==> now[k] == was[k + (d - w)]
    requires forall k :: d + n <= k < |was| ==> now[k] == was[k]
    ensures Moved(was, now, w, d, n)
  {
  }

  lemma InPlaceStart(b: Bytes, bs: nat)
    requires bs <= |b|
    ensures InPlace(b, bs, b, bs, bs)
  {
    assert b[bs..bs] == "";
  }

  lemma InPlaceAt(b: Bytes, bs: nat, cur: Bytes, r: nat, w: nat)
    requires InPlace(b, bs, cur, r, w)
    ensures |cur| == |b| && bs <= w <= r && w <= |b| && (r <= |b| ==> cur[r..] == b[r..])
  {
    hide Unwrap;
  }

  lemma InPlaceEnds(b: Bytes, bs: nat, cur: Bytes, r: nat, w: nat)
    requires InPlace(b, bs, cur, r, w) && Unwrap(b, r) == ""
    ensures bs <= w <= |b| == |cur| && cur[bs..w] == Unwrap(b, bs) && cur[..bs] == b[..bs]
  {
    hide Unwrap;
    assert cur[bs..w] + "" == cur[bs..w];
  }

  lemma InPlaceStep(b: Bytes, bs: nat, cur: Bytes, now: Bytes, r: nat, w: nat, d: nat, n: nat, next: nat)
    requires InPlace(b, bs, cur, r, w) && r <= d && d + n <= |b| && next >= d + n
    requires Unwrap(b, r) == b[d..d + n] + Unwrap(b, next)
    requires Moved(cur, now, w, d, n)
    ensures InPlace(b, bs, now, next, w + n)
  {
    hide Unwrap;
    SuffixSlice(cur, b, r, d, d + n);
    var done, added := cur[bs..w], b[d..d + n];
    Joined(now, bs, w, w + n);
    assert now[bs..w] == now[..w][bs..] == done;
    assert now[bs..w + n] == done + added;
    assert (done + added) + Unwrap(b, next) == done + (added + Unwrap(b, next));
    if next <= |b| {
      assert now[next..] == now[d + n..][next - (d + n)..];
      assert cur[next..] == cur[d + n..][next - (d + n)..] == cur[r..][next - r..];
      assert b[next..] == b[r..][next - r..];
    }
    assert now[..bs] == now[..w][..bs] && cur[..bs] == cur[..w][..bs];
  }

  lemma Joined(s: Bytes, i: nat, j: nat, k: nat)
    requires i <= j <= k <= |s|
    ensures s[i..k] == s[i..j] + s[j..k]
  {
  }

  lemma SuffixSlice(a: Bytes, b: Bytes, r: nat, i: nat, j: nat)
    requires |a| == |b| && r <= i <= j <= |a| && a[r..] == b[r..]
    ensures a[i..j] == b[i..j]
  {
    forall k | i <= k < j ensures a[k] == b[k] {
      assert a[k] == a[r..][k - r] && b[k] == b[r..][k - r];
    }
  }

  lemma SameLine(a: Bytes, b: Bytes, r: nat, e: nat)
    requires |a| == |b| && r <= e <= |a| && a[r..] == b[r..]
    ensures a[r..e] == b[r..e]
  {
    SuffixSlice(a, b, r, r, e);
  }

  lemma UnwrapCases(b: Bytes, r: nat)
    ensures r >= |b| ==> Unwrap(b, r) == ""
    ensures r < |b| && FindLine(b, r).None? ==> Unwrap(b, r) == ""
    ensures r < |b| && FindLine(b, r).Some? ==>
      var e := FindLine(b, r).value; var size := Hex(b[r..e], 0);
      if size == 0 then Unwrap(b, r) == ""
      else var take := if size < |b| - (e + 2) then size else |b| - (e + 2);
           Unwrap(b, r) == b[e + 2..e + 2 + take] + Unwrap(b, e + 2 + size + 2)
  {
    hide Hex;
  }

  lemma PrefixSlices(a: array<char>, n: nat, i: nat, j: nat)
    requires i <= j <= n <= a.Length
    ensures a[..n][i..j] == a[i..j] && a[..n][..i] == a[..i]
  {
  }

  lemma PlainBody(a: array<char>, n: nat, i: nat, m: nat)
    requires i + m <= n <= a.Length
    ensures a[..n][i..i + m] == a[i..i + m] && (i + m == n ==> a[..n][i..] == a[i..i + m])
  {
  }

  lemma BlankOne(b: Bytes, i: nat)
    ensures FindBlank(b, i)
      == if i + 3 >= |b| then None
         else if b[i] == '\r' && b[i + 1] == '\n' && b[i + 2] == '\r' && b[i + 3] == '\n' then Some(i)
         else FindBlank(b, i + 1)
  {
  }

  lemma CheckKeeps(f: State)
    requires Sound(f)
    ensures var c := CheckEnd(f);
      c.buf == f.buf && c.bodyStart == f.bodyStart && c.info == f.info && c.hdrDone == f.hdrDone && Fits(c) == Fits(f)
  {
    hide Walk, Passes, ShortLines, StatusOf;
  }

  lemma FindNothing(s: State, old_: nat)
    requires |s.buf| <= CAP
    ensures s.hdrDone ==> FindHeaders(s, old_) == s
    ensures FindHeaders(s, old_).buf == s.buf && FindHeaders(s, old_).complete == s.complete
  {
    hide HeadersOf, FindBlank;
  }

  lemma CheckIs(f: State)
    requires Sound(f)
    ensures |f.buf| <= CAP && f.bodyStart <= |f.buf| && (f.hdrDone && f.info.chunked ==> f.chunkPos <= |f.buf|)
    ensures !f.hdrDone || f.complete ==> CheckEnd(f) == f
    ensures f.hdrDone && !f.complete ==>
      var st := f.info.status;
      var none := st == 204 || st == 304 || 100 <= st < 200;
      if f.info.chunked then
        CheckEnd(f) == f.(chunkPos := Walk(f.buf, f.chunkPos).0, complete := Walk(f.buf, f.chunkPos).1 || none)
      else
        CheckEnd(f) == f.(complete := (f.info.haveClen && |f.buf| - f.bodyStart >= f.info.clen) || none)
  {
    hide Walk, Passes;
  }

  lemma ResumeShort(f: State)
    requires Sound(f) && Fits(f) && f.hdrDone && f.info.chunked
    ensures f.chunkPos <= |f.buf| && ShortLines(f.buf, f.chunkPos)
  {
    hide Walk, Passes, ShortLines, StatusOf;
    WalkResumes(f.buf, f.bodyStart, f.chunkPos);
  }

  lemma HeadersFound(s: State, old_: nat, i: nat)
    requires |s.buf| <= CAP && !s.hdrDone && Sound(FindHeaders(s, old_)) && Fits(FindHeaders(s, old_))
    requires FindBlank(s.buf, if old_ >= 3 then old_ - 3 else 0) == if i + 3 < |s.buf| then Some(i) else None
    ensures i + 3 >= |s.buf| ==> FindHeaders(s, old_) == s
    ensures i + 3 < |s.buf| ==> StatusOf(s.buf[..i + 4]) <= 0x7FFF_FFFF
    ensures i + 3 < |s.buf| ==>
      var info := HeadersOf(s.buf[..i + 4]);
      FindHeaders(s, old_) == s.(hdrDone := true, bodyStart := i + 4, info := info, chunkPos := i + 4,
        tooBig := info.haveClen && !info.chunked && info.clen > 0x4_0000 - (i + 4))
  {
    hide HeadersOf, FindBlank, Passes, ShortLines, StatusOf;
  }

  /** The state of the unwrapping loop: what is written so far and what is still to come make
      up the body, and the bytes from the read cursor on are the original ones. */
  ghost predicate InPlace(b: Bytes, bs: nat, cur: Bytes, r: nat, w: nat) {
    && |cur| == |b| && bs <= w <= r && w <= |b|
    && cur[..bs] == b[..bs] && (r <= |b| ==> cur[r..] == b[r..])
    && cur[bs..w] + Unwrap(b, r) == Unwrap(b, bs)
  }

  /** Whatever the calls were: when the walker has seen the end of a chunked body, the page
      hr_finish leaves consists of exactly the chunks the walker passed. */
  lemma FinishedPage(parts: seq<Bytes>)
    requires var s := FeedAll(parts); s.complete && s.info.chunked && !NoBody(s.info.status)
    ensures var s := FeedAll(parts);
      Sound(s) && s.hdrDone && BodyOf(s) == Passed(s.buf, s.bodyStart, s.chunkPos)
  {
    hide Walk, HeadersOf, FindBlank, Expected, Stored, FeedAll, Plausible, Passes, Unwrap, Passed;
    var data, first := Concat(parts), FirstOf(parts);
    FeedAllIs(parts);
    if FindBlank(Stored(data), 0).None? {
      ExpectedNoHeaders(data, first);
    } else {
      ExpectedHeaders(data, first);
      UnwrapIsPassed(Stored(data), FeedAll(parts).bodyStart);
    }
  }
}
