/** Byte strings, and the scanning loops the parsers share.  Bytes are characters 0..255. */
module Scanning {
  type Bytes = string

  /** The first position from p on whose byte satisfies stop, or the end. */
  function Scan(s: Bytes, p: nat, stop: char -> bool): (q: nat)
    requires p <= |s|
    ensures p <= q <= |s| && (q < |s| ==> stop(s[q])) && forall k :: p <= k < q ==> !stop(s[k])
    decreases |s| - p
  {
    if p == |s| || stop(s[p]) then p else Scan(s, p + 1, stop)
  }

  /** A scan is determined by what it must find. */
  lemma {:induction false} ScanIs(s: Bytes, p: nat, q: nat, stop: char -> bool)
    requires p <= q <= |s| && (q < |s| ==> stop(s[q])) && forall k :: p <= k < q ==> !stop(s[k])
    ensures Scan(s, p, stop) == q
    decreases q - p
  {
    if p < q {
      ScanIs(s, p + 1, q, stop);
    }
  }

  /** The `while (p < end && ...) p++` loops. */
  method Skip(s: Bytes, p0: nat, stop: char -> bool) returns (p: nat)
    requires p0 <= |s|
    ensures p == Scan(s, p0, stop)
  {
    p := p0;
    while p < |s| && !stop(s[p])
      invariant p0 <= p <= |s| && Scan(s, p, stop) == Scan(s, p0, stop)
    {
      p := p + 1;
    }
  }

  /** The blanks of HTML and CSS. */
  predicate IsWs(c: char) {
    c == ' ' || c == '\t' || c == '\n' || c == '\r' || c as int == 12
  }

  function Lower(c: char): char {
    if 'A' <= c <= 'Z' then (c as int + 32) as char else c
  }

  function LowerAll(s: Bytes): (r: Bytes)
    ensures |r| == |s|
  {
    seq(|s|, i requires 0 <= i < |s| => Lower(s[i]))
  }
}
