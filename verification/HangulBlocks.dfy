/** kernel/hangul_ime.h: what any string of keys is written as.  The automaton, with its hand-back
    of a tentative final, writes the one division of the typed jamo into blocks. */
module HangulBlocks {
  import opened HangulIme
  import opened Octets

  // ---------- any keys at all: the blocks they form ----------

  datatype Jamo = C(c: int) | V(v: int)

  /** What is written as one character: a consonant alone, or a block of an initial, one or two
      vowels and up to two final consonants.  The initial of a silent block was not typed. */
  datatype Block = Lone(c: int) | Full(silent: bool, i: int, vs: seq<int>, cs: seq<int>) {
    predicate Valid() {
      match this
      case Lone(c) => 0 <= c <= 18
      case Full(silent, i, vs, cs) =>
        && 0 <= i <= 18 && (silent ==> i == 11) && 1 <= |vs| <= 2 && |cs| <= 2
        && (forall k :: 0 <= k < |vs| ==> OneKeyVowel(vs[k])) && (forall k :: 0 <= k < |cs| ==> 0 <= cs[k] <= 18)
        && (|vs| == 2 ==> CombineMedial(vs[0], vs[1]) >= 0)
        && (|cs| >= 1 ==> SIMPLE_FINAL[cs[0]] >= 0)
        && (|cs| == 2 ==> CombineFinal(SIMPLE_FINAL[cs[0]], cs[1]) >= 0)
    }

    function Medial(): (m: int)
      requires Valid() && Full?
      ensures 0 <= m <= 20
    {
      if |vs| == 1 then vs[0] else CombineMedial(vs[0], vs[1])
    }

    function Final(): (f: int)
      requires Valid() && Full?
      ensures 0 <= f <= 27
    {
      if |cs| == 0 then 0 else if |cs| == 1 then SIMPLE_FINAL[cs[0]] else CombineFinal(SIMPLE_FINAL[cs[0]], cs[1])
    }

    /** The character it is written as. */
    function Written(): (cp: int)
      requires Valid()
      ensures 0 <= cp < 0x1_0000
    {
      if Lone? then JAMO[c] else CodePoint(Syllable(i, Medial(), Final()))
    }

    function Held(): (s: Cell)
      requires Valid()
      ensures s.Valid()
    {
      if Lone? then Cell(c, -1, -1) else Cell(i, Medial(), if |cs| == 0 then -1 else Final())
    }

    /** The jamo that were typed for it. */
    function Typed(): seq<Jamo> {
      match this
      case Lone(c) => [C(c)]
      case Full(silent, i, vs, cs) => (if silent then [] else [C(i)]) + Vowels(vs) + Consonants(cs)
    }
  }

  function Vowels(vs: seq<int>): (r: seq<Jamo>)
    ensures |r| == |vs|
  {
    seq(|vs|, k requires 0 <= k < |vs| => V(vs[k]))
  }

  function Consonants(cs: seq<int>): (r: seq<Jamo>)
    ensures |r| == |cs|
  {
    seq(|cs|, k requires 0 <= k < |cs| => C(cs[k]))
  }

  /** What may stand behind a block.  A silent initial only follows a vowel that does not combine
      with the new one; a consonant stays alone only if the block could not take it as a final. */
  predicate Follows(a: Block, b: Block)
    requires a.Valid() && b.Valid()
  {
    match b
    case Lone(c) =>
      a.Full? ==>
        && (|a.cs| == 0 ==> SIMPLE_FINAL[c] < 0)
        && (|a.cs| == 1 ==> CombineFinal(SIMPLE_FINAL[a.cs[0]], c) < 0)
    case Full(silent, i, vs, cs) =>
      silent ==> a.Full? && |a.cs| == 0 && (|a.vs| == 1 ==> CombineMedial(a.vs[0], vs[0]) < 0)
  }

  ghost predicate Proper(bs: seq<Block>) {
    && (forall k :: 0 <= k < |bs| ==> bs[k].Valid())
    && (forall k :: 0 < k < |bs| ==> Follows(bs[k - 1], bs[k]))
  }

  function TypedFor(bs: seq<Block>): seq<Jamo> {
    if |bs| == 0 then [] else TypedFor(bs[..|bs| - 1]) + bs[|bs| - 1].Typed()
  }

  /** The characters of the blocks, those there is room for. */
  function WrittenAll(text: seq<Byte>, maxlen: nat, bs: seq<Block>): seq<Byte>
    requires forall k :: 0 <= k < |bs| ==> bs[k].Valid()
    decreases |bs|
  {
    if |bs| == 0 then text
    else Emit(WrittenAll(text, maxlen, bs[..|bs| - 1]), maxlen, bs[|bs| - 1].Written())
  }

  function JamoOf(c: char): Jamo
    requires OnLayout(c)
  {
    if Consonant(c) >= 0 then C(Consonant(c)) else V(Vowel(c))
  }

  function JamosOf(keys: string): seq<Jamo>
    requires forall k :: 0 <= k < |keys| ==> OnLayout(keys[k])
  {
    seq(|keys|, k requires 0 <= k < |keys| => JamoOf(keys[k]))
  }

  // ---------- the automaton keeps the blocks ----------

  lemma WrittenIsPending(b: Block)
    requires b.Valid()
    ensures Pending(b.Held()) == b.Written()
  {
    hide CombineFinal, CombineMedial;
  }

  /** After some keys: all blocks but the last are in the text, the last one is in the cell. */
  ghost predicate Stands(bs: seq<Block>, jamo: seq<Jamo>, s: Cell, start: seq<Byte>, maxlen: nat, text: seq<Byte>) {
    && Proper(bs) && TypedFor(bs) == jamo
    && if |bs| == 0 then s == NOTHING && text == start
       else s == bs[|bs| - 1].Held() && text == WrittenAll(start, maxlen, bs[..|bs| - 1])
  }

  /** What the cell commits: the last block, or nothing. */
  function LastWritten(bs: seq<Block>): int
    requires |bs| > 0 ==> bs[|bs| - 1].Valid()
  {
    if |bs| == 0 then -1 else bs[|bs| - 1].Written()
  }

  lemma Pushed(bs: seq<Block>, b: Block, jamo: seq<Jamo>, s: Cell, start: seq<Byte>, maxlen: nat, text: seq<Byte>)
    requires Stands(bs, jamo, s, start, maxlen, text)
    requires b.Valid() && (|bs| > 0 ==> Follows(bs[|bs| - 1], b))
    ensures LastWritten(bs) < 0x1_0000
    ensures Stands(bs + [b], jamo + b.Typed(), b.Held(), start, maxlen, Emit(text, maxlen, LastWritten(bs)))
  {
    hide Emit, Follows;
    assert (bs + [b])[..|bs|] == bs;
    if |bs| == 0 {
      NoEmission(start, maxlen);
    }
  }

  lemma ProperLast(pre: seq<Block>, b: Block)
    ensures Proper(pre + [b])
      <==> Proper(pre) && b.Valid() && (|pre| > 0 ==> pre[|pre| - 1].Valid() && Follows(pre[|pre| - 1], b))
  {
    hide Follows;
    var bs := pre + [b];
    assert bs[|pre|] == b && forall k :: 0 <= k < |pre| ==> bs[k] == pre[k];
    if Proper(bs) && |pre| > 0 {
      assert Follows(bs[|pre| - 1], bs[|pre|]);
    }
  }

  lemma StandsLast(pre: seq<Block>, b: Block, jamo: seq<Jamo>, s: Cell, start: seq<Byte>, maxlen: nat, text: seq<Byte>)
    requires Proper(pre + [b])
    ensures Stands(pre + [b], jamo, s, start, maxlen, text)
      <==> b.Valid() && jamo == TypedFor(pre) + b.Typed() && s == b.Held() && Proper(pre)
           && text == WrittenAll(start, maxlen, pre)
  {
    hide Follows, Emit;
    ProperLast(pre, b);
    assert (pre + [b])[..|pre|] == pre;
  }

  /** The last block a becomes b. */
  lemma Replaced(pre: seq<Block>, a: Block, b: Block, jamo: seq<Jamo>, start: seq<Byte>, maxlen: nat, text: seq<Byte>)
    requires a.Valid() && Stands(pre + [a], jamo, a.Held(), start, maxlen, text)
    requires b.Valid() && (|pre| > 0 ==> pre[|pre| - 1].Valid() && Follows(pre[|pre| - 1], b))
    ensures jamo == TypedFor(pre) + a.Typed()
    ensures Stands(pre + [b], TypedFor(pre) + b.Typed(), b.Held(), start, maxlen, text)
  {
    StandsProper(pre + [a], jamo, a.Held(), start, maxlen, text);
    hide *;
    ProperLast(pre, a);
    ProperLast(pre, b);
    StandsLast(pre, a, jamo, a.Held(), start, maxlen, text);
    StandsLast(pre, b, TypedFor(pre) + b.Typed(), b.Held(), start, maxlen, text);
  }

  lemma StandsProper(bs: seq<Block>, jamo: seq<Jamo>, s: Cell, start: seq<Byte>, maxlen: nat, text: seq<Byte>)
    requires Stands(bs, jamo, s, start, maxlen, text)
    ensures Proper(bs)
  {
  }

  /** The block can take c as a final consonant. */
  predicate Takes(b: Block, c: int)
    requires b.Valid() && 0 <= c <= 18
  {
    && b.Full? && |b.cs| < 2
    && (|b.cs| == 0 ==> SIMPLE_FINAL[c] >= 0)
    && (|b.cs| == 1 ==> CombineFinal(SIMPLE_FINAL[b.cs[0]], c) >= 0)
  }

  function WithFinal(b: Block, c: int): (r: Block)
    requires b.Valid() && 0 <= c <= 18 && Takes(b, c)
    ensures r.Valid() && r.Typed() == b.Typed() + [C(c)]
  {
    assert Consonants(b.cs + [c]) == Consonants(b.cs) + [C(c)];
    b.(cs := b.cs + [c])
  }

  /** Two consonants that combined take no third one. */
  lemma NoThirdFinal(f: int, c: int, d: int)
    requires CombineFinal(f, c) >= 0
    ensures CombineFinal(CombineFinal(f, c), d) < 0
  {
  }

  /** A consonant becomes a final of the block, or the block is written and it stands alone. */
  lemma ConsonantOn(b: Block, c: int)
    requires b.Valid() && 0 <= c <= 18
    ensures Takes(b, c) ==> StepConsonant(b.Held(), c) == (WithFinal(b, c).Held(), -1)
    ensures !Takes(b, c) ==> StepConsonant(b.Held(), c) == (Lone(c).Held(), b.Written()) && Follows(b, Lone(c))
  {
    hide CombineFinal, CombineMedial, Pending;
    WrittenIsPending(b);
    if b.Full? && |b.cs| == 2 { NoThirdFinal(SIMPLE_FINAL[b.cs[0]], b.cs[1], c); }
  }

  /** A vowel that finds vowels and no final behind them combines with them, or starts a block of
      its own with the silent initial. */
  lemma VowelOnVowel(b: Block, v: int)
    requires b.Valid() && b.Full? && |b.cs| == 0 && OneKeyVowel(v)
    ensures if |b.vs| == 1 && CombineMedial(b.vs[0], v) >= 0
      then StepVowel(b.Held(), v) == (WithVowel(b, v).Held(), -1)
      else StepVowel(b.Held(), v) == (Silent(v).Held(), b.Written()) && Follows(b, Silent(v))
  {
    hide CombineMedial, Pending;
    WrittenIsPending(b);
    if |b.vs| == 2 { NoThirdVowel(b.vs[0], b.vs[1], v); }
  }

  lemma NoThirdVowel(u: int, v: int, w: int)
    requires CombineMedial(u, v) >= 0
    ensures CombineMedial(CombineMedial(u, v), w) < 0
  {
  }

  function WithVowel(b: Block, v: int): (r: Block)
    requires b.Valid() && b.Full? && |b.cs| == 0 && OneKeyVowel(v) && |b.vs| == 1 && CombineMedial(b.vs[0], v) >= 0
    ensures r.Valid() && r.Typed() == b.Typed() + [V(v)]
  {
    assert Vowels(b.vs + [v]) == Vowels(b.vs) + [V(v)] && Consonants(b.cs) == [];
    b.(vs := b.vs + [v])
  }

  function Silent(v: int): (r: Block)
    requires OneKeyVowel(v)
    ensures r.Valid() && r.Typed() == [V(v)]
  {
    Full(true, 11, [v], [])
  }

  function Opened(c: int, v: int): (r: Block)
    requires 0 <= c <= 18 && OneKeyVowel(v)
    ensures r.Valid() && r.Typed() == [C(c), V(v)]
  {
    Full(false, c, [v], [])
  }

  /** What is left of a block that hands its last final back. */
  function Without(b: Block): (r: Block)
    requires b.Valid() && b.Full? && |b.cs| > 0
    ensures r.Valid() && b.Typed() == r.Typed() + [C(b.cs[|b.cs| - 1])]
  {
    var n := |b.cs| - 1;
    assert Consonants(b.cs) == Consonants(b.cs[..n]) + [C(b.cs[n])];
    b.(cs := b.cs[..n])
  }

  /** A vowel behind a final takes that consonant as its own initial. */
  lemma VowelOnFinal(b: Block, v: int)
    requires b.Valid() && b.Full? && |b.cs| > 0 && OneKeyVowel(v)
    ensures StepVowel(b.Held(), v) == (Opened(b.cs[|b.cs| - 1], v).Held(), Without(b).Written())
  {
    hide CombineMedial, CombineFinal, SplitFinal, Pending;
    WrittenIsPending(Without(b));
    SplitUndoesSimple(b.cs[0]);
    if |b.cs| == 2 { SplitUndoesCombine(SIMPLE_FINAL[b.cs[0]], b.cs[1]); }
  }

  lemma VowelOnLone(c: int, v: int)
    requires 0 <= c <= 18 && OneKeyVowel(v)
    ensures StepVowel(Lone(c).Held(), v) == (Opened(c, v).Held(), -1)
  {
  }

  /** Only the first vowel and the silence of a block matter to the block before it. */
  lemma FollowsStill(p: Block, a: Block, b: Block)
    requires p.Valid() && a.Valid() && b.Valid() && Follows(p, a)
    requires b.Full? && (b.silent ==> a.Full? && a.silent && a.vs[0] == b.vs[0])
    ensures Follows(p, b)
  {
    hide CombineFinal, CombineMedial;
  }

  lemma AfterConsonant(bs: seq<Block>, jamo: seq<Jamo>, s: Cell, start: seq<Byte>, maxlen: nat, text: seq<Byte>, c: int)
      returns (r: seq<Block>)
    requires Stands(bs, jamo, s, start, maxlen, text) && s.Valid() && 0 <= c <= 18
    ensures var t := StepConsonant(s, c); Stands(r, jamo + [C(c)], t.0, start, maxlen, Emit(text, maxlen, t.1))
  {
    var n := |bs| - 1;
    NoEmission(text, maxlen);
    if n < 0 {
      FirstConsonant(c);
      r := bs + [Lone(c)];
      Pushed(bs, Lone(c), jamo, s, start, maxlen, text);
    } else {
      var pre, b := bs[..n], bs[n];
      assert pre + [b] == bs;
      ConsonantOn(b, c);
      hide *;
      if Takes(b, c) {
        StandsLastFollows(pre, b, jamo, s, start, maxlen, text);
        r := pre + [WithFinal(b, c)];
        Replaced(pre, b, WithFinal(b, c), jamo, start, maxlen, text);
        assert TypedFor(pre) + (b.Typed() + [C(c)]) == (TypedFor(pre) + b.Typed()) + [C(c)];
      } else {
        r := bs + [Lone(c)];
        Pushed(bs, Lone(c), jamo, s, start, maxlen, text);
      }
    }
  }

  lemma FirstConsonant(c: int)
    requires 0 <= c <= 18
    ensures Lone(c).Valid() && Lone(c).Typed() == [C(c)]
    ensures StepConsonant(NOTHING, c) == (Lone(c).Held(), -1)
  {
  }

  lemma FirstVowel(v: int)
    requires OneKeyVowel(v)
    ensures StepVowel(NOTHING, v) == (Silent(v).Held(), -1)
  {
  }

  /** What follows the block before the last still does when the last block changes as the
      automaton changes it. */
  lemma StandsLastFollows(pre: seq<Block>, b: Block, jamo: seq<Jamo>, s: Cell,
                          start: seq<Byte>, maxlen: nat, text: seq<Byte>)
    requires Stands(pre + [b], jamo, s, start, maxlen, text)
    ensures b.Valid() && s == b.Held() && (|pre| > 0 ==> pre[|pre| - 1].Valid() && Follows(pre[|pre| - 1], b))
  {
    StandsProper(pre + [b], jamo, s, start, maxlen, text);
    hide *;
    ProperLast(pre, b);
    StandsLast(pre, b, jamo, s, start, maxlen, text);
  }

  lemma AfterVowel(bs: seq<Block>, jamo: seq<Jamo>, s: Cell, start: seq<Byte>, maxlen: nat, text: seq<Byte>, v: int)
      returns (r: seq<Block>)
    requires Stands(bs, jamo, s, start, maxlen, text) && s.Valid() && OneKeyVowel(v)
    ensures var t := StepVowel(s, v); Stands(r, jamo + [V(v)], t.0, start, maxlen, Emit(text, maxlen, t.1))
  {
    hide Stands, Emit, StepVowel, OneKeyVowel, WrittenAll;
    NoEmission(text, maxlen);
    if |bs| == 0 {
      NothingStands(bs, jamo, s, start, maxlen, text);
      FirstVowel(v);
      r := bs + [Silent(v)];
      Pushed(bs, Silent(v), jamo, s, start, maxlen, text);
    } else {
      var pre, b := bs[..|bs| - 1], bs[|bs| - 1];
      assert pre + [b] == bs;
      StandsLastFollows(pre, b, jamo, s, start, maxlen, text);
      if b.Lone? {
        VowelOnLone(b.c, v);
        r := pre + [Opened(b.c, v)];
        Reopened(pre, b, Opened(b.c, v), V(v), jamo, start, maxlen, text);
      } else if |b.cs| == 0 {
        VowelOnVowel(b, v);
        if |b.vs| == 1 && CombineMedial(b.vs[0], v) >= 0 {
          r := pre + [WithVowel(b, v)];
          Reopened(pre, b, WithVowel(b, v), V(v), jamo, start, maxlen, text);
        } else {
          r := bs + [Silent(v)];
          Pushed(bs, Silent(v), jamo, s, start, maxlen, text);
        }
      } else {
        VowelOnFinal(b, v);
        r := HandedBack(pre, b, jamo, s, start, maxlen, text, v);
      }
    }
  }

  lemma NothingStands(bs: seq<Block>, jamo: seq<Jamo>, s: Cell, start: seq<Byte>, maxlen: nat, text: seq<Byte>)
    requires Stands(bs, jamo, s, start, maxlen, text) && |bs| == 0
    ensures s == NOTHING && text == start && jamo == []
  {
  }

  /** The last block takes one more jamo. */
  lemma Reopened(pre: seq<Block>, a: Block, b: Block, j: Jamo, jamo: seq<Jamo>,
                 start: seq<Byte>, maxlen: nat, text: seq<Byte>)
    requires a.Valid() && Stands(pre + [a], jamo, a.Held(), start, maxlen, text)
    requires |pre| > 0 ==> pre[|pre| - 1].Valid() && Follows(pre[|pre| - 1], a)
    requires b.Valid() && b.Full? && (b.silent ==> a.Full? && a.silent && a.vs[0] == b.vs[0])
    requires b.Typed() == a.Typed() + [j]
    ensures Stands(pre + [b], jamo + [j], b.Held(), start, maxlen, text)
  {
    hide Stands, Follows, WrittenAll, TypedFor;
    if |pre| > 0 { FollowsStill(pre[|pre| - 1], a, b); }
    Replaced(pre, a, b, jamo, start, maxlen, text);
    assert TypedFor(pre) + (a.Typed() + [j]) == (TypedFor(pre) + a.Typed()) + [j];
  }

  /** The block without its last final is written, and that consonant opens a block with v. */
  lemma HandedBack(pre: seq<Block>, b: Block, jamo: seq<Jamo>, s: Cell, start: seq<Byte>, maxlen: nat, text: seq<Byte>,
                   v: int)
      returns (r: seq<Block>)
    requires b.Valid() && b.Full? && |b.cs| > 0 && OneKeyVowel(v) && s == b.Held()
    requires Stands(pre + [b], jamo, s, start, maxlen, text)
    requires |pre| > 0 ==> pre[|pre| - 1].Valid() && Follows(pre[|pre| - 1], b)
    ensures var c := b.cs[|b.cs| - 1];
      Stands(r, jamo + [V(v)], Opened(c, v).Held(), start, maxlen, Emit(text, maxlen, Without(b).Written()))
  {
    hide Stands, Follows, WrittenAll, TypedFor, Emit, OneKeyVowel;
    var a, c := Without(b), b.cs[|b.cs| - 1];
    if |pre| > 0 { FollowsStill(pre[|pre| - 1], b, a); }
    Replaced(pre, b, a, jamo, start, maxlen, text);
    FollowsOpened(a, c, v);
    r := (pre + [a]) + [Opened(c, v)];
    Pushed(pre + [a], Opened(c, v), TypedFor(pre) + a.Typed(), a.Held(), start, maxlen, text);
    assert (TypedFor(pre) + a.Typed()) + [C(c), V(v)] == (TypedFor(pre) + (a.Typed() + [C(c)])) + [V(v)];
  }

  lemma FollowsOpened(a: Block, c: int, v: int)
    requires a.Valid() && 0 <= c <= 18 && OneKeyVowel(v)
    ensures Follows(a, Opened(c, v))
  {
  }

  lemma AfterKey(bs: seq<Block>, jamo: seq<Jamo>, s: Cell, start: seq<Byte>, maxlen: nat, text: seq<Byte>, k: char)
      returns (r: seq<Block>)
    requires Stands(bs, jamo, s, start, maxlen, text) && s.Valid() && OnLayout(k)
    ensures var t := Step(s, k); Stands(r, jamo + [JamoOf(k)], t.0, start, maxlen, Emit(text, maxlen, t.1))
  {
    hide Stands, Emit, StepConsonant, StepVowel, Consonant, Vowel, OneKeyVowel;
    if Consonant(k) >= 0 {
      r := AfterConsonant(bs, jamo, s, start, maxlen, text, Consonant(k));
    } else {
      VowelIsOneKey(k);
      r := AfterVowel(bs, jamo, s, start, maxlen, text, Vowel(k));
    }
  }

  lemma VowelIsOneKey(k: char)
    requires Vowel(k) >= 0
    ensures OneKeyVowel(Vowel(k))
  {
  }

  lemma {:induction false} AfterKeys(bs: seq<Block>, jamo: seq<Jamo>, s: Cell, start: seq<Byte>, maxlen: nat,
                                     text: seq<Byte>, keys: string)
      returns (r: seq<Block>)
    requires Stands(bs, jamo, s, start, maxlen, text) && s.Valid() && forall k :: 0 <= k < |keys| ==> OnLayout(keys[k])
    ensures var t := Type(s, text, maxlen, keys); Stands(r, jamo + JamosOf(keys), t.0, start, maxlen, t.1)
    decreases |keys|
  {
    hide Stands, Step, Emit, OnLayout, JamoOf;
    if |keys| == 0 {
      assert jamo + JamosOf(keys) == jamo;
      r := bs;
    } else {
      var t := Step(s, keys[0]);
      var m := AfterKey(bs, jamo, s, start, maxlen, text, keys[0]);
      r := AfterKeys(m, jamo + [JamoOf(keys[0])], t.0, start, maxlen, Emit(text, maxlen, t.1), keys[1..]);
      assert (jamo + [JamoOf(keys[0])]) + JamosOf(keys[1..]) == jamo + JamosOf(keys);
    }
  }

  /** Whatever is typed is written: for every string of keys on the layout and a key c that is not,
      there are blocks that hold exactly the jamo typed, in order, with a silent initial only
      before an orphan vowel, and their characters are what is written. */
  lemma TypedIsWritten(text: seq<Byte>, maxlen: nat, keys: string, c: char) returns (bs: seq<Block>)
    requires !OnLayout(c) && forall k :: 0 <= k < |keys| ==> OnLayout(keys[k])
    ensures NOTHING.Valid() && Proper(bs) && TypedFor(bs) == JamosOf(keys)
    ensures Type(NOTHING, text, maxlen, keys + [c]) == (NOTHING, WrittenAll(text, maxlen, bs))
  {
    NothingPending();
    bs := AfterKeys([], [], NOTHING, text, maxlen, text, keys);
    assert [] + JamosOf(keys) == JamosOf(keys);
    TypeSplit(NOTHING, text, maxlen, keys, [c]);
    var t := Type(NOTHING, text, maxlen, keys);
    hide Type, Emit, Consonant, Vowel, Pending, Follows, JamosOf;
    TypeOne(t.0, t.1, maxlen, c);
    NoEmission(text, maxlen);
    if |bs| > 0 { WrittenIsPending(bs[|bs| - 1]); }
  }

  // ---------- there is only one such division ----------

  lemma {:induction false} TypedForFirst(bs: seq<Block>)
    requires |bs| > 0
    ensures TypedFor(bs) == bs[0].Typed() + TypedFor(bs[1..])
    decreases |bs|
  {
    var n := |bs| - 1;
    if n > 0 {
      TypedForFirst(bs[..n]);
      assert bs[..n][1..] == bs[1..][..n - 1] && bs[1..][n - 1] == bs[n];
    } else {
      assert bs[..0] == [] && bs[1..] == [];
    }
  }

  predicate VowelAt(j: seq<Jamo>, k: nat) {
    k < |j| && j[k].V?
  }

  predicate ConsonantAt(j: seq<Jamo>, k: nat) {
    k < |j| && j[k].C? && 0 <= j[k].c <= 18
  }

  /** The vowels and finals of the first block, read from position o on. */
  function HeadFull(j: seq<Jamo>, silent: bool, i: int, o: nat): Block
    requires VowelAt(j, o)
  {
    var two := VowelAt(j, o + 1) && CombineMedial(j[o].v, j[o + 1].v) >= 0;
    var p := if two then o + 2 else o + 1;
    Full(silent, i, if two then [j[o].v, j[o + 1].v] else [j[o].v], HeadFinals(j, p))
  }

  function HeadFinals(j: seq<Jamo>, p: nat): seq<int> {
    if !(ConsonantAt(j, p) && !VowelAt(j, p + 1) && SIMPLE_FINAL[j[p].c] >= 0) then []
    else if ConsonantAt(j, p + 1) && !VowelAt(j, p + 2) && CombineFinal(SIMPLE_FINAL[j[p].c], j[p + 1].c) >= 0 then
      [j[p].c, j[p + 1].c]
    else [j[p].c]
  }

  /** The first block of a string of jamo, by looking up to two jamo ahead of it. */
  function Head(j: seq<Jamo>): Block
    requires |j| > 0
  {
    if j[0].V? then HeadFull(j, true, 11, 0)
    else if VowelAt(j, 1) then HeadFull(j, false, j[0].c, 1)
    else Lone(j[0].c)
  }

  /** How the jamo behind a block start, by the block that follows. */
  ghost predicate StartsWith(j: seq<Jamo>, n: Block)
    requires n.Valid()
  {
    match n
    case Lone(c) => |j| > 0 && j[0] == C(c) && !VowelAt(j, 1)
    case Full(silent, i, vs, cs) =>
      if silent then |j| > 0 && j[0] == V(vs[0]) else |j| > 1 && j[0] == C(i) && j[1] == V(vs[0])
  }

  /** How the jamo of a block start. */
  lemma FirstIs(b: Block)
    requires b.Valid()
    ensures var t := b.Typed();
      match b
      case Lone(c) => t == [C(c)]
      case Full(silent, i, vs, cs) =>
        if silent then |t| > 0 && t[0] == V(vs[0]) else |t| > 1 && t[0] == C(i) && t[1] == V(vs[0])
  {
    hide CombineFinal, CombineMedial, OneKeyVowel;
  }

  lemma RestStarts(bs: seq<Block>)
    requires |bs| > 0 && Proper(bs)
    ensures bs[0].Valid() && StartsWith(TypedFor(bs), bs[0])
  {
    hide CombineFinal, CombineMedial, TypedFor, OneKeyVowel, Follows;
    TypedForFirst(bs);
    FirstIs(bs[0]);
    if bs[0].Lone? {
      if |bs| > 1 {
        assert Follows(bs[0], bs[1]);
        LoneBeforeConsonant(bs[0], bs[1]);
        TypedForFirst(bs[1..]);
      } else {
        TypedForNone(bs[1..]);
      }
    }
  }

  lemma LoneBeforeConsonant(a: Block, b: Block)
    requires a.Valid() && b.Valid() && Follows(a, b) && a.Lone?
    ensures |b.Typed()| > 0 && b.Typed()[0].C?
  {
    FirstIs(b);
    hide CombineFinal, CombineMedial, OneKeyVowel;
  }

  lemma TypedForNone(bs: seq<Block>)
    requires |bs| == 0
    ensures TypedFor(bs) == []
  {
  }

  lemma HeadVowels(vs: seq<int>, rest: seq<Jamo>, pre: seq<Jamo>, silent: bool, i: int)
    requires 1 <= |vs| <= 2 && (|vs| == 2 ==> CombineMedial(vs[0], vs[1]) >= 0)
    requires |vs| == 1 && VowelAt(rest, 0) ==> CombineMedial(vs[0], rest[0].v) < 0
    ensures var j := pre + Vowels(vs) + rest;
      VowelAt(j, |pre|) && HeadFull(j, silent, i, |pre|) == Full(silent, i, vs, HeadFinals(j, |pre| + |vs|))
  {
    hide CombineMedial, HeadFinals;
    var j := pre + Vowels(vs) + rest;
    assert j[|pre|] == V(vs[0]);
    if |vs| == 2 {
      assert j[|pre| + 1] == V(vs[1]);
      assert vs == [vs[0], vs[1]];
    } else {
      assert vs == [vs[0]];
      assert VowelAt(j, |pre| + 1) == VowelAt(rest, 0);
    }
  }

  lemma HeadFinalsAre(b: Block, rest: seq<Jamo>, pre: seq<Jamo>)
    requires b.Valid() && b.Full?
    requires VowelAt(rest, 0) ==> |b.cs| == 0
    requires |rest| > 0 && rest[0].C? && !VowelAt(rest, 1) ==> 0 <= rest[0].c <= 18 && Follows(b, Lone(rest[0].c))
    ensures HeadFinals(pre + Consonants(b.cs) + rest, |pre|) == b.cs
  {
    hide CombineFinal, CombineMedial, OneKeyVowel;
    var j, p := pre + Consonants(b.cs) + rest, |pre|;
    var n := |b.cs|;
    assert forall k: nat :: VowelAt(j, p + n + k) == VowelAt(rest, k);
    assert forall k: nat :: ConsonantAt(j, p + n + k) == ConsonantAt(rest, k);
    assert forall k :: 0 <= k < |rest| ==> j[p + n + k] == rest[k];
    assert forall k :: 0 <= k < n ==> j[p + k] == C(b.cs[k]);
    if n == 2 {
      NoThirdFinal(SIMPLE_FINAL[b.cs[0]], b.cs[1], 0);
      assert b.cs == [b.cs[0], b.cs[1]];
    } else if n == 1 {
      assert b.cs == [b.cs[0]];
    }
  }

  /** The jamo behind a block, as far as the block depends on them. */
  ghost predicate Allowed(b: Block, rest: seq<Jamo>)
    requires b.Valid()
  {
    && (VowelAt(rest, 0) ==> b.Full? && |b.cs| == 0 && (|b.vs| == 1 ==> CombineMedial(b.vs[0], rest[0].v) < 0))
    && (|rest| > 0 && rest[0].C? && !VowelAt(rest, 1) ==> 0 <= rest[0].c <= 18 && Follows(b, Lone(rest[0].c)))
  }

  lemma NextAllowed(b: Block, n: Block, rest: seq<Jamo>)
    requires b.Valid() && n.Valid() && Follows(b, n) && StartsWith(rest, n)
    ensures Allowed(b, rest)
  {
    hide CombineFinal, CombineMedial, OneKeyVowel;
  }

  lemma RestAllowed(bs: seq<Block>)
    requires |bs| > 0 && Proper(bs)
    ensures bs[0].Valid() && Allowed(bs[0], TypedFor(bs[1..]))
  {
    hide Allowed, Follows, StartsWith, TypedFor;
    if |bs| > 1 {
      assert Follows(bs[0], bs[1]);
      assert Proper(bs[1..]);
      RestStarts(bs[1..]);
      NextAllowed(bs[0], bs[1], TypedFor(bs[1..]));
    } else {
      TypedForNone(bs[1..]);
      NoneAllowed(bs[0]);
    }
  }

  lemma NoneAllowed(b: Block)
    requires b.Valid()
    ensures Allowed(b, [])
  {
  }

  lemma HeadOf(b: Block, rest: seq<Jamo>)
    requires b.Valid() && Allowed(b, rest)
    ensures |b.Typed() + rest| > 0 && Head(b.Typed() + rest) == b
  {
    hide CombineFinal, CombineMedial, OneKeyVowel, HeadFull, HeadFinals, Follows, Vowels, Consonants;
    if b.Lone? {
      assert VowelAt(b.Typed() + rest, 1) == VowelAt(rest, 0);
    } else {
      var pre := if b.silent then [] else [C(b.i)];
      var j := b.Typed() + rest;
      assert j == pre + Vowels(b.vs) + (Consonants(b.cs) + rest);
      assert j == (pre + Vowels(b.vs)) + Consonants(b.cs) + rest;
      FinalsFirst(b, rest);
      HeadVowels(b.vs, Consonants(b.cs) + rest, pre, b.silent, b.i);
      HeadFinalsAre(b, rest, pre + Vowels(b.vs));
      FirstIs(b);
    }
  }

  lemma FinalsFirst(b: Block, rest: seq<Jamo>)
    requires b.Valid() && b.Full? && Allowed(b, rest)
    ensures var r := Consonants(b.cs) + rest; |b.vs| == 1 && VowelAt(r, 0) ==> CombineMedial(b.vs[0], r[0].v) < 0
  {
    hide CombineFinal, CombineMedial, OneKeyVowel, Follows;
    if |b.cs| == 0 { assert Consonants(b.cs) + rest == rest; }
  }

  /** A division into blocks starts with the block that looking ahead finds. */
  lemma HeadIs(bs: seq<Block>)
    requires |bs| > 0 && Proper(bs)
    ensures |TypedFor(bs)| > 0 && Head(TypedFor(bs)) == bs[0]
  {
    hide *;
    TypedForFirst(bs);
    RestAllowed(bs);
    HeadOf(bs[0], TypedFor(bs[1..]));
  }

  lemma ProperRest(bs: seq<Block>)
    requires |bs| > 0 && Proper(bs)
    ensures Proper(bs[1..])
  {
    hide Follows;
  }

  lemma SameRest(a: seq<Jamo>, x: seq<Jamo>, y: seq<Jamo>)
    requires a + x == a + y
    ensures x == y
  {
    assert (a + x)[|a|..] == x && (a + y)[|a|..] == y;
  }

  /** Two divisions of the same jamo are the same: nothing else could have been written. */
  lemma {:induction false} OneDivision(us: seq<Block>, bs: seq<Block>)
    requires Proper(us) && Proper(bs) && TypedFor(us) == TypedFor(bs)
    ensures us == bs
    decreases |us|
  {
    hide *;
    if |us| == 0 || |bs| == 0 {
      if |us| > 0 {
        HeadIs(us);
        TypedForNone(bs);
      }
      if |bs| > 0 {
        HeadIs(bs);
        TypedForNone(us);
      }
    } else {
      HeadIs(us);
      HeadIs(bs);
      TypedForFirst(us);
      TypedForFirst(bs);
      SameRest(us[0].Typed(), TypedFor(us[1..]), TypedFor(bs[1..]));
      ProperRest(us);
      ProperRest(bs);
      OneDivision(us[1..], bs[1..]);
      assert us == [us[0]] + us[1..] && bs == [bs[0]] + bs[1..];
    }
  }
}
