/** kernel/hangul_ime.h and the codec of kernel/font_ko.h: the two-set Hangul keyboard.
    Typing the keys of a sentence of modern syllables appends exactly its UTF-8. */
module HangulIme {
  import opened Octets

  // ---------- the tables ----------

  /** ko_consonant_index_for_letter: index in initial order, or -1. */
  function Consonant(c: char): (i: int)
    ensures -1 <= i <= 18
  {
    if c == 'r' then 0 else if c == 'R' then 1 else if c == 's' then 2 else if c == 'e' then 3
    else if c == 'E' then 4 else if c == 'f' then 5 else if c == 'a' then 6 else if c == 'q' then 7
    else if c == 'Q' then 8 else if c == 't' then 9 else if c == 'T' then 10 else if c == 'd' then 11
    else if c == 'w' then 12 else if c == 'W' then 13 else if c == 'c' then 14 else if c == 'z' then 15
    else if c == 'x' then 16 else if c == 'v' then 17 else if c == 'g' then 18 else -1
  }

  /** ko_vowel_index_for_letter: index in medial order, or -1. */
  function Vowel(c: char): (m: int)
    ensures -1 <= m <= 20
  {
    if c == 'k' then 0 else if c == 'o' then 1 else if c == 'i' then 2 else if c == 'O' then 3
    else if c == 'j' then 4 else if c == 'p' then 5 else if c == 'u' then 6 else if c == 'P' then 7
    else if c == 'h' then 8 else if c == 'y' then 12 else if c == 'n' then 13 else if c == 'b' then 17
    else if c == 'm' then 18 else if c == 'l' then 20 else -1
  }

  /** ko_combine_medial. */
  function CombineMedial(base: int, add: int): (m: int)
    ensures -1 <= m <= 20
  {
    if base == 8 && add == 0 then 9
    else if base == 8 && add == 1 then 10
    else if base == 8 && add == 20 then 11
    else if base == 13 && add == 4 then 14
    else if base == 13 && add == 5 then 15
    else if base == 13 && add == 20 then 16
    else if base == 18 && add == 20 then 19
    else -1
  }

  /** ko_initial_to_simple_final. */
  const SIMPLE_FINAL: seq<int> := [1, 2, 4, 7, -1, 8, 16, 17, -1, 19, 20, 21, 22, -1, 23, 24, 25, 26, 27]

  /** ko_combine_final. */
  function CombineFinal(base: int, add: int): (f: int)
    ensures -1 <= f <= 27 && f != 0
  {
    if base == 1 && add == 9 then 3
    else if base == 4 && add == 12 then 5
    else if base == 4 && add == 18 then 6
    else if base == 8 && add == 0 then 9
    else if base == 8 && add == 6 then 10
    else if base == 8 && add == 7 then 11
    else if base == 8 && add == 9 then 12
    else if base == 8 && add == 16 then 13
    else if base == 8 && add == 17 then 14
    else if base == 8 && add == 18 then 15
    else if base == 17 && add == 9 then 18
    else -1
  }

  /** ko_split_final_for_handback: what stays, and the initial that is handed back. */
  function SplitFinal(f: int): (r: (int, int))
    ensures 0 <= r.0 <= 27 && -1 <= r.1 <= 18
  {
    if f == 1 then (0, 0) else if f == 2 then (0, 1) else if f == 3 then (1, 9)
    else if f == 4 then (0, 2) else if f == 5 then (4, 12) else if f == 6 then (4, 18)
    else if f == 7 then (0, 3) else if f == 8 then (0, 5) else if f == 9 then (8, 0)
    else if f == 10 then (8, 6) else if f == 11 then (8, 7) else if f == 12 then (8, 9)
    else if f == 13 then (8, 16) else if f == 14 then (8, 17) else if f == 15 then (8, 18)
    else if f == 16 then (0, 6) else if f == 17 then (0, 7) else if f == 18 then (17, 9)
    else if f == 19 then (0, 9) else if f == 20 then (0, 10) else if f == 21 then (0, 11)
    else if f == 22 then (0, 12) else if f == 23 then (0, 14) else if f == 24 then (0, 15)
    else if f == 25 then (0, 16) else if f == 26 then (0, 17) else if f == 27 then (0, 18)
    else (0, -1)
  }

  /** Splitting a tentative final gives back the consonant that was bolted on. */
  lemma SplitUndoesSimple(i: int)
    requires 0 <= i <= 18 && SIMPLE_FINAL[i] >= 0
    ensures SplitFinal(SIMPLE_FINAL[i]) == (0, i)
  {
  }

  /** Splitting a combined final gives back the pair that formed it. */
  lemma SplitUndoesCombine(f: int, i: int)
    requires CombineFinal(f, i) >= 0
    ensures SplitFinal(CombineFinal(f, i)) == (f, i)
  {
  }

  /** ko_jamo_cp_for_initial. */
  const JAMO: seq<int> := [
    0x3131, 0x3132, 0x3134, 0x3137, 0x3138, 0x3139, 0x3141, 0x3142, 0x3143, 0x3145,
    0x3146, 0x3147, 0x3148, 0x3149, 0x314A, 0x314B, 0x314C, 0x314D, 0x314E]

  /** ko_compose_codepoint. */
  function Compose(initial: int, medial: int, final_: int): int {
    if initial < 0 || initial > 18 then -1
    else if medial < 0 || medial > 20 then -1
    else if final_ < 0 || final_ > 27 then -1
    else 0xAC00 + (initial * 21 + medial) * 28 + final_
  }

  // ---------- UTF-8 of three bytes ----------

  /** ko_emit_utf8; the prefixes are or-ed onto bits that are clear. */
  function Utf8(cp: int): (s: seq<Byte>)
    requires 0 <= cp < 0x1_0000
    ensures |s| == 3
  {
    var b0: int := 0xE0 + cp / 4096;
    var b1: int := 0x80 + cp / 64 % 64;
    var b2: int := 0x80 + cp % 64;
    [b0, b1, b2]
  }

  /** ko_utf8_char_len. */
  function CharLen(lead: Byte): nat {
    if lead / 16 == 14 then 3 else 1
  }

  /** ko_utf8_decode3. */
  function Decode3(s: seq<Byte>): int
    requires |s| >= 3
  {
    var a: int, b: int, c: int := s[0], s[1], s[2];
    a % 16 * 4096 + b % 64 * 64 + c % 64
  }

  /** ko_utf8_last_char_len: the bytes backspace removes. */
  function LastCharLen(buf: seq<Byte>): (n: nat)
    requires |buf| > 0
    ensures 1 <= n <= |buf|
  {
    var len := |buf|;
    if len >= 3 && buf[len - 1] / 64 == 2 && buf[len - 2] / 64 == 2 && buf[len - 3] / 16 == 14 then 3 else 1
  }

  /** Every code point the input method emits comes back from its bytes. */
  lemma Utf8RoundTrip(cp: int)
    requires 0 <= cp < 0x1_0000
    ensures Decode3(Utf8(cp)) == cp && CharLen(Utf8(cp)[0]) == 3
  {
    var a, b, c := cp / 4096, cp / 64 % 64, cp % 64;
    assert cp / 64 == 64 * a + b;
    assert cp == 4096 * a + 64 * b + c;
    LeadBits(a);
    TailBits(b);
    TailBits(c);
  }

  lemma LeadBits(a: int)
    requires 0 <= a < 16
    ensures (0xE0 + a) % 16 == a && (0xE0 + a) / 16 == 14
  {
  }

  lemma TailBits(b: int)
    requires 0 <= b < 64
    ensures (0x80 + b) % 64 == b && (0x80 + b) / 64 == 2
  {
  }

  /** Backspace behind an emitted character removes exactly that character. */
  lemma BackspaceRemovesCharacter(text: seq<Byte>, cp: int)
    requires 0 <= cp < 0x1_0000
    ensures LastCharLen(text + Utf8(cp)) == 3
    ensures (text + Utf8(cp))[..|text + Utf8(cp)| - 3] == text
  {
    LeadBits(cp / 4096);
    TailBits(cp / 64 % 64);
    TailBits(cp % 64);
  }

  /** One character more, if it fits and there is one. */
  function Emit(text: seq<Byte>, maxlen: nat, cp: int): (r: seq<Byte>)
    requires cp < 0x1_0000
  {
    if cp < 0 || |text| + 3 > maxlen then text else text + Utf8(cp)
  }

  // ---------- the automaton on values ----------

  /** ko_cur_initial, ko_cur_medial and ko_cur_final; -1 means nothing. */
  datatype Cell = Cell(initial: int, medial: int, final_: int) {
    ghost predicate Valid() {
      -1 <= initial <= 18 && -1 <= medial <= 20 && -1 <= final_ <= 27
    }
  }

  const NOTHING := Cell(-1, -1, -1)

  /** The code point ko_ime_commit emits, or -1. */
  function Pending(s: Cell): (cp: int)
    requires s.Valid()
    ensures cp < 0x1_0000
  {
    if s.initial == -1 then -1
    else if s.medial == -1 then JAMO[s.initial]
    else Compose(s.initial, s.medial, if s.final_ == -1 then 0 else s.final_)
  }

  /** What one key does: the new cell, and the code point committed on the way (-1 if none). */
  function Step(s: Cell, c: char): (r: (Cell, int))
    requires s.Valid()
    ensures r.0.Valid() && r.1 < 0x1_0000
  {
    var cons, vow := Consonant(c), Vowel(c);
    if cons < 0 && vow < 0 then (NOTHING, Pending(s))
    else if cons >= 0 then StepConsonant(s, cons)
    else StepVowel(s, vow)
  }

  function StepConsonant(s: Cell, cons: int): (r: (Cell, int))
    requires s.Valid() && 0 <= cons <= 18
    ensures r.0.Valid() && r.1 < 0x1_0000
  {
    if s.initial == -1 then (Cell(cons, -1, -1), -1)
    else if s.medial == -1 then (Cell(cons, -1, -1), Pending(s))
    else if s.final_ == -1 then
      if SIMPLE_FINAL[cons] < 0 then (Cell(cons, -1, -1), Pending(s)) else (s.(final_ := SIMPLE_FINAL[cons]), -1)
    else
      var combined := CombineFinal(s.final_, cons);
      if combined >= 0 then (s.(final_ := combined), -1) else (Cell(cons, -1, -1), Pending(s))
  }

  function StepVowel(s: Cell, vow: int): (r: (Cell, int))
    requires s.Valid() && 0 <= vow <= 20
    ensures r.0.Valid() && r.1 < 0x1_0000
  {
    if s.initial == -1 then (Cell(11, vow, -1), -1)
    else if s.medial == -1 then (s.(medial := vow), -1)
    else if s.final_ == -1 then
      var combined := CombineMedial(s.medial, vow);
      if combined >= 0 then (s.(medial := combined), -1) else (Cell(11, vow, -1), Pending(s))
    else
      var split := SplitFinal(s.final_);
      (Cell(split.1, vow, -1), Pending(s.(final_ := if split.0 == 0 then -1 else split.0)))
  }

  /** Typing a string: the cell and the text after all its keys. */
  function Type(s: Cell, text: seq<Byte>, maxlen: nat, keys: string): (r: (Cell, seq<Byte>))
    requires s.Valid()
    ensures r.0.Valid()
    decreases |keys|
  {
    if |keys| == 0 then (s, text)
    else
      var t := Step(s, keys[0]);
      Type(t.0, Emit(text, maxlen, t.1), maxlen, keys[1..])
  }

  // ---------- the keys of a syllable ----------

  /** A modern syllable: initial, medial and final, 0 for no final. */
  datatype Syllable = Syllable(i: int, m: int, f: int) {
    predicate Valid() {
      0 <= i <= 18 && 0 <= m <= 20 && 0 <= f <= 27
    }
  }

  const CONSONANT_KEYS := "rRseEfaqQtTdwWczxvg"

  /** A complex vowel is typed as its two parts. */
  function VowelParts(m: int): (p: (int, int))
    requires 0 <= m <= 20
    ensures p.1 >= 0 ==> CombineMedial(p.0, p.1) == m
    ensures p.1 < 0 ==> p == (m, -1)
  {
    if m == 9 then (8, 0) else if m == 10 then (8, 1) else if m == 11 then (8, 20)
    else if m == 14 then (13, 4) else if m == 15 then (13, 5) else if m == 16 then (13, 20)
    else if m == 19 then (18, 20) else (m, -1)
  }

  function VowelKey(m: int): char
  {
    if m == 0 then 'k' else if m == 1 then 'o' else if m == 2 then 'i' else if m == 3 then 'O'
    else if m == 4 then 'j' else if m == 5 then 'p' else if m == 6 then 'u' else if m == 7 then 'P'
    else if m == 8 then 'h' else if m == 12 then 'y' else if m == 13 then 'n' else if m == 17 then 'b'
    else if m == 18 then 'm' else 'l'
  }

  predicate OneKeyVowel(m: int) {
    0 <= m <= 8 || m == 12 || m == 13 || m == 17 || m == 18 || m == 20
  }

  /** The consonants of a final: one, or the pair that combines into it. */
  function FinalParts(f: int): (p: (int, int))
    requires 1 <= f <= 27
    ensures 0 <= p.0 <= 18 && -1 <= p.1 <= 18 && SIMPLE_FINAL[p.0] >= 1
    ensures if p.1 < 0 then SIMPLE_FINAL[p.0] == f else CombineFinal(SIMPLE_FINAL[p.0], p.1) == f
  {
    if f == 3 then (0, 9) else if f == 5 then (2, 12) else if f == 6 then (2, 18)
    else if f == 9 then (5, 0) else if f == 10 then (5, 6) else if f == 11 then (5, 7)
    else if f == 12 then (5, 9) else if f == 13 then (5, 16) else if f == 14 then (5, 17)
    else if f == 15 then (5, 18) else if f == 18 then (7, 9)
    else (SplitFinal(f).1, -1)
  }

  function ConsonantKey(i: int): char
    requires 0 <= i <= 18
  {
    CONSONANT_KEYS[i]
  }

  function VowelKeys(m: int): (s: string)
    requires 0 <= m <= 20
  {
    var p := VowelParts(m);
    [VowelKey(p.0)] + if p.1 < 0 then "" else [VowelKey(p.1)]
  }

  function FinalKeys(f: int): string
    requires 0 <= f <= 27
  {
    if f == 0 then ""
    else
      var p := FinalParts(f);
      [ConsonantKey(p.0)] + if p.1 < 0 then "" else [ConsonantKey(p.1)]
  }

  /** The two-set keys of a syllable. */
  function Keys(s: Syllable): string
    requires s.Valid()
  {
    [ConsonantKey(s.i)] + VowelKeys(s.m) + FinalKeys(s.f)
  }

  lemma ConsonantKeyIs(i: int)
    requires 0 <= i <= 18
    ensures Consonant(ConsonantKey(i)) == i
  {
  }

  lemma VowelKeyIs(m: int)
    requires OneKeyVowel(m)
    ensures Vowel(VowelKey(m)) == m && Consonant(VowelKey(m)) == -1
  {
  }

  lemma PartsAreKeys(m: int)
    requires 0 <= m <= 20
    ensures OneKeyVowel(VowelParts(m).0) && (VowelParts(m).1 >= 0 ==> OneKeyVowel(VowelParts(m).1))
  {
  }

  // ---------- typing a sentence ----------

  /** The cell that holds a complete syllable. */
  function CellOf(s: Syllable): (c: Cell)
    requires s.Valid()
    ensures c.Valid()
  {
    Cell(s.i, s.m, if s.f == 0 then -1 else s.f)
  }

  function CodePoint(s: Syllable): int
    requires s.Valid()
  {
    0xAC00 + (s.i * 21 + s.m) * 28 + s.f
  }

  lemma PendingSyllable(s: Syllable)
    requires s.Valid()
    ensures Pending(CellOf(s)) == CodePoint(s) && 0 <= CodePoint(s) < 0x1_0000
  {
  }

  /** What the cell before a syllable commits: the syllable in it, or nothing. */
  function Held(prev: Cell): (cp: int)
    requires prev.Valid()
    ensures cp < 0x1_0000
  {
    Pending(prev)
  }

  ghost predicate Complete(prev: Cell) {
    prev == NOTHING || exists s: Syllable :: s.Valid() && prev == CellOf(s)
  }

  /** The first consonant and vowel: whatever the cell held is committed whole, because a
      consonant that was taken as its final is handed back. */
  lemma FirstTwo(prev: Cell, i: int, v: int)
    requires Complete(prev) && prev.Valid() && 0 <= i <= 18 && OneKeyVowel(v)
    ensures var a := Step(prev, ConsonantKey(i)); var b := Step(a.0, VowelKey(v));
      && b.0 == Cell(i, v, -1)
      && ((a.1 == Held(prev) && b.1 == -1) || (a.1 == -1 && b.1 == Held(prev)))
  {
    hide SplitFinal, CombineFinal, ConsonantKey, VowelKey, Consonant, Vowel, Pending;
    ConsonantKeyIs(i);
    VowelKeyIs(v);
    NothingPending();
    if prev != NOTHING {
      var s: Syllable :| s.Valid() && prev == CellOf(s);
      if s.f == 0 {
        if SIMPLE_FINAL[i] >= 0 { SplitUndoesSimple(i); }
      } else if CombineFinal(s.f, i) >= 0 {
        SplitUndoesCombine(s.f, i);
      }
    }
  }

  lemma NothingPending()
    ensures Pending(NOTHING) == -1 && NOTHING.Valid()
  {
  }

  lemma MoreVowel(i: int, m: int)
    requires 0 <= i <= 18 && 0 <= m <= 20 && VowelParts(m).1 >= 0
    ensures Step(Cell(i, VowelParts(m).0, -1), VowelKey(VowelParts(m).1)) == (Cell(i, m, -1), -1)
  {
    hide VowelKey, Consonant, Vowel, Pending;
    PartsAreKeys(m);
    VowelKeyIs(VowelParts(m).1);
  }

  lemma FirstFinal(i: int, m: int, f: int)
    requires 0 <= i <= 18 && 0 <= m <= 20 && 1 <= f <= 27
    ensures Step(Cell(i, m, -1), ConsonantKey(FinalParts(f).0)) == (Cell(i, m, SIMPLE_FINAL[FinalParts(f).0]), -1)
  {
    hide ConsonantKey, Consonant, Vowel, Pending, FinalParts;
    ConsonantKeyIs(FinalParts(f).0);
  }

  lemma SecondFinal(i: int, m: int, f: int)
    requires 0 <= i <= 18 && 0 <= m <= 20 && 1 <= f <= 27 && FinalParts(f).1 >= 0
    ensures Step(Cell(i, m, SIMPLE_FINAL[FinalParts(f).0]), ConsonantKey(FinalParts(f).1)) == (Cell(i, m, f), -1)
  {
    hide ConsonantKey, Consonant, Vowel, Pending, FinalParts, CombineFinal;
    ConsonantKeyIs(FinalParts(f).1);
  }

  lemma {:induction false} TypeSplit(s: Cell, text: seq<Byte>, maxlen: nat, a: string, b: string)
    requires s.Valid()
    ensures var t := Type(s, text, maxlen, a); Type(s, text, maxlen, a + b) == Type(t.0, t.1, maxlen, b)
    decreases |a|
  {
    hide Step, Emit;
    if |a| == 0 {
      assert a + b == b;
    } else {
      var t := Step(s, a[0]);
      assert (a + b)[1..] == a[1..] + b;
      TypeSplit(t.0, Emit(text, maxlen, t.1), maxlen, a[1..], b);
    }
  }

  lemma TypeOne(s: Cell, text: seq<Byte>, maxlen: nat, c: char)
    requires s.Valid()
    ensures Type(s, text, maxlen, [c]) == (Step(s, c).0, Emit(text, maxlen, Step(s, c).1))
  {
    hide Step, Emit;
    var t := Step(s, c);
    assert [c][1..] == "";
    assert Type(t.0, Emit(text, maxlen, t.1), maxlen, "") == (t.0, Emit(text, maxlen, t.1));
  }

  lemma NoEmission(text: seq<Byte>, maxlen: nat)
    ensures Emit(text, maxlen, -1) == text
  {
  }

  lemma TypeStart(prev: Cell, text: seq<Byte>, maxlen: nat, i: int, v: int)
    requires Complete(prev) && prev.Valid() && 0 <= i <= 18 && OneKeyVowel(v)
    ensures Type(prev, text, maxlen, [ConsonantKey(i)] + [VowelKey(v)]) == (Cell(i, v, -1), Emit(text, maxlen, Held(prev)))
  {
    hide *;
    FirstTwo(prev, i, v);
    StepValid(prev, ConsonantKey(i));
    TypeSplit(prev, text, maxlen, [ConsonantKey(i)], [VowelKey(v)]);
    TypeOne(prev, text, maxlen, ConsonantKey(i));
    var t := Step(prev, ConsonantKey(i));
    TypeOne(t.0, Emit(text, maxlen, t.1), maxlen, VowelKey(v));
    NoEmission(text, maxlen);
    NoEmission(Emit(text, maxlen, Held(prev)), maxlen);
  }

  lemma StepValid(s: Cell, c: char)
    requires s.Valid()
    ensures Step(s, c).0.Valid() && Step(s, c).1 < 0x1_0000
  {
    hide *;
  }

  lemma TypeVowel(s: Cell, text: seq<Byte>, maxlen: nat, i: int, m: int)
    requires 0 <= i <= 18 && 0 <= m <= 20 && s == Cell(i, VowelParts(m).0, -1) && s.Valid()
    ensures Type(s, text, maxlen, if VowelParts(m).1 < 0 then "" else [VowelKey(VowelParts(m).1)]) == (Cell(i, m, -1), text)
  {
    hide Step, VowelKey, Emit;
    if VowelParts(m).1 >= 0 {
      MoreVowel(i, m);
      TypeOne(s, text, maxlen, VowelKey(VowelParts(m).1));
      NoEmission(text, maxlen);
    }
  }

  lemma TypeFinal(s: Cell, text: seq<Byte>, maxlen: nat, i: int, m: int, f: int)
    requires 0 <= i <= 18 && 0 <= m <= 20 && 0 <= f <= 27 && s == Cell(i, m, -1) && s.Valid()
    ensures Type(s, text, maxlen, FinalKeys(f)) == (Cell(i, m, if f == 0 then -1 else f), text)
  {
    hide Step, ConsonantKey, Emit, FinalParts, CombineFinal;
    if f > 0 {
      var p := FinalParts(f);
      NoEmission(text, maxlen);
      FirstFinal(i, m, f);
      TypeOne(s, text, maxlen, ConsonantKey(p.0));
      if p.1 >= 0 {
        SecondFinal(i, m, f);
        var t := Cell(i, m, SIMPLE_FINAL[p.0]);
        TypeSplit(s, text, maxlen, [ConsonantKey(p.0)], [ConsonantKey(p.1)]);
        TypeOne(t, text, maxlen, ConsonantKey(p.1));
      } else {
        assert FinalKeys(f) == [ConsonantKey(p.0)];
      }
    }
  }

  /** Typing one syllable commits what the cell held and leaves the syllable in the cell. */
  lemma TypeSyllable(prev: Cell, text: seq<Byte>, maxlen: nat, s: Syllable)
    requires Complete(prev) && prev.Valid() && s.Valid()
    ensures Type(prev, text, maxlen, Keys(s)) == (CellOf(s), Emit(text, maxlen, Held(prev)))
  {
    hide Step, ConsonantKey, VowelKey, Emit, FinalKeys, VowelParts, Held, Complete, Type, OneKeyVowel;
    var p := VowelParts(s.m);
    PartsAreKeys(s.m);
    PartBounds(s.m);
    var text' := Emit(text, maxlen, Held(prev));
    var k1, k2, k3 := [ConsonantKey(s.i)] + [VowelKey(p.0)], if p.1 < 0 then "" else [VowelKey(p.1)], FinalKeys(s.f);
    assert Keys(s) == k1 + k2 + k3;
    TypeStart(prev, text, maxlen, s.i, p.0);
    TypeSplit(prev, text, maxlen, k1, k2);
    TypeVowel(Cell(s.i, p.0, -1), text', maxlen, s.i, s.m);
    TypeSplit(prev, text, maxlen, k1 + k2, k3);
    TypeFinal(Cell(s.i, s.m, -1), text', maxlen, s.i, s.m, s.f);
  }

  lemma PartBounds(m: int)
    requires 0 <= m <= 20
    ensures 0 <= VowelParts(m).0 <= 20
  {
  }

  function SentenceKeys(w: seq<Syllable>): string
    requires forall k :: 0 <= k < |w| ==> w[k].Valid()
    decreases |w|
  {
    if |w| == 0 then "" else SentenceKeys(w[..|w| - 1]) + Keys(w[|w| - 1])
  }

  /** The UTF-8 of the syllables that still fit. */
  function Appended(text: seq<Byte>, maxlen: nat, w: seq<Syllable>): seq<Byte>
    requires forall k :: 0 <= k < |w| ==> w[k].Valid()
    decreases |w|
  {
    if |w| == 0 then text
    else
      PendingSyllable(w[|w| - 1]);
      Emit(Appended(text, maxlen, w[..|w| - 1]), maxlen, CodePoint(w[|w| - 1]))
  }

  /** After the keys of a sentence all but its last syllable are in the text. */
  lemma {:induction false} TypeSentence(text: seq<Byte>, maxlen: nat, w: seq<Syllable>)
    requires |w| > 0 && forall k :: 0 <= k < |w| ==> w[k].Valid()
    ensures NOTHING.Valid()
    ensures Type(NOTHING, text, maxlen, SentenceKeys(w))
      == (CellOf(w[|w| - 1]), Appended(text, maxlen, w[..|w| - 1]))
    decreases |w|
  {
    hide Step, Keys, Emit, Type, CodePoint, CellOf, Held, Complete;
    var n := |w| - 1;
    var before, last := w[..n], w[n];
    NothingPending();
    if n == 0 {
      assert SentenceKeys(before) == "";
      assert SentenceKeys(w) == Keys(last);
      CompleteNothing();
      TypeSyllable(NOTHING, text, maxlen, last);
    } else {
      TypeSentence(text, maxlen, before);
      var prev := before[n - 1];
      CompleteCell(prev);
      TypeSplit(NOTHING, text, maxlen, SentenceKeys(before), Keys(last));
      TypeSyllable(CellOf(prev), Appended(text, maxlen, before[..n - 1]), maxlen, last);
      HeldSyllable(prev);
    }
    NothingHeld(text, maxlen);
  }

  lemma CompleteNothing()
    ensures Complete(NOTHING)
  {
  }

  lemma CompleteCell(s: Syllable)
    requires s.Valid()
    ensures Complete(CellOf(s)) && CellOf(s).Valid()
  {
  }

  lemma HeldSyllable(s: Syllable)
    requires s.Valid()
    ensures CellOf(s).Valid() && Held(CellOf(s)) == CodePoint(s) && CodePoint(s) < 0x1_0000
  {
    PendingSyllable(s);
  }

  lemma NothingHeld(text: seq<Byte>, maxlen: nat)
    ensures NOTHING.Valid() && Emit(text, maxlen, Held(NOTHING)) == text
  {
    NothingPending();
  }

  /** Typing is inverse to text: the keys of any sentence of syllables, then a commit, append
      exactly the UTF-8 of the sentence. */
  lemma TypingIsInverse(text: seq<Byte>, maxlen: nat, w: seq<Syllable>)
    requires forall k :: 0 <= k < |w| ==> w[k].Valid()
    ensures NOTHING.Valid()
    ensures var t := Type(NOTHING, text, maxlen, SentenceKeys(w));
      t.0.Valid() && Emit(t.1, maxlen, Pending(t.0)) == Appended(text, maxlen, w)
  {
    hide Step, Keys, Emit, Type, CodePoint, CellOf, Pending, SentenceKeys;
    NothingPending();
    if |w| == 0 {
      TypeNothing(text, maxlen, w);
      NoEmission(text, maxlen);
    } else {
      TypeSentence(text, maxlen, w);
      PendingSyllable(w[|w| - 1]);
    }
  }

  lemma TypeNothing(text: seq<Byte>, maxlen: nat, w: seq<Syllable>)
    requires |w| == 0
    ensures NOTHING.Valid() && Type(NOTHING, text, maxlen, SentenceKeys(w)) == (NOTHING, text)
  {
  }

  /** The syllables' bytes, one after the other. */
  function Encoded(w: seq<Syllable>): seq<Byte>
    requires forall k :: 0 <= k < |w| ==> w[k].Valid()
    decreases |w|
  {
    if |w| == 0 then []
    else
      PendingSyllable(w[|w| - 1]);
      Encoded(w[..|w| - 1]) + Utf8(CodePoint(w[|w| - 1]))
  }

  function Min(a: nat, b: nat): nat {
    if a < b then a else b
  }

  /** What is appended is the UTF-8 of the first syllables, as many as there is room for. */
  lemma {:induction false} AppendedIs(text: seq<Byte>, maxlen: nat, w: seq<Syllable>)
    requires |text| <= maxlen && forall k :: 0 <= k < |w| ==> w[k].Valid()
    ensures var n := Min(|w|, (maxlen - |text|) / 3);
      Appended(text, maxlen, w) == text + Encoded(w[..n]) && |Encoded(w[..n])| == 3 * n
    decreases |w|
  {
    hide Utf8, CodePoint;
    var room := (maxlen - |text|) / 3;
    if |w| == 0 {
      assert w[..0] == w;
    } else {
      var before, last := w[..|w| - 1], w[|w| - 1];
      AppendedIs(text, maxlen, before);
      PendingSyllable(last);
      var n := Min(|before|, room);
      assert before[..n] == w[..n];
      if |w| <= room {
        assert before[..n] == before && w[..|w|] == w;
        assert (text + Encoded(before)) + Utf8(CodePoint(last)) == text + (Encoded(before) + Utf8(CodePoint(last)));
      }
    }
  }

  predicate OnLayout(c: char) {
    Consonant(c) >= 0 || Vowel(c) >= 0
  }

  /** A key that is not on the layout flushes the cell: behind a sentence it completes it. */
  lemma OtherKeyCompletes(text: seq<Byte>, maxlen: nat, w: seq<Syllable>, c: char)
    requires !OnLayout(c) && forall k :: 0 <= k < |w| ==> w[k].Valid()
    ensures NOTHING.Valid()
    ensures Type(NOTHING, text, maxlen, SentenceKeys(w) + [c]) == (NOTHING, Appended(text, maxlen, w))
  {
    hide Consonant, Vowel, Emit, Type, Pending, SentenceKeys, Appended;
    TypingIsInverse(text, maxlen, w);
    TypeSplit(NOTHING, text, maxlen, SentenceKeys(w), [c]);
    var t := Type(NOTHING, text, maxlen, SentenceKeys(w));
    TypeOne(t.0, t.1, maxlen, c);
  }

  /** ko_ime_backspace on values: the last part of the cell goes. */
  function Erased(s: Cell): (r: Cell)
    requires s.Valid()
    ensures r.Valid()
  {
    if s.final_ != -1 then s.(final_ := -1)
    else if s.medial != -1 then s.(medial := -1)
    else s.(initial := -1)
  }

  /** Backspace takes back a key that filled an empty part of the cell, with the whole vowel or final
      that it completed. */
  lemma BackspaceUndoes(s: Cell, c: char)
    requires s.Valid() && OnLayout(c) && Step(s, c).1 == -1
    requires s == NOTHING || s.initial >= 0
    ensures s == NOTHING ==> Erased(Step(s, c).0) == if Consonant(c) >= 0 then NOTHING else Cell(11, -1, -1)
    ensures s.initial >= 0 && s.medial == -1 && s.final_ == -1 ==> Consonant(c) < 0 && Erased(Step(s, c).0) == s
    ensures s.medial >= 0 && s.final_ == -1 ==>
      Erased(Step(s, c).0) == if Consonant(c) >= 0 then s else s.(medial := -1)
    ensures s.medial >= 0 && s.final_ >= 0 ==> Consonant(c) >= 0 && Erased(Step(s, c).0) == s.(final_ := -1)
  {
    hide Consonant, Vowel, CombineFinal, CombineMedial, SplitFinal;
  }

  // ---------- the code ----------

  /** The composition variables and the text buffer of the document. */
  class Ime {
    var initial: int
    var medial: int
    var final_: int
    const buf: array<Byte>
    var len: nat

    ghost predicate Valid()
      reads this
    {
      len <= buf.Length && -1 <= initial <= 18 && -1 <= medial <= 20 && -1 <= final_ <= 27
    }

    ghost function State(): (s: Cell)
      requires Valid()
      reads this
      ensures s.Valid()
    {
      Cell(initial, medial, final_)
    }

    ghost function Text(): seq<Byte>
      requires Valid()
      reads this, buf
    {
      buf[..len]
    }

    constructor (size: nat)
      ensures Valid() && fresh(buf) && buf.Length == size && State() == NOTHING && Text() == []
    {
      initial, medial, final_, len := -1, -1, -1, 0;
      buf := new Byte[size];
    }

    /** kernel/hangul_ime.h ko_emit_utf8. */
    method EmitUtf8(maxlen: nat, cp: int) returns (written: bool)
      requires Valid() && maxlen <= buf.Length && cp < 0x1_0000
      modifies this`len, buf
      ensures Valid() && Text() == Emit(old(Text()), maxlen, cp) && written == (cp >= 0 && old(len) + 3 <= maxlen)
    {
      if cp < 0 { return false; }
      if len + 3 > maxlen { return false; }
      ghost var t := buf[..len];
      var u := Utf8(cp);
      buf[len] := u[0];
      buf[len + 1] := u[1];
      buf[len + 2] := u[2];
      len := len + 3;
      assert buf[..len] == t + u;
      written := true;
    }

    /** kernel/hangul_ime.h ko_ime_commit. */
    method Commit(maxlen: nat)
      requires Valid() && maxlen <= buf.Length
      modifies this`initial, this`medial, this`final_, this`len, buf
      ensures Valid() && State() == NOTHING && Text() == Emit(old(Text()), maxlen, Pending(old(State())))
    {
      hide Utf8;
      if initial != -1 {
        var f := if final_ == -1 then 0 else final_;
        if medial == -1 {
          var w := EmitUtf8(maxlen, JAMO[initial]);
        } else {
          var w := EmitUtf8(maxlen, Compose(initial, medial, f));
        }
      }
      initial, medial, final_ := -1, -1, -1;
    }

    /** A consonant key. */
    method FeedConsonant(cons: int, maxlen: nat)
      requires Valid() && maxlen <= buf.Length && 0 <= cons <= 18
      modifies this`initial, this`medial, this`final_, this`len, buf
      ensures Valid()
      ensures (State(), Text()) == (StepConsonant(old(State()), cons).0, Emit(old(Text()), maxlen, StepConsonant(old(State()), cons).1))
    {
      hide Utf8, Pending, CombineFinal;
      if initial == -1 {
        initial, medial, final_ := cons, -1, -1;
      } else if medial == -1 {
        Commit(maxlen);
        initial := cons;
      } else if final_ == -1 {
        var simple := SIMPLE_FINAL[cons];
        if simple < 0 {
          Commit(maxlen);
          initial, medial, final_ := cons, -1, -1;
        } else {
          final_ := simple;
        }
      } else {
        var combined := CombineFinal(final_, cons);
        if combined >= 0 {
          final_ := combined;
        } else {
          Commit(maxlen);
          initial, medial, final_ := cons, -1, -1;
        }
      }
    }

    /** A vowel key, with the hand-back of a tentative final. */
    method FeedVowel(vow: int, maxlen: nat)
      requires Valid() && maxlen <= buf.Length && 0 <= vow <= 20
      modifies this`initial, this`medial, this`final_, this`len, buf
      ensures Valid()
      ensures (State(), Text()) == (StepVowel(old(State()), vow).0, Emit(old(Text()), maxlen, StepVowel(old(State()), vow).1))
    {
      hide Utf8, Pending, CombineMedial, SplitFinal;
      if initial == -1 {
        initial, medial, final_ := 11, vow, -1;
      } else if medial == -1 {
        medial := vow;
      } else if final_ == -1 {
        var combined := CombineMedial(medial, vow);
        if combined >= 0 {
          medial := combined;
        } else {
          Commit(maxlen);
          initial, medial, final_ := 11, vow, -1;
        }
      } else {
        var split := SplitFinal(final_);
        final_ := if split.0 == 0 then -1 else split.0;
        Commit(maxlen);
        initial, medial, final_ := split.1, vow, -1;
      }
    }

    /** kernel/hangul_ime.h ko_ime_feed_key: false for a key that is not on the layout. */
    method FeedKey(c: char, maxlen: nat) returns (consumed: bool)
      requires Valid() && maxlen <= buf.Length
      modifies this`initial, this`medial, this`final_, this`len, buf
      ensures Valid() && consumed == (Consonant(c) >= 0 || Vowel(c) >= 0)
      ensures (State(), Text()) == (Step(old(State()), c).0, Emit(old(Text()), maxlen, Step(old(State()), c).1))
    {
      hide Consonant, Vowel, Pending, StepConsonant, StepVowel, Emit;
      var cons, vow := Consonant(c), Vowel(c);
      if cons < 0 && vow < 0 {
        Commit(maxlen);
        return false;
      }
      if cons >= 0 {
        FeedConsonant(cons, maxlen);
      } else {
        FeedVowel(vow, maxlen);
      }
      consumed := true;
    }

    /** A whole sentence typed and committed. */
    method TypeAll(w: seq<Syllable>, maxlen: nat)
      requires Valid() && maxlen <= buf.Length && State() == NOTHING && forall k :: 0 <= k < |w| ==> w[k].Valid()
      modifies this`initial, this`medial, this`final_, this`len, buf
      ensures Valid() && State() == NOTHING && Text() == Appended(old(Text()), maxlen, w)
    {
      hide Step, Keys, Pending, Emit, SentenceKeys, Appended;
      var keys := SentenceKeys(w);
      assert keys[0..] == keys;
      for i := 0 to |keys|
        invariant Valid() && Type(State(), Text(), maxlen, keys[i..]) == Type(NOTHING, old(Text()), maxlen, keys)
      {
        assert keys[i..][1..] == keys[i + 1..];
        var c := FeedKey(keys[i], maxlen);
      }
      TypingIsInverse(old(Text()), maxlen, w);
      Commit(maxlen);
    }

    /** kernel/hangul_ime.h ko_ime_backspace: undoes the last part of the cell. */
    method Backspace() returns (ate: bool)
      requires Valid()
      modifies this`initial, this`medial, this`final_
      ensures Valid() && ate == (old(final_) != -1 || old(medial) != -1 || old(initial) != -1)
      ensures State() == Erased(old(State()))
    {
      if final_ != -1 { final_ := -1; return true; }
      if medial != -1 { medial := -1; return true; }
      if initial != -1 { initial := -1; return true; }
      return false;
    }
  }
}
