/** kernel/layout.h:1398-1453: step 2 of lay_table, the column widths of a table. */
module TableLayout {
  import opened Options
  import opened ModArith

  const TB_MAXCOL := 48
  const SHORT_MAX := 32767

  /** The fields of tbcell_t that step 2 reads. */
  datatype Cell = Cell(col: nat, cs: nat, cmin: int, cmax: int, fixed: int, pct: int)

  predicate CellsOk(cells: seq<Cell>, ncols: nat) {
    forall i :: 0 <= i < |cells| ==> 1 <= cells[i].cs && cells[i].col + cells[i].cs <= ncols
  }

  // ---------- sums ----------

  function Sum(s: seq<int>): int {
    if |s| == 0 then 0 else Sum(s[..|s| - 1]) + s[|s| - 1]
  }

  lemma {:induction false} SumMono(s: seq<int>, t: seq<int>)
    requires |s| == |t| && forall i :: 0 <= i < |s| ==> s[i] <= t[i]
    ensures Sum(s) <= Sum(t)
    decreases |s|
  {
    if |s| > 0 { SumMono(s[..|s| - 1], t[..|t| - 1]); }
  }

  lemma {:induction false} SumNonneg(s: seq<int>)
    requires forall i :: 0 <= i < |s| ==> s[i] >= 0
    ensures Sum(s) >= 0 && forall i :: 0 <= i < |s| ==> s[i] <= Sum(s)
    decreases |s|
  {
    if |s| > 0 {
      SumNonneg(s[..|s| - 1]);
      forall i | 0 <= i < |s| ensures s[i] <= Sum(s) {
        if i < |s| - 1 { assert s[i] == s[..|s| - 1][i]; }
      }
    }
  }

  lemma SumNext(s: seq<int>, i: nat)
    requires i < |s|
    ensures Sum(s[..i + 1]) == Sum(s[..i]) + s[i]
  {
    assert s[..i + 1][..i] == s[..i];
  }

  lemma SumSlice(s: seq<int>, i: nat, j: nat)
    requires i <= j < |s|
    ensures Sum(s[i..j + 1]) == Sum(s[i..j]) + s[j]
  {
    assert s[i..j + 1][..j - i] == s[i..j];
  }

  // ---------- what the columns need ----------

  /** One demand on the columns col .. col + cs - 1 together. */
  datatype Demand = Demand(col: nat, cs: nat, want: int)

  predicate DemandsOk(ds: seq<Demand>, ncols: nat) {
    forall i :: 0 <= i < |ds| ==> 1 <= ds[i].cs && ds[i].col + ds[i].cs <= ncols
  }

  /** A cell in one column widens it to its want. */
  function Single(cols: seq<int>, d: Demand): (r: seq<int>)
    requires d.col < |cols|
    ensures |r| == |cols|
  {
    if d.cs == 1 && d.want > cols[d.col] then cols[d.col := d.want] else cols
  }

  /** What a spanning cell already gets: its columns and the spacing between them. */
  function Span(cols: seq<int>, d: Demand, spx: int): int
    requires d.col + d.cs <= |cols|
  {
    Sum(cols[d.col..d.col + d.cs]) + spx * (d.cs - 1)
  }

  /** The missing width e, spread evenly, the remainder on the last column. */
  function Part(e: int, cs: nat, k: nat): int
    requires cs >= 1
  {
    e / cs + (if k == cs - 1 then e % cs else 0)
  }

  function Spread(cols: seq<int>, d: Demand, e: int): (r: seq<int>)
    requires 1 <= d.cs && d.col + d.cs <= |cols|
    ensures |r| == |cols|
  {
    seq(|cols|, i requires 0 <= i < |cols| =>
      if d.col <= i < d.col + d.cs then cols[i] + Part(e, d.cs, i - d.col) else cols[i])
  }

  function Spanning(cols: seq<int>, d: Demand, spx: int): (r: seq<int>)
    requires 1 <= d.cs && d.col + d.cs <= |cols|
    ensures |r| == |cols|
  {
    if d.cs != 1 && d.want > Span(cols, d, spx) then Spread(cols, d, d.want - Span(cols, d, spx)) else cols
  }

  /** All cells in one column, in order. */
  function Singles(cols: seq<int>, ds: seq<Demand>): (r: seq<int>)
    requires DemandsOk(ds, |cols|)
    ensures |r| == |cols|
  {
    if |ds| == 0 then cols else Single(Singles(cols, ds[..|ds| - 1]), ds[|ds| - 1])
  }

  /** Then all spanning cells, in order. */
  function Spannings(cols: seq<int>, ds: seq<Demand>, spx: int): (r: seq<int>)
    requires DemandsOk(ds, |cols|)
    ensures |r| == |cols|
  {
    if |ds| == 0 then cols else Spanning(Spannings(cols, ds[..|ds| - 1], spx), ds[|ds| - 1], spx)
  }

  function Widened(ncols: nat, ds: seq<Demand>, spx: int): (r: seq<int>)
    requires DemandsOk(ds, ncols)
    ensures |r| == ncols
  {
    Spannings(Singles(seq(ncols, _ => 0), ds), ds, spx)
  }

  /** The columns of a demand are wide enough for it. */
  predicate Covers(cols: seq<int>, d: Demand, spx: int)
    requires 1 <= d.cs && d.col + d.cs <= |cols|
  {
    Span(cols, d, spx) >= d.want
  }

  predicate Wider(s: seq<int>, t: seq<int>) {
    |s| == |t| && forall i :: 0 <= i < |s| ==> s[i] <= t[i]
  }

  lemma CoversWider(s: seq<int>, t: seq<int>, d: Demand, spx: int)
    requires Wider(s, t) && 1 <= d.cs && d.col + d.cs <= |s| && Covers(s, d, spx)
    ensures Covers(t, d, spx)
  {
    SumMono(s[d.col..d.col + d.cs], t[d.col..d.col + d.cs]);
  }

  lemma PartsNonneg(e: int, cs: nat, k: nat)
    requires cs >= 1 && e >= 0
    ensures Part(e, cs, k) >= 0
  {
  }

  /** The parts of a spread add up. */
  lemma {:induction false} PartsSum(cols: seq<int>, d: Demand, e: int, n: nat)
    requires 1 <= d.cs && d.col + d.cs <= |cols| && n <= d.cs
    ensures Sum(Spread(cols, d, e)[d.col..d.col + n])
      == Sum(cols[d.col..d.col + n]) + Mul(n, e / d.cs) + if n == d.cs then e % d.cs else 0
    decreases n
  {
    hide Mul, Sum;
    var r := Spread(cols, d, e);
    SumOfNone();
    if n == 0 {
      assert r[d.col..d.col] == [] && cols[d.col..d.col] == [];
      MulUnit(e / d.cs);
    } else {
      PartsSum(cols, d, e, n - 1);
      SumSlice(r, d.col, d.col + n - 1);
      SumSlice(cols, d.col, d.col + n - 1);
      assert r[d.col + n - 1] == cols[d.col + n - 1] + Part(e, d.cs, n - 1);
      MulAdd(n - 1, 1, e / d.cs);
      MulUnit(e / d.cs);
    }
  }

  lemma SumOfNone()
    ensures Sum([]) == 0
  {
  }

  lemma SpreadCovers(cols: seq<int>, d: Demand, spx: int)
    requires 1 <= d.cs && d.col + d.cs <= |cols| && d.want > Span(cols, d, spx)
    ensures Wider(cols, Spread(cols, d, d.want - Span(cols, d, spx)))
    ensures Span(Spread(cols, d, d.want - Span(cols, d, spx)), d, spx) == d.want
  {
    var e := d.want - Span(cols, d, spx);
    PartsSum(cols, d, e, d.cs);
    DivModMul(e, d.cs);
    hide Mul;
    forall i | 0 <= i < |cols| ensures cols[i] <= Spread(cols, d, e)[i] {
      if d.col <= i < d.col + d.cs { PartsNonneg(e, d.cs, i - d.col); }
    }
  }

  lemma {:induction false} SinglesCover(cols: seq<int>, ds: seq<Demand>, spx: int)
    requires DemandsOk(ds, |cols|)
    ensures Wider(cols, Singles(cols, ds))
    ensures forall i :: 0 <= i < |ds| && ds[i].cs == 1 ==> Covers(Singles(cols, ds), ds[i], spx)
    decreases |ds|
  {
    hide Sum;
    if |ds| > 0 {
      var n := |ds| - 1;
      SinglesCover(cols, ds[..n], spx);
      var s, t := Singles(cols, ds[..n]), Singles(cols, ds);
      forall i | 0 <= i < |ds| && ds[i].cs == 1 ensures Covers(t, ds[i], spx) {
        if i < n {
          assert ds[..n][i] == ds[i];
          CoversWider(s, t, ds[i], spx);
        } else {
          OneColumn(t, ds[n], spx);
        }
      }
    }
  }

  /** No column is wider than the largest cell that stands in it alone. */
  lemma {:induction false} SinglesAttained(cols: seq<int>, ds: seq<Demand>, c: nat)
    requires DemandsOk(ds, |cols|) && c < |cols|
    ensures Singles(cols, ds)[c] == cols[c]
      || exists i :: 0 <= i < |ds| && ds[i].cs == 1 && ds[i].col == c && ds[i].want == Singles(cols, ds)[c]
    decreases |ds|
  {
    if |ds| > 0 {
      var n := |ds| - 1;
      SinglesAttained(cols, ds[..n], c);
      if Singles(cols, ds)[c] == Singles(cols, ds[..n])[c] {
        assert forall i :: 0 <= i < n ==> ds[..n][i] == ds[i];
      } else {
        assert ds[n].cs == 1 && ds[n].col == c && ds[n].want == Singles(cols, ds)[c];
      }
    }
  }

  /** A spanning cell widens its own columns only, to exactly what it wants, and no two of them by
      amounts that differ by as much as there are columns. */
  lemma SpanningFair(cols: seq<int>, d: Demand, spx: int, i: nat, j: nat)
    requires 1 < d.cs && d.col + d.cs <= |cols| && i < |cols| && j < |cols|
    ensures var r := Spanning(cols, d, spx);
      && (d.want <= Span(cols, d, spx) ==> r == cols)
      && (d.want > Span(cols, d, spx) ==> Span(r, d, spx) == d.want)
      && (!(d.col <= i < d.col + d.cs) ==> r[i] == cols[i])
      && (d.col <= i < d.col + d.cs && d.col <= j < d.col + d.cs ==> (r[i] - cols[i]) - (r[j] - cols[j]) < d.cs)
  {
    hide Span, Part;
    if d.want > Span(cols, d, spx) {
      SpreadCovers(cols, d, spx);
      if d.col <= i < d.col + d.cs && d.col <= j < d.col + d.cs {
        PartsFair(d.want - Span(cols, d, spx), d.cs, i - d.col, j - d.col);
      }
    }
  }

  lemma PartsFair(e: int, cs: nat, k: nat, l: nat)
    requires cs >= 1 && e >= 0
    ensures Part(e, cs, k) - Part(e, cs, l) < cs
  {
  }

  lemma OneColumn(t: seq<int>, d: Demand, spx: int)
    requires d.cs == 1 && d.col < |t|
    ensures Span(t, d, spx) == t[d.col]
  {
    var one := t[d.col..d.col + 1];
    assert one == [t[d.col]];
    SumOne(t[d.col]);
    TimesNothing(spx, d.cs - 1);
  }

  lemma SumOne(x: int)
    ensures Sum([x]) == x
  {
    assert [x][..0] == [];
  }

  lemma TimesNothing(x: int, z: int)
    requires z == 0
    ensures x * z == 0
  {
  }

  lemma {:induction false} SpanningsCover(cols: seq<int>, ds: seq<Demand>, spx: int)
    requires DemandsOk(ds, |cols|) && forall i :: 0 <= i < |ds| && ds[i].cs == 1 ==> Covers(cols, ds[i], spx)
    ensures Wider(cols, Spannings(cols, ds, spx))
    ensures forall i :: 0 <= i < |ds| ==> Covers(Spannings(cols, ds, spx), ds[i], spx)
    decreases |ds|
  {
    hide Span, Spread;
    if |ds| > 0 {
      var n := |ds| - 1;
      assert forall i :: 0 <= i < n ==> ds[..n][i] == ds[i];
      SpanningsCover(cols, ds[..n], spx);
      var s, t := Spannings(cols, ds[..n], spx), Spannings(cols, ds, spx);
      if ds[n].cs != 1 && ds[n].want > Span(s, ds[n], spx) {
        SpreadCovers(s, ds[n], spx);
        assert t == Spread(s, ds[n], ds[n].want - Span(s, ds[n], spx));
      } else {
        assert t == s;
        if ds[n].cs == 1 { CoversWider(cols, s, ds[n], spx); }
      }
      assert Wider(s, t) && Covers(t, ds[n], spx);
      forall i | 0 <= i < |ds| ensures Covers(t, ds[i], spx) {
        if i < n {
          assert ds[..n][i] == ds[i];
          CoversWider(s, t, ds[i], spx);
        }
      }
    }
  }

  /** Every cell, spanning or not, fits into the columns it stands in. */
  lemma WidenedCovers(ncols: nat, ds: seq<Demand>, spx: int)
    requires DemandsOk(ds, ncols)
    ensures forall i :: 0 <= i < |ds| ==> Covers(Widened(ncols, ds, spx), ds[i], spx)
    ensures forall c :: 0 <= c < ncols ==> Widened(ncols, ds, spx)[c] >= 0
  {
    hide Sum;
    var zero := seq(ncols, _ => 0);
    SinglesCover(zero, ds, spx);
    SpanningsCover(Singles(zero, ds), ds, spx);
    assert Wider(zero, Singles(zero, ds)) && Wider(Singles(zero, ds), Widened(ncols, ds, spx));
  }

  // ---------- distributing the target ----------

  /** A share of e in proportion to x out of s, rounded down. */
  function Share(e: int, x: int, s: int): int
    requires s > 0
  {
    e * x / s
  }

  lemma DivAtMost(y: int, s: int, t: int)
    requires s > 0 && y <= Mul(s, t)
    ensures y / s <= t
  {
    hide Mul;
    DivModMul(y, s);
    if y / s > t {
      MulMono(t + 1, y / s, s);
      MulAdd(t, 1, s);
      MulUnit(s);
      MulSwap(s, t);
      MulSwap(s, y / s);
    }
  }

  lemma ShareBounds(e: int, x: int, s: int)
    requires s > 0 && e >= 0 && x >= 0
    ensures 0 <= Share(e, x, s) && Mul(s, Share(e, x, s)) <= Mul(e, x)
    ensures e <= s ==> Share(e, x, s) <= x
    ensures x <= s ==> Share(e, x, s) <= e
  {
    MulIs(e, x);
    hide Mul;
    MulNat(e, x);
    DivModMul(e * x, s);
    MulSwap(e, x);
    if e <= s {
      MulMono(e, s, x);
      DivAtMost(e * x, s, x);
    }
    if x <= s {
      MulMono(x, s, e);
      DivAtMost(e * x, s, e);
    }
  }

  function Shares(e: int, xs: seq<int>, s: int): (r: seq<int>)
    requires s > 0
    ensures |r| == |xs|
  {
    seq(|xs|, i requires 0 <= i < |xs| => Share(e, xs[i], s))
  }

  lemma {:induction false} SharesSum(e: int, xs: seq<int>, s: int)
    requires s > 0 && e >= 0 && forall i :: 0 <= i < |xs| ==> xs[i] >= 0
    ensures Mul(s, Sum(Shares(e, xs, s))) <= Mul(e, Sum(xs))
    decreases |xs|
  {
    hide Mul, Share;
    MulUnit(s);
    MulUnit(e);
    if |xs| > 0 {
      var n := |xs| - 1;
      SharesSum(e, xs[..n], s);
      ShareBounds(e, xs[n], s);
      assert Shares(e, xs, s)[..n] == Shares(e, xs[..n], s);
      MulAdd(Sum(Shares(e, xs[..n], s)), Share(e, xs[n], s), s);
      MulAdd(Sum(xs[..n]), xs[n], e);
    }
  }

  /** Rounding down never hands out more than there is. */
  lemma SharesFit(e: int, xs: seq<int>)
    requires Sum(xs) > 0 && e >= 0 && forall i :: 0 <= i < |xs| ==> xs[i] >= 0
    ensures Sum(Shares(e, xs, Sum(xs))) <= e
  {
    hide Mul, Shares;
    SharesSum(e, xs, Sum(xs));
    MulSwap(e, Sum(xs));
    if Sum(Shares(e, xs, Sum(xs))) > e {
      MulMono(e + 1, Sum(Shares(e, xs, Sum(xs))), Sum(xs));
      MulAdd(e, 1, Sum(xs));
      MulUnit(Sum(xs));
      MulSwap(Sum(xs), Sum(Shares(e, xs, Sum(xs))));
    }
  }

  function Zip(a: seq<int>, b: seq<int>): (r: seq<int>)
    requires |a| == |b|
    ensures |r| == |a|
  {
    seq(|a|, i requires 0 <= i < |a| => a[i] + b[i])
  }

  lemma {:induction false} SumZip(a: seq<int>, b: seq<int>)
    requires |a| == |b|
    ensures Sum(Zip(a, b)) == Sum(a) + Sum(b)
    decreases |a|
  {
    if |a| > 0 {
      var n := |a| - 1;
      SumZip(a[..n], b[..n]);
      assert Zip(a, b)[..n] == Zip(a[..n], b[..n]);
    }
  }

  lemma {:induction false} SumConst(n: nat, x: int)
    ensures Sum(seq(n, _ => x)) == Mul(n, x)
  {
    hide Mul;
    MulUnit(x);
    if n > 0 {
      SumConst(n - 1, x);
      assert seq(n, _ => x)[..n - 1] == seq(n - 1, _ => x);
      MulAdd(n - 1, 1, x);
    }
  }

  function Minus(a: seq<int>, b: seq<int>): (r: seq<int>)
    requires |a| == |b|
    ensures |r| == |a|
  {
    seq(|a|, i requires 0 <= i < |a| => a[i] - b[i])
  }

  lemma SumMinus(a: seq<int>, b: seq<int>)
    requires |a| == |b|
    ensures Sum(Minus(a, b)) == Sum(a) - Sum(b)
  {
    SumZip(Minus(a, b), b);
    assert Zip(Minus(a, b), b) == a;
  }

  /** A value stored in a short. */
  function Short(x: int): int {
    (x + 32768) % 65536 - 32768
  }

  lemma ShortIs(x: int)
    requires -32768 <= x <= 32767
    ensures Short(x) == x
  {
  }

  /** The widths before the correction of the last column, in the three branches. */
  function Raw(colmin: seq<int>, colmax: seq<int>, target: int, declared: bool): (r: seq<int>)
    requires |colmin| == |colmax|
    ensures |r| == |colmin|
  {
    var summin, summax := Sum(colmin), Sum(colmax);
    if target >= summax then
      if declared && target > summax then
        if summax > 0 then Zip(colmax, Shares(target - summax, colmax, summax))
        else Zip(colmax, seq(|colmax|, _ => (target - summax) / Max(1, |colmax|)))
      else colmax
    else if target > summin && summax > summin then
      Zip(colmin, Shares(target - summin, Minus(colmax, colmin), summax - summin))
    else colmin
  }

  lemma ExtraFits(colmax: seq<int>, e: int, summax: int)
    requires |colmax| > 0 && (forall c :: 0 <= c < |colmax| ==> 0 <= colmax[c]) && summax == Sum(colmax) && e > 0
    ensures var r := if summax > 0 then Zip(colmax, Shares(e, colmax, summax))
                     else Zip(colmax, seq(|colmax|, _ => e / Max(1, |colmax|)));
      Wider(colmax, r) && Sum(r) <= summax + e
  {
    hide Sum, Shares, Mul;
    if summax > 0 {
      SharesFit(e, colmax);
      SumZip(colmax, Shares(e, colmax, summax));
      SharesNonneg(e, colmax, summax);
    } else {
      var n, q := |colmax|, e / |colmax|;
      var even := seq(n, _ => q);
      SumConst(n, q);
      SumZip(colmax, even);
      DivModMul(e, n);
      SumNonneg(colmax);
      MulSwap(n, q);
    }
  }

  lemma ShrinkFits(colmin: seq<int>, colmax: seq<int>, target: int)
    requires |colmin| == |colmax| && forall c :: 0 <= c < |colmin| ==> 0 <= colmin[c] <= colmax[c]
    requires Sum(colmin) < target < Sum(colmax)
    ensures var r := Zip(colmin, Shares(target - Sum(colmin), Minus(colmax, colmin), Sum(colmax) - Sum(colmin)));
      Wider(colmin, r) && Wider(r, colmax) && Sum(r) <= target
  {
    hide Sum, Mul, Share;
    var e, span, s := target - Sum(colmin), Minus(colmax, colmin), Sum(colmax) - Sum(colmin);
    SumMinus(colmax, colmin);
    SharesFit(e, span);
    SumZip(colmin, Shares(e, span, s));
    SharesNonneg(e, span, s);
    forall c | 0 <= c < |colmin| ensures colmin[c] + Shares(e, span, s)[c] <= colmax[c] {
      ShareBounds(e, span[c], s);
    }
  }

  /** In every branch the raw widths are at least the minima and do not exceed the target
      together. */
  lemma RawFits(colmin: seq<int>, colmax: seq<int>, target: int, declared: bool)
    requires |colmin| == |colmax| > 0 && forall c :: 0 <= c < |colmin| ==> 0 <= colmin[c] <= colmax[c]
    requires Sum(colmin) <= target
    ensures Wider(colmin, Raw(colmin, colmax, target, declared)) && Sum(Raw(colmin, colmax, target, declared)) <= target
  {
    hide Sum, Shares, Zip, Minus;
    SumMono(colmin, colmax);
    if target >= Sum(colmax) {
      if declared && target > Sum(colmax) { ExtraFits(colmax, target - Sum(colmax), Sum(colmax)); }
    } else if target > Sum(colmin) {
      ShrinkFits(colmin, colmax, target);
    }
  }

  lemma SharesNonneg(e: int, xs: seq<int>, s: int)
    requires s > 0 && e >= 0 && forall i :: 0 <= i < |xs| ==> xs[i] >= 0
    ensures forall i :: 0 <= i < |xs| ==> Shares(e, xs, s)[i] >= 0
  {
    hide Share;
    forall i | 0 <= i < |xs| ensures Shares(e, xs, s)[i] >= 0 {
      ShareBounds(e, xs[i], s);
    }
  }

  /** The widths at the end. */
  function Widths(colmin: seq<int>, colmax: seq<int>, target: int, declared: bool): (r: seq<int>)
    requires |colmin| == |colmax| > 0
    ensures |r| == |colmin|
  {
    var raw, n := Raw(colmin, colmax, target, declared), |colmin| - 1;
    if target >= Sum(colmin) && (declared || target < Sum(colmax)) && Sum(raw) != target
    then raw[n := Max(colmin[n], raw[n] + target - Sum(raw))] else raw
  }

  function Max(a: int, b: int): int {
    if a > b then a else b
  }

  lemma SumUpdateLast(s: seq<int>, x: int)
    requires |s| > 0
    ensures Sum(s[|s| - 1 := x]) == Sum(s) - s[|s| - 1] + x
  {
    assert s[|s| - 1 := x][..|s| - 1] == s[..|s| - 1];
  }

  /** The widths are conserved: they sum exactly to the target, whatever was rounded, and
      none is below its column's minimum. */
  lemma WidthsConserved(colmin: seq<int>, colmax: seq<int>, target: int, declared: bool)
    requires |colmin| == |colmax| > 0 && forall c :: 0 <= c < |colmin| ==> 0 <= colmin[c] <= colmax[c]
    requires Sum(colmin) <= target && (declared || target <= Sum(colmax))
    ensures Sum(Widths(colmin, colmax, target, declared)) == target
    ensures Wider(colmin, Widths(colmin, colmax, target, declared))
  {
    hide Sum, Raw;
    RawFits(colmin, colmax, target, declared);
    var raw, n := Raw(colmin, colmax, target, declared), |colmin| - 1;
    if declared || target < Sum(colmax) {
      SumUpdateLast(raw, raw[n] + target - Sum(raw));
    } else {
      NaturalFit(colmin, colmax, target);
    }
  }

  /** A share rounded down loses less than one. */
  lemma ShareExact(e: int, x: int, s: int)
    requires s > 0
    ensures Mul(s, Share(e, x, s)) <= Mul(e, x) < Mul(s, Share(e, x, s)) + s
  {
    DivModMul(e * x, s);
    MulIs(e, x);
    hide Mul;
    MulSwap(s, Share(e, x, s));
  }

  /** All shares together lose less than one each. */
  lemma {:induction false} SharesLoss(e: int, xs: seq<int>, s: int)
    requires s > 0
    ensures Mul(s, Sum(Shares(e, xs, s)) + |xs|) >= Mul(e, Sum(xs))
    ensures |xs| > 0 ==> Mul(s, Sum(Shares(e, xs, s)) + |xs|) > Mul(e, Sum(xs))
    decreases |xs|
  {
    hide Mul, Share;
    MulUnit(s);
    MulUnit(e);
    if |xs| > 0 {
      var n := |xs| - 1;
      var sum, last := Sum(Shares(e, xs[..n], s)), Share(e, xs[n], s);
      SharesLoss(e, xs[..n], s);
      ShareExact(e, xs[n], s);
      assert Shares(e, xs, s)[..n] == Shares(e, xs[..n], s);
      MulAdd(sum + n, last + 1, s);
      MulAdd(last, 1, s);
      MulAdd(Sum(xs[..n]), xs[n], e);
      assert Sum(Shares(e, xs, s)) + |xs| == (sum + n) + (last + 1);
    }
  }

  /** Less than one pixel a column is left over. */
  lemma SharesNearlyAll(e: int, xs: seq<int>)
    requires Sum(xs) > 0 && e >= 0 && |xs| > 0
    ensures e - |xs| < Sum(Shares(e, xs, Sum(xs)))
  {
    hide Mul, Share, Shares, Sum;
    var t, s := Sum(Shares(e, xs, Sum(xs))) + |xs|, Sum(xs);
    SharesLoss(e, xs, s);
    MulSwap(s, t);
    if t <= e { MulMono(t, e, s); }
  }

  /** Between the minima and the natural widths, every column but the last gets, rounded down, the
      part of the spare width that its own room is of all room; the last one gets less than a
      pixel a column more. */
  lemma RoomIsShared(colmin: seq<int>, colmax: seq<int>, target: int, declared: bool, c: nat)
    requires |colmin| == |colmax| > 0 && forall k :: 0 <= k < |colmin| ==> 0 <= colmin[k] <= colmax[k]
    requires Sum(colmin) < target < Sum(colmax) && c < |colmin|
    ensures var w := Widths(colmin, colmax, target, declared)[c] - colmin[c];
      var spare, room := target - Sum(colmin), Sum(colmax) - Sum(colmin);
      var own := colmax[c] - colmin[c];
      && (c < |colmin| - 1 ==> Mul(room, w) <= Mul(spare, own) < Mul(room, w + 1))
      && (c == |colmin| - 1 ==> Mul(room, w - |colmin|) < Mul(spare, own) < Mul(room, w + 1))
  {
    hide *;
    var e, x, s := target - Sum(colmin), colmax[c] - colmin[c], Sum(colmax) - Sum(colmin);
    NarrowWidth(colmin, colmax, target, declared, c);
    var w := Widths(colmin, colmax, target, declared)[c] - colmin[c];
    ShareExact(e, x, s);
    ShareScaled(s, Share(e, x, s), w, |colmin|, Mul(e, x));
  }

  lemma NarrowWidth(colmin: seq<int>, colmax: seq<int>, target: int, declared: bool, c: nat)
    requires |colmin| == |colmax| > 0 && forall k :: 0 <= k < |colmin| ==> 0 <= colmin[k] <= colmax[k]
    requires Sum(colmin) < target < Sum(colmax) && c < |colmin|
    ensures var w := Widths(colmin, colmax, target, declared)[c] - colmin[c];
      var share := Share(target - Sum(colmin), colmax[c] - colmin[c], Sum(colmax) - Sum(colmin));
      (c < |colmin| - 1 ==> w == share) && share <= w < share + |colmin|
  {
    RawFits(colmin, colmax, target, declared);
    RawNarrow(colmin, colmax, target, declared, c);
    NarrowSum(colmin, colmax, target, declared);
    hide Sum, Share, Raw;
  }

  lemma NarrowSum(colmin: seq<int>, colmax: seq<int>, target: int, declared: bool)
    requires |colmin| == |colmax| > 0 && Sum(colmin) < target < Sum(colmax)
    ensures target - |colmin| < Sum(Raw(colmin, colmax, target, declared))
  {
    var e, span, s := target - Sum(colmin), Minus(colmax, colmin), Sum(colmax) - Sum(colmin);
    assert Raw(colmin, colmax, target, declared) == Zip(colmin, Shares(e, span, s)) by { hide Sum, Shares, Zip, Minus; }
    hide *;
    SumMinus(colmax, colmin);
    SharesNearlyAll(e, span);
    SumZip(colmin, Shares(e, span, s));
  }

  lemma ShareScaled(s: int, share: int, w: int, n: nat, p: int)
    requires s > 0 && Mul(s, share) <= p < Mul(s, share) + s && share <= w < share + n
    ensures w == share ==> Mul(s, w) <= p < Mul(s, w + 1)
    ensures Mul(s, w - n) < p < Mul(s, w + 1)
  {
    hide Mul;
    MulAdd(w, 1, s);
    MulAdd(share, 1, s);
    MulUnit(s);
    MulMono(share + 1, w + 1, s);
    MulMono(w - n, share - 1, s);
    MulAdd(share, 1, s);
    MulSwap(s, share + 1);
    MulSwap(s, w + 1);
    MulSwap(s, w - n);
    MulSwap(s, share - 1);
  }

  /** Columns that need the same and would like the same get the same, but for the rounding that
      the last one takes. */
  lemma EqualColumns(colmin: seq<int>, colmax: seq<int>, target: int, declared: bool, c: nat, d: nat)
    requires |colmin| == |colmax| > 0 && forall k :: 0 <= k < |colmin| ==> 0 <= colmin[k] <= colmax[k]
    requires Sum(colmin) <= target && (declared || target <= Sum(colmax))
    requires c < |colmin| && d < |colmin| && colmin[c] == colmin[d] && colmax[c] == colmax[d]
    ensures var w := Widths(colmin, colmax, target, declared);
      w[c] == w[d] || (c == |colmin| - 1 && w[d] < w[c]) || (d == |colmin| - 1 && w[c] < w[d])
  {
    hide Sum;
    RawFits(colmin, colmax, target, declared);
    RawEqual(colmin, colmax, target, declared, c, d);
    hide Raw;
  }

  lemma RawEqual(colmin: seq<int>, colmax: seq<int>, target: int, declared: bool, c: nat, d: nat)
    requires |colmin| == |colmax| && c < |colmin| && d < |colmin| && colmin[c] == colmin[d] && colmax[c] == colmax[d]
    ensures Raw(colmin, colmax, target, declared)[c] == Raw(colmin, colmax, target, declared)[d]
  {
    hide Sum, Share, Max;
  }

  /** Without a declared width a table that has the room is as wide as it would like. */
  lemma NaturalWidths(colmin: seq<int>, colmax: seq<int>, target: int)
    requires |colmin| == |colmax| > 0 && target >= Sum(colmax)
    ensures Widths(colmin, colmax, target, false) == colmax
  {
    hide Sum, Share, Max;
  }

  lemma NaturalFit(colmin: seq<int>, colmax: seq<int>, target: int)
    requires |colmin| == |colmax| && target == Sum(colmax)
    ensures Raw(colmin, colmax, target, false) == colmax
  {
  }

  /** All widths fit a short when the target does. */
  lemma NoneExceeds(s: seq<int>, target: int)
    requires Sum(s) <= target && forall i :: 0 <= i < |s| ==> s[i] >= 0
    ensures forall i :: 0 <= i < |s| ==> s[i] <= target
  {
    SumNonneg(s);
  }

  // ---------- the columns' needs, in place ----------

  function MinDemands(cells: seq<Cell>): (ds: seq<Demand>)
    ensures |ds| == |cells|
  {
    seq(|cells|, i requires 0 <= i < |cells| => Demand(cells[i].col, cells[i].cs, cells[i].cmin))
  }

  function MaxDemands(cells: seq<Cell>): (ds: seq<Demand>)
    ensures |ds| == |cells|
  {
    seq(|cells|, i requires 0 <= i < |cells| => Demand(cells[i].col, cells[i].cs, cells[i].cmax))
  }

  function FixDemands(cells: seq<Cell>): (ds: seq<Demand>)
    ensures |ds| == |cells|
  {
    seq(|cells|, i requires 0 <= i < |cells| => Demand(cells[i].col, cells[i].cs, cells[i].fixed))
  }

  function PctDemands(cells: seq<Cell>): (ds: seq<Demand>)
    ensures |ds| == |cells|
  {
    seq(|cells|, i requires 0 <= i < |cells| => Demand(cells[i].col, cells[i].cs, cells[i].pct))
  }

  function Zeros(n: nat): (r: seq<int>)
    ensures |r| == n
  {
    seq(n, _ => 0)
  }

  lemma SinglesNext(cols: seq<int>, ds: seq<Demand>, i: nat)
    requires DemandsOk(ds, |cols|) && i < |ds|
    ensures Singles(cols, ds[..i + 1]) == Single(Singles(cols, ds[..i]), ds[i])
  {
    assert ds[..i + 1][..i] == ds[..i];
  }

  /** One demand of a cell in one column. */
  method Raise(col: array<int>, d: Demand, ghost ds: seq<Demand>, ghost i: nat)
    requires d.cs == 1 && d.col < col.Length && DemandsOk(ds, col.Length) && i < |ds| && ds[i] == d
    requires col[..] == Singles(Zeros(col.Length), ds[..i])
    modifies col
    ensures col[..] == Singles(Zeros(col.Length), ds[..i + 1])
  {
    hide Singles, Zeros;
    SinglesNext(Zeros(col.Length), ds, i);
    if d.want > col[d.col] { col[d.col] := d.want; }
  }

  /** The loop over the cells in one column. */
  method SinglePass(cells: seq<Cell>, colmin: array<int>, colmax: array<int>, colfix: array<int>, colpct: array<int>)
    requires colmin.Length == colmax.Length == colfix.Length == colpct.Length && CellsOk(cells, colmin.Length)
    requires colmin != colmax && colmin != colfix && colmin != colpct && colmax != colfix && colmax != colpct && colfix != colpct
    requires colmin[..] == colmax[..] == colfix[..] == colpct[..] == Zeros(colmin.Length)
    modifies colmin, colmax, colfix, colpct
    ensures DemandsOk(MinDemands(cells), colmin.Length) && DemandsOk(MaxDemands(cells), colmin.Length)
    ensures DemandsOk(FixDemands(cells), colmin.Length) && DemandsOk(PctDemands(cells), colmin.Length)
    ensures colmin[..] == Singles(Zeros(colmin.Length), MinDemands(cells))
    ensures colmax[..] == Singles(Zeros(colmin.Length), MaxDemands(cells))
    ensures colfix[..] == Singles(Zeros(colmin.Length), FixDemands(cells))
    ensures colpct[..] == Singles(Zeros(colmin.Length), PctDemands(cells))
  {
    hide Singles, Zeros;
    ghost var n := colmin.Length;
    ghost var a, b, c, d := MinDemands(cells), MaxDemands(cells), FixDemands(cells), PctDemands(cells);
    SinglesNone(n, a);
    SinglesNone(n, b);
    SinglesNone(n, c);
    SinglesNone(n, d);
    for i := 0 to |cells|
      invariant colmin[..] == Singles(Zeros(n), a[..i]) && colmax[..] == Singles(Zeros(n), b[..i])
      invariant colfix[..] == Singles(Zeros(n), c[..i]) && colpct[..] == Singles(Zeros(n), d[..i])
    {
      var x := cells[i];
      if x.cs == 1 {
        Raise(colmin, Demand(x.col, x.cs, x.cmin), a, i);
        Raise(colmax, Demand(x.col, x.cs, x.cmax), b, i);
        Raise(colfix, Demand(x.col, x.cs, x.fixed), c, i);
        Raise(colpct, Demand(x.col, x.cs, x.pct), d, i);
      } else {
        SinglesSkip(Zeros(n), a, i);
        SinglesSkip(Zeros(n), b, i);
        SinglesSkip(Zeros(n), c, i);
        SinglesSkip(Zeros(n), d, i);
      }
    }
    assert a[..|a|] == a && b[..|b|] == b && c[..|c|] == c && d[..|d|] == d;
  }

  lemma SinglesNone(n: nat, ds: seq<Demand>)
    requires DemandsOk(ds, n)
    ensures Singles(Zeros(n), ds[..0]) == Zeros(n)
  {
  }

  lemma SinglesSkip(cols: seq<int>, ds: seq<Demand>, i: nat)
    requires DemandsOk(ds, |cols|) && i < |ds| && ds[i].cs != 1
    ensures Singles(cols, ds[..i + 1]) == Singles(cols, ds[..i])
  {
    SinglesNext(cols, ds, i);
  }

  /** The widths of the columns of a spanning cell, added up. */
  method SpanOf(col: array<int>, d: Demand, spx: int) returns (sum: int)
    requires 1 <= d.cs && d.col + d.cs <= col.Length
    ensures sum == Span(col[..], d, spx)
  {
    hide Sum;
    sum := 0;
    SumOfNone();
    assert col[..][d.col..d.col] == [];
    for k := 0 to d.cs
      invariant sum == Sum(col[..][d.col..d.col + k])
    {
      SumSlice(col[..], d.col, d.col + k);
      sum := sum + col[d.col + k];
    }
    sum := sum + spx * (d.cs - 1);
  }

  /** The loop that spreads the missing width e over the columns of a spanning cell. */
  method SpreadOver(col: array<int>, d: Demand, e: int)
    requires 1 <= d.cs && d.col + d.cs <= col.Length && e > 0
    requires forall c :: 0 <= c < col.Length ==> 0 <= col[c]
    requires forall c :: 0 <= c < col.Length ==> Spread(col[..], d, e)[c] <= SHORT_MAX
    modifies col
    ensures col[..] == Spread(old(col[..]), d, e)
  {
    hide Part;
    ghost var s := col[..];
    ghost var t := Spread(s, d, e);
    for k := 0 to d.cs
      invariant forall c :: 0 <= c < col.Length ==> col[c] == if c < d.col + k then t[c] else s[c]
    {
      PartsNonneg(e, d.cs, k);
      assert t[d.col + k] == s[d.col + k] + Part(e, d.cs, k);
      ShortIs(Part(e, d.cs, k));
      ShortIs(t[d.col + k]);
      col[d.col + k] := Short(col[d.col + k] + Short(Part(e, d.cs, k)));
    }
    assert col[..] == t;
  }

  lemma SpanningsNext(cols: seq<int>, ds: seq<Demand>, spx: int, i: nat)
    requires DemandsOk(ds, |cols|) && i < |ds|
    ensures Spannings(cols, ds[..i + 1], spx) == Spanning(Spannings(cols, ds[..i], spx), ds[i], spx)
  {
    assert ds[..i + 1][..i] == ds[..i];
  }

  lemma SpanningWiders(cols: seq<int>, d: Demand, spx: int)
    requires 1 <= d.cs && d.col + d.cs <= |cols|
    ensures Wider(cols, Spanning(cols, d, spx))
  {
    hide Span, Spread;
    if d.cs != 1 && d.want > Span(cols, d, spx) { SpreadCovers(cols, d, spx); }
  }

  /** What is in the arrays on the way never exceeds what is there in the end. */
  lemma {:induction false} SpanningsPrefix(cols: seq<int>, ds: seq<Demand>, spx: int, i: nat)
    requires DemandsOk(ds, |cols|) && i <= |ds|
    ensures Wider(Spannings(cols, ds[..i], spx), Spannings(cols, ds, spx))
    decreases |ds| - i
  {
    hide Spannings, Spanning;
    if i == |ds| {
      assert ds[..i] == ds;
    } else {
      SpanningsPrefix(cols, ds, spx, i + 1);
      SpanningsNext(cols, ds, spx, i);
      SpanningWiders(Spannings(cols, ds[..i], spx), ds[i], spx);
    }
  }

  /** One spanning demand on one of the arrays. */
  method Stretch(col: array<int>, d: Demand, spx: int, ghost cols: seq<int>, ghost ds: seq<Demand>, ghost i: nat)
    requires |cols| == col.Length && DemandsOk(ds, col.Length) && i < |ds| && ds[i] == d && d.cs != 1
    requires forall c :: 0 <= c < |cols| ==> 0 <= cols[c]
    requires forall c :: 0 <= c < |cols| ==> Spannings(cols, ds, spx)[c] <= SHORT_MAX
    requires col[..] == Spannings(cols, ds[..i], spx)
    modifies col
    ensures col[..] == Spannings(cols, ds[..i + 1], spx)
  {
    hide Spannings, Span, Spread;
    SpanningsNext(cols, ds, spx, i);
    SpanningsPrefix(cols, ds, spx, i + 1);
    SpanningsGrow(cols, ds, spx, i);
    var s := SpanOf(col, d, spx);
    if d.want > s {
      SpreadOver(col, d, d.want - s);
    }
  }

  lemma {:induction false} SpanningsGrow(cols: seq<int>, ds: seq<Demand>, spx: int, i: nat)
    requires DemandsOk(ds, |cols|) && i <= |ds|
    ensures Wider(cols, Spannings(cols, ds[..i], spx))
    decreases i
  {
    hide Spanning;
    if i > 0 {
      SpanningsGrow(cols, ds, spx, i - 1);
      SpanningsNext(cols, ds, spx, i - 1);
      SpanningWiders(Spannings(cols, ds[..i - 1], spx), ds[i - 1], spx);
    }
  }

  /** The loop over the spanning cells. */
  method SpanningPass(cells: seq<Cell>, colmin: array<int>, colmax: array<int>, spx: int)
    requires colmin.Length == colmax.Length && colmin != colmax && CellsOk(cells, colmin.Length)
    requires DemandsOk(MinDemands(cells), colmin.Length) && DemandsOk(MaxDemands(cells), colmin.Length)
    requires colmin[..] == Singles(Zeros(colmin.Length), MinDemands(cells))
    requires colmax[..] == Singles(Zeros(colmin.Length), MaxDemands(cells))
    requires forall c :: 0 <= c < colmin.Length ==>
      Widened(colmin.Length, MinDemands(cells), spx)[c] <= SHORT_MAX && Widened(colmin.Length, MaxDemands(cells), spx)[c] <= SHORT_MAX
    modifies colmin, colmax
    ensures colmin[..] == Widened(colmin.Length, MinDemands(cells), spx)
    ensures colmax[..] == Widened(colmin.Length, MaxDemands(cells), spx)
  {
    hide Singles, Spannings, Zeros;
    ghost var n := colmin.Length;
    ghost var a, b := MinDemands(cells), MaxDemands(cells);
    ghost var s, t := colmin[..], colmax[..];
    WidenedIs(n, a, spx);
    WidenedIs(n, b, spx);
    SpanningsNone(s, a, spx);
    SpanningsNone(t, b, spx);
    for i := 0 to |cells|
      invariant colmin[..] == Spannings(s, a[..i], spx) && colmax[..] == Spannings(t, b[..i], spx)
    {
      var x := cells[i];
      if x.cs == 1 {
        SpanningsSkip(s, a, spx, i);
        SpanningsSkip(t, b, spx, i);
      } else {
        Stretch(colmin, Demand(x.col, x.cs, x.cmin), spx, s, a, i);
        Stretch(colmax, Demand(x.col, x.cs, x.cmax), spx, t, b, i);
      }
    }
    assert a[..|a|] == a && b[..|b|] == b;
  }

  lemma WidenedIs(n: nat, ds: seq<Demand>, spx: int)
    requires DemandsOk(ds, n)
    ensures Widened(n, ds, spx) == Spannings(Singles(Zeros(n), ds), ds, spx)
    ensures forall c :: 0 <= c < n ==> Singles(Zeros(n), ds)[c] >= 0
  {
    hide Sum;
    assert Zeros(n) == seq(n, _ => 0);
    SinglesCover(Zeros(n), ds, spx);
  }

  lemma SpanningsNone(cols: seq<int>, ds: seq<Demand>, spx: int)
    requires DemandsOk(ds, |cols|)
    ensures Spannings(cols, ds[..0], spx) == cols
  {
  }

  lemma SpanningsSkip(cols: seq<int>, ds: seq<Demand>, spx: int, i: nat)
    requires DemandsOk(ds, |cols|) && i < |ds| && ds[i].cs == 1
    ensures Spannings(cols, ds[..i + 1], spx) == Spannings(cols, ds[..i], spx)
  {
    SpanningsNext(cols, ds, spx, i);
  }

  // ---------- the widths, in place ----------

  /** colmax once it covers colmin and gives way to a fixed width. */
  function NaturalMax(mins: seq<int>, maxs: seq<int>, fixes: seq<int>): (r: seq<int>)
    requires |mins| == |maxs| == |fixes|
    ensures |r| == |mins|
  {
    seq(|mins|, c requires 0 <= c < |mins| =>
      if fixes[c] > 0 then Max(mins[c], fixes[c]) else Max(maxs[c], mins[c]))
  }

  /** colmax of percentage columns, taken from the target. */
  function PercentMax(mins: seq<int>, maxs: seq<int>, pcts: seq<int>, target: int): (r: seq<int>)
    requires |mins| == |maxs| == |pcts|
    ensures |r| == |mins|
  {
    seq(|mins|, c requires 0 <= c < |mins| => if pcts[c] != 0 then Max(mins[c], target * pcts[c] / 1000) else maxs[c])
  }

  predicate AnyPercent(pcts: seq<int>) {
    exists c :: 0 <= c < |pcts| && pcts[c] != 0
  }

  /** The table width chosen before its columns: declared (or all there is for percentages, or
      the natural fit), at most what is available, at least what the columns need. */
  function Chosen(width: Option<int>, anyPct: bool, maxOuter: int, summin: int, summax: int, rest: int): int {
    var w0 := if width.Some? then width.value else if anyPct then maxOuter else summax + rest;
    var w1 := if w0 > maxOuter then maxOuter else w0;
    if w1 < summin + rest then summin + rest else w1
  }

  /** The target is at least what the columns need, and without a declared width or a
      percentage at most what they would like. */
  lemma TargetBounds(width: Option<int>, anyPct: bool, maxOuter: int, summin: int, summax: int, rest: int)
    requires 0 <= summin <= summax
    ensures var w := Chosen(width, anyPct, maxOuter, summin, summax, rest);
      w - rest >= summin && (width.None? && !anyPct ==> w - rest <= summax)
  {
  }

  /** The width of the table: as declared, or all there is for percentages, or the natural fit, as
      far as it lies between what the columns need and what is available; need comes first. */
  lemma ChosenMeans(width: Option<int>, anyPct: bool, maxOuter: int, summin: int, summax: int, rest: int)
    ensures var w := Chosen(width, anyPct, maxOuter, summin, summax, rest);
      && summin + rest <= w <= Max(maxOuter, summin + rest)
      && (width.Some? && summin + rest <= width.value <= maxOuter ==> w == width.value)
      && (width.Some? && width.value > maxOuter ==> w == Max(maxOuter, summin + rest))
      && (width.Some? && width.value < summin + rest ==> w == summin + rest)
      && (width.None? && anyPct ==> w == Max(maxOuter, summin + rest))
      && (width.None? && !anyPct && summin <= summax && summax + rest <= maxOuter ==> w == summax + rest)
      && (width.None? && !anyPct && summax + rest > maxOuter ==> w == Max(maxOuter, summin + rest))
  {
  }

  /** The loop over the columns that settles colmax and adds up. */
  method Totals(colmin: array<int>, colmax: array<int>, colfix: array<int>, colpct: array<int>)
    returns (anyPct: bool, summin: int, summax: int)
    requires colmin.Length == colmax.Length == colfix.Length == colpct.Length
    requires colmax != colmin && colmax != colfix && colmax != colpct
    requires forall c :: 0 <= c < colmin.Length ==> colmin[c] <= SHORT_MAX && -32768 <= colmin[c] && colfix[c] <= SHORT_MAX
    modifies colmax
    ensures colmax[..] == NaturalMax(colmin[..], old(colmax[..]), colfix[..])
    ensures anyPct == AnyPercent(colpct[..]) && summin == Sum(colmin[..]) && summax == Sum(colmax[..])
  {
    hide Sum, Short;
    ghost var m := colmax[..];
    ghost var goal := NaturalMax(colmin[..], m, colfix[..]);
    anyPct, summin, summax := false, 0, 0;
    SumOfNone();
    assert colmin[..0] == [] && goal[..0] == [];
    for c := 0 to colmin.Length
      invariant forall k :: 0 <= k < colmin.Length ==> colmax[k] == if k < c then goal[k] else m[k]
      invariant anyPct == exists k :: 0 <= k < c && colpct[k] != 0
      invariant summin == Sum(colmin[..][..c]) && summax == Sum(goal[..c])
    {
      if colmax[c] < colmin[c] { colmax[c] := colmin[c]; }
      if colfix[c] > 0 {
        ShortIs(Max(colmin[c], colfix[c]));
        colmax[c] := Short(Max(colmin[c], colfix[c]));
      }
      if colpct[c] != 0 { anyPct := true; }
      SumNext(colmin[..], c);
      SumNext(goal, c);
      summin := summin + colmin[c];
      summax := summax + colmax[c];
    }
    assert colmax[..] == goal && goal[..|goal|] == goal && colmin[..][..colmin.Length] == colmin[..];
  }

  /** The loop that takes percentage columns from the target. */
  method TakePercent(colmin: array<int>, colmax: array<int>, colpct: array<int>, target: int) returns (summax: int)
    requires colmin.Length == colmax.Length == colpct.Length && colmax != colmin && colmax != colpct && target >= 0
    requires forall c :: 0 <= c < colmin.Length ==>
      -32768 <= colmin[c] <= SHORT_MAX && 0 <= colpct[c] && target * colpct[c] / 1000 <= SHORT_MAX
    modifies colmax
    ensures colmax[..] == PercentMax(colmin[..], old(colmax[..]), colpct[..], target) && summax == Sum(colmax[..])
  {
    hide Sum, Short;
    ghost var m := colmax[..];
    ghost var goal := PercentMax(colmin[..], m, colpct[..], target);
    summax := 0;
    SumOfNone();
    assert goal[..0] == [];
    for c := 0 to colmin.Length
      invariant forall k :: 0 <= k < colmin.Length ==> colmax[k] == if k < c then goal[k] else m[k]
      invariant summax == Sum(goal[..c])
    {
      if colpct[c] != 0 {
        ShortIs(Max(colmin[c], target * colpct[c] / 1000));
        colmax[c] := Short(Max(colmin[c], target * colpct[c] / 1000));
      }
      SumNext(goal, c);
      summax := summax + colmax[c];
    }
    assert colmax[..] == goal && goal[..|goal|] == goal;
  }

  /** colw gets the raw widths of the three branches. */
  method Distribute(colmin: array<int>, colmax: array<int>, colw: array<int>, target: int, declared: bool, summin: int, summax: int)
    requires colmin.Length == colmax.Length == colw.Length > 0 && colw != colmin && colw != colmax
    requires summin == Sum(colmin[..]) <= target <= SHORT_MAX && summax == Sum(colmax[..])
    requires forall c :: 0 <= c < colmin.Length ==> 0 <= colmin[c] <= colmax[c]
    modifies colw
    ensures colw[..] == Raw(colmin[..], colmax[..], target, declared)
  {
    hide Sum, Share, Short, Raw;
    ghost var goal := Raw(colmin[..], colmax[..], target, declared);
    RawFits(colmin[..], colmax[..], target, declared);
    NoneExceeds(goal, target);
    var n := colmin.Length;
    if target >= summax {
      var extra := target - summax;
      for c := 0 to n
        invariant forall k :: 0 <= k < c ==> colw[k] == goal[k]
      {
        ShortIs(goal[c]);
        RawWide(colmin[..], colmax[..], target, declared, c);
        colw[c] := Short(colmax[c] + (if declared && extra > 0 then
          (if summax > 0 then Share(extra, colmax[c], summax) else extra / Max(1, n)) else 0));
      }
    } else if target > summin {
      var span := summax - summin;
      for c := 0 to n
        invariant forall k :: 0 <= k < c ==> colw[k] == goal[k]
      {
        ShortIs(goal[c]);
        RawNarrow(colmin[..], colmax[..], target, declared, c);
        colw[c] := Short(colmin[c] + Share(target - summin, colmax[c] - colmin[c], span));
      }
    } else {
      for c := 0 to n
        invariant forall k :: 0 <= k < c ==> colw[k] == goal[k]
      {
        RawLeast(colmin[..], colmax[..], target, declared);
        colw[c] := colmin[c];
      }
    }
    assert colw[..] == goal;
  }

  /** The raw width of one column when the naturals fit. */
  lemma RawWide(mins: seq<int>, maxs: seq<int>, target: int, declared: bool, c: nat)
    requires |mins| == |maxs| && c < |mins| && target >= Sum(maxs)
    ensures var summax := Sum(maxs);
      Raw(mins, maxs, target, declared)[c] ==
        maxs[c] + (if declared && target - summax > 0 then
                    (if summax > 0 then Share(target - summax, maxs[c], summax) else (target - summax) / Max(1, |mins|)) else 0)
  {
    hide Sum, Share, Max;
  }

  /** The raw width of one column when the minima have room to grow. */
  lemma RawNarrow(mins: seq<int>, maxs: seq<int>, target: int, declared: bool, c: nat)
    requires |mins| == |maxs| && c < |mins| && Sum(mins) < target < Sum(maxs)
    ensures Raw(mins, maxs, target, declared)[c]
         == mins[c] + Share(target - Sum(mins), maxs[c] - mins[c], Sum(maxs) - Sum(mins))
  {
    hide Sum, Share, Max;
  }

  lemma RawLeast(mins: seq<int>, maxs: seq<int>, target: int, declared: bool)
    requires |mins| == |maxs| && target == Sum(mins) && target < Sum(maxs)
    ensures Raw(mins, maxs, target, declared) == mins
  {
    hide Sum, Share, Max;
  }

  method SumOf(a: array<int>) returns (t: int)
    ensures t == Sum(a[..])
  {
    hide Sum;
    t := 0;
    SumOfNone();
    assert a[..][..0] == [];
    for c := 0 to a.Length
      invariant t == Sum(a[..][..c])
    {
      SumNext(a[..], c);
      t := t + a[c];
    }
    assert a[..][..a.Length] == a[..];
  }

  /** The correction that gives the rounding left-over to the last column. */
  method Correct(colmin: array<int>, colw: array<int>, target: int, declared: bool, summin: int, summax: int, ghost maxs: seq<int>)
    requires colmin.Length == colw.Length == |maxs| > 0 && colw != colmin
    requires summin == Sum(colmin[..]) <= target <= SHORT_MAX && summax == Sum(maxs)
    requires forall c :: 0 <= c < colmin.Length ==> 0 <= colmin[c] <= maxs[c]
    requires colw[..] == Raw(colmin[..], maxs, target, declared)
    modifies colw
    ensures colw[..] == Widths(colmin[..], maxs, target, declared)
  {
    hide Sum, Raw, Short;
    if target >= summin && (declared || target < summax) {
      var tot := SumOf(colw);
      var n := colw.Length - 1;
      RawFits(colmin[..], maxs, target, declared);
      NoneExceeds(colw[..], tot);
      if tot != target {
        ShortIs(Max(colmin[n], colw[n] + target - tot));
        ghost var w := colw[..];
        colw[n] := Short(Max(colmin[n], colw[n] + target - tot));
        assert colw[..] == w[n := Max(colmin[n], w[n] + target - tot)];
      }
    }
  }

  // ---------- the whole step ----------

  /** The columns' minima and maxima of a table. */
  function Mins(cells: seq<Cell>, ncols: nat, spx: int): (r: seq<int>)
    requires CellsOk(cells, ncols)
    ensures |r| == ncols
  {
    Widened(ncols, MinDemands(cells), spx)
  }

  function Maxs(cells: seq<Cell>, ncols: nat, spx: int): (r: seq<int>)
    requires CellsOk(cells, ncols)
    ensures |r| == ncols
  {
    NaturalMax(Mins(cells, ncols, spx), Widened(ncols, MaxDemands(cells), spx), Singles(Zeros(ncols), FixDemands(cells)))
  }

  function Pcts(cells: seq<Cell>, ncols: nat): (r: seq<int>)
    requires CellsOk(cells, ncols)
    ensures |r| == ncols
  {
    Singles(Zeros(ncols), PctDemands(cells))
  }

  function TableWidth(cells: seq<Cell>, ncols: nat, spx: int, tbh: int, maxOuter: int, width: Option<int>): int
    requires CellsOk(cells, ncols)
  {
    Chosen(width, AnyPercent(Pcts(cells, ncols)), maxOuter, Sum(Mins(cells, ncols, spx)), Sum(Maxs(cells, ncols, spx)),
           spx * (ncols + 1) + tbh)
  }

  /** What is left for the columns. */
  function Target(cells: seq<Cell>, ncols: nat, spx: int, tbh: int, maxOuter: int, width: Option<int>): int
    requires CellsOk(cells, ncols)
  {
    TableWidth(cells, ncols, spx, tbh, maxOuter, width) - tbh - spx * (ncols + 1)
  }

  /** The natural widths the step distributes by: percentage columns take their share of the
      target. */
  function Naturals(cells: seq<Cell>, ncols: nat, spx: int, target: int): seq<int>
    requires CellsOk(cells, ncols)
  {
    var mins, maxs, pcts := Mins(cells, ncols, spx), Maxs(cells, ncols, spx), Pcts(cells, ncols);
    if AnyPercent(pcts) then PercentMax(mins, maxs, pcts, target) else maxs
  }

  /** The domain of the step: every width that is stored fits a short. */
  predicate Fits(cells: seq<Cell>, ncols: nat, spx: int, target: int)
    requires CellsOk(cells, ncols)
  {
    && target <= SHORT_MAX
    && forall c :: 0 <= c < ncols ==>
      && Widened(ncols, MinDemands(cells), spx)[c] <= SHORT_MAX && Widened(ncols, MaxDemands(cells), spx)[c] <= SHORT_MAX
      && Singles(Zeros(ncols), FixDemands(cells))[c] <= SHORT_MAX && target * Pcts(cells, ncols)[c] / 1000 <= SHORT_MAX
  }

  lemma MinsBelowMaxs(cells: seq<Cell>, ncols: nat, spx: int)
    requires CellsOk(cells, ncols)
    ensures forall c :: 0 <= c < ncols ==> 0 <= Mins(cells, ncols, spx)[c] <= Maxs(cells, ncols, spx)[c]
    ensures 0 <= Sum(Mins(cells, ncols, spx)) <= Sum(Maxs(cells, ncols, spx))
    ensures forall c :: 0 <= c < ncols ==> 0 <= Pcts(cells, ncols)[c]
  {
    hide Widened, Singles, Sum, Zeros;
    WidenedCovers(ncols, MinDemands(cells), spx);
    SumMono(Mins(cells, ncols, spx), Maxs(cells, ncols, spx));
    SumNonneg(Mins(cells, ncols, spx));
    WidenedIs(ncols, PctDemands(cells), spx);
  }

  /** kernel/layout.h:1398-1453.  With at least one column the widths sum exactly to what the
      chosen table width leaves for them, no column is narrower than its minimum, every cell
      fits its columns, and the width recomputed from the columns is the chosen one. */
  method ColumnWidths(cells: seq<Cell>, ncols: nat, spx: int, tbh: int, maxOuter: int, width: Option<int>)
    returns (colw: array<int>, W: int)
    requires 1 <= ncols <= TB_MAXCOL && CellsOk(cells, ncols)
    requires Fits(cells, ncols, spx, Target(cells, ncols, spx, tbh, maxOuter, width))
    ensures fresh(colw) && colw.Length == ncols
    ensures Sum(colw[..]) == Target(cells, ncols, spx, tbh, maxOuter, width)
    ensures forall c :: 0 <= c < ncols ==> Mins(cells, ncols, spx)[c] <= colw[c]
    ensures forall i :: 0 <= i < |cells| ==> Covers(colw[..], MinDemands(cells)[i], spx)
    ensures W == TableWidth(cells, ncols, spx, tbh, maxOuter, width)
    ensures var target := Target(cells, ncols, spx, tbh, maxOuter, width);
      colw[..] == Widths(Mins(cells, ncols, spx), Naturals(cells, ncols, spx, target), target,
                         width.Some? || AnyPercent(Pcts(cells, ncols)))
  {
    hide Sum, Singles, Widened, Zeros, Covers, Chosen, NaturalMax, PercentMax, Raw, Widths, AnyPercent;
    ghost var target0 := Target(cells, ncols, spx, tbh, maxOuter, width);
    var colmin, colmax := new int[ncols](_ => 0), new int[ncols](_ => 0);
    var colfix, colpct := new int[ncols](_ => 0), new int[ncols](_ => 0);
    ZerosAre(colmin[..], ncols);
    ZerosAre(colmax[..], ncols);
    ZerosAre(colfix[..], ncols);
    ZerosAre(colpct[..], ncols);
    SinglePass(cells, colmin, colmax, colfix, colpct);
    SpanningPass(cells, colmin, colmax, spx);
    MinsBelowMaxs(cells, ncols, spx);
    var anyPct, summin, summax := Totals(colmin, colmax, colfix, colpct);
    var sumspace := spx * (ncols + 1);
    var declared := width.Some? || anyPct;
    var chosen := ChooseWidth(width, anyPct, maxOuter, summin, summax, sumspace + tbh);
    TargetBounds(width, anyPct, maxOuter, summin, summax, sumspace + tbh);
    var target := Max(0, chosen - tbh - sumspace);
    if anyPct {
      summax := TakePercent(colmin, colmax, colpct, target);
      PercentBounds(Mins(cells, ncols, spx), Maxs(cells, ncols, spx), Pcts(cells, ncols), target);
    }
    colw := new int[ncols];
    Distribute(colmin, colmax, colw, target, declared, summin, summax);
    ghost var maxs := colmax[..];
    Correct(colmin, colw, target, declared, summin, summax, maxs);
    WidthsConserved(colmin[..], maxs, target, declared);
    CellsCovered(cells, ncols, spx, colw[..]);
    var total := SumOf(colw);
    W := total + sumspace + tbh;
  }

  lemma ZerosAre(s: seq<int>, n: nat)
    requires |s| == n && forall c :: 0 <= c < n ==> s[c] == 0
    ensures s == Zeros(n)
  {
  }

  /** The choice of W. */
  method ChooseWidth(width: Option<int>, anyPct: bool, maxOuter: int, summin: int, summax: int, rest: int) returns (W: int)
    ensures W == Chosen(width, anyPct, maxOuter, summin, summax, rest)
  {
    if width.Some? {
      W := width.value;
    } else if anyPct {
      W := maxOuter;
    } else {
      W := summax + rest;
    }
    if W > maxOuter { W := maxOuter; }
    if W < summin + rest { W := summin + rest; }
  }

  lemma PercentBounds(mins: seq<int>, maxs: seq<int>, pcts: seq<int>, target: int)
    requires |mins| == |maxs| == |pcts| && forall c :: 0 <= c < |mins| ==> mins[c] <= maxs[c]
    ensures forall c :: 0 <= c < |mins| ==> mins[c] <= PercentMax(mins, maxs, pcts, target)[c]
  {
  }

  lemma CellsCovered(cells: seq<Cell>, ncols: nat, spx: int, colw: seq<int>)
    requires CellsOk(cells, ncols) && |colw| == ncols && Wider(Mins(cells, ncols, spx), colw)
    ensures forall i :: 0 <= i < |cells| ==> Covers(colw, MinDemands(cells)[i], spx)
  {
    hide Widened, Covers;
    WidenedCovers(ncols, MinDemands(cells), spx);
    forall i | 0 <= i < |cells| ensures Covers(colw, MinDemands(cells)[i], spx) {
      CoversWider(Mins(cells, ncols, spx), colw, MinDemands(cells)[i], spx);
    }
  }
}
