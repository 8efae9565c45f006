/** The full-grid construction of the generator (`fill_board`): a Latin-square
    pattern read through shuffled rows, shuffled columns and a shuffled symbol
    alphabet. The random draws are parameters; `side == base * base`. */
module Latin {
  import opened Arith
  import opened Grids

  /** `s` lists each of `lo .. lo + n - 1` exactly once, which is what
      `random.sample(range(lo, lo + n), n)` returns. */
  predicate IsPermutation(s: seq<int>, lo: int, n: nat)
  {
    && |s| == n
    && (forall i :: 0 <= i < n ==> lo <= s[i] < lo + n)
    && (forall i, j :: 0 <= i < j < n ==> s[i] != s[j])
    && (forall v :: lo <= v < lo + n ==> v in s)
  }

  /** The random draws of one `fill_board` call: for the rows, a shuffle of the
      bands and, for each band in that order, a shuffle of the rows inside it;
      the same for the columns; and a shuffle of the symbols `1 .. side`. */
  datatype Draw = Draw(
    rowBands: seq<int>, rowWithin: seq<seq<int>>,
    colBands: seq<int>, colWithin: seq<seq<int>>,
    nums: seq<int>)

  /** `bands` is a shuffle of the bands `0 .. base - 1`, and `within[a]` a
      shuffle of the offsets inside the `a`-th band drawn. */
  predicate IsBandShuffle(bands: seq<int>, within: seq<seq<int>>, base: nat)
  {
    IsPermutation(bands, 0, base) && |within| == base &&
    forall a :: 0 <= a < base ==> IsPermutation(within[a], 0, base)
  }

  /** `d` is a possible outcome of the draws of one `fill_board` call. */
  predicate IsDraw(d: Draw, base: nat)
  {
    && IsBandShuffle(d.rowBands, d.rowWithin, base)
    && IsBandShuffle(d.colBands, d.colWithin, base)
    && IsPermutation(d.nums, 1, base * base)
  }

  /** Entry `k` of `[g * base + r for g in bands for r in <shuffle of band g>]`. */
  function BandEntry(bands: seq<int>, within: seq<seq<int>>, base: nat, k: int): int
    requires IsBandShuffle(bands, within, base) && 0 <= k < base * base
  {
    DigitBounds(k, base);
    bands[k / base] * base + within[k / base][k % base]
  }

  /** The row order (or column order) built from a band shuffle. */
  function BandOrder(bands: seq<int>, within: seq<seq<int>>, base: nat): (order: seq<int>)
    requires IsBandShuffle(bands, within, base)
    ensures |order| == base * base
  {
    seq(base * base, k requires 0 <= k < base * base => BandEntry(bands, within, base, k))
  }

  /** Entry `k` of a band order lies in band `bands[k / base]`, at offset
      `within[k / base][k % base]` inside it. */
  lemma BandEntryDigits(bands: seq<int>, within: seq<seq<int>>, base: nat, k: int)
    requires IsBandShuffle(bands, within, base) && 0 <= k < base * base
    ensures 0 <= k / base < base && 0 <= k % base < base
    ensures 0 <= BandEntry(bands, within, base, k) < base * base
    ensures BandEntry(bands, within, base, k) / base == bands[k / base]
    ensures BandEntry(bands, within, base, k) % base == within[k / base][k % base]
  {
    DigitBounds(k, base);
    var a, t := k / base, k % base;
    Digits(bands[a], within[a][t], base);
    TwoDigitBound(bands[a], within[a][t], base);
  }

  /** Position `a * base + t` of a band order holds offset `within[a][t]` of band `bands[a]`. */
  lemma BandOrderAt(bands: seq<int>, within: seq<seq<int>>, base: nat, a: int, t: int)
    requires IsBandShuffle(bands, within, base) && 0 <= a < base && 0 <= t < base
    ensures 0 <= a * base + t < base * base
    ensures (a * base + t) / base == a && (a * base + t) % base == t
    ensures BandOrder(bands, within, base)[a * base + t] == bands[a] * base + within[a][t]
  {
    TwoDigitBound(a, t, base);
    Digits(a, t, base);
  }

  /** Two positions of a band order holding the same row are the same position. */
  lemma BandOrderInjective(bands: seq<int>, within: seq<seq<int>>, base: nat, k: int, k': int)
    requires IsBandShuffle(bands, within, base) && 0 <= k < base * base && 0 <= k' < base * base
    ensures BandEntry(bands, within, base, k) == BandEntry(bands, within, base, k') ==> k == k'
  {
    BandEntryDigits(bands, within, base, k);
    BandEntryDigits(bands, within, base, k');
    DigitBounds(k, base);
    DigitBounds(k', base);
    if BandEntry(bands, within, base, k) == BandEntry(bands, within, base, k') {
      assert bands[k / base] == bands[k' / base];
      assert k / base == k' / base;
      assert within[k / base][k % base] == within[k / base][k' % base];
    }
  }

  /** Every row `0 .. side - 1` occurs in a band order. */
  lemma BandOrderHits(bands: seq<int>, within: seq<seq<int>>, base: nat, v: int) returns (k: int)
    requires IsBandShuffle(bands, within, base) && 0 <= v < base * base
    ensures 0 <= k < base * base && BandOrder(bands, within, base)[k] == v
  {
    DigitBounds(v, base);
    var hi, lo := v / base, v % base;
    assert hi * base + lo == v;
    assert hi in bands;
    var a :| 0 <= a < base && bands[a] == hi;
    assert lo in within[a];
    var t :| 0 <= t < base && within[a][t] == lo;
    BandOrderAt(bands, within, base, a, t);
    k := a * base + t;
  }

  /** Every entry of a band order is a row of the board, in band `bands[k / base]`. */
  lemma BandOrderInRange(bands: seq<int>, within: seq<seq<int>>, base: nat)
    requires IsBandShuffle(bands, within, base)
    ensures forall k :: 0 <= k < base * base ==>
      0 <= BandOrder(bands, within, base)[k] < base * base &&
      BandOrder(bands, within, base)[k] / base == bands[k / base]
  {
    var order := BandOrder(bands, within, base);
    forall k | 0 <= k < base * base
      ensures 0 <= order[k] < base * base && order[k] / base == bands[k / base]
    {
      assert order[k] == BandEntry(bands, within, base, k);
      BandEntryDigits(bands, within, base, k);
    }
  }

  /** A band order lists no row twice. */
  lemma BandOrderDistinct(bands: seq<int>, within: seq<seq<int>>, base: nat)
    requires IsBandShuffle(bands, within, base)
    ensures forall k, k' :: 0 <= k < k' < base * base ==>
      BandOrder(bands, within, base)[k] != BandOrder(bands, within, base)[k']
  {
    forall k, k' | 0 <= k < k' < base * base
      ensures BandOrder(bands, within, base)[k] != BandOrder(bands, within, base)[k']
    {
      BandOrderInjective(bands, within, base, k, k');
    }
  }

  /** A band order lists every row. */
  lemma BandOrderCovers(bands: seq<int>, within: seq<seq<int>>, base: nat)
    requires IsBandShuffle(bands, within, base)
    ensures forall v :: 0 <= v < base * base ==> v in BandOrder(bands, within, base)
  {
    forall v | 0 <= v < base * base
      ensures v in BandOrder(bands, within, base)
    {
      var k := BandOrderHits(bands, within, base, v);
    }
  }

  /** The rows (or columns) that `fill_board` reads are a permutation of
      `0 .. side - 1` that keeps every block of `base` consecutive positions
      inside one band. */
  lemma BandOrderIsPermutation(bands: seq<int>, within: seq<seq<int>>, base: nat)
    requires IsBandShuffle(bands, within, base)
    ensures IsPermutation(BandOrder(bands, within, base), 0, base * base)
    ensures forall k :: 0 <= k < base * base ==>
      BandOrder(bands, within, base)[k] / base == bands[k / base]
  {
    BandOrderInRange(bands, within, base);
    BandOrderDistinct(bands, within, base);
    BandOrderCovers(bands, within, base);
  }

  /** `pattern(r, c)`: the base Latin square. */
  function Pattern(base: nat, r: int, c: int): (m: int)
    requires base > 0
    ensures 0 <= m < base * base
  {
    (base * (r % base) + r / base + c) % (base * base)
  }

  /** `fill_board()`: `[[nums[pattern(r, c)] for c in cols] for r in rows]`. */
  function FillBoard(base: nat, d: Draw): (g: Grid)
    requires IsDraw(d, base)
    ensures IsGrid(g, base * base)
  {
    var side := base * base;
    var rows := BandOrder(d.rowBands, d.rowWithin, base);
    var cols := BandOrder(d.colBands, d.colWithin, base);
    seq(side, i requires 0 <= i < side =>
      seq(side, j requires 0 <= j < side => d.nums[Pattern(base, rows[i], cols[j])]))
  }

  /** Row `i` holds `v` somewhere. */
  ghost predicate RowHas(g: Grid, side: nat, i: int, v: int)
    requires IsGrid(g, side) && 0 <= i < side
  {
    exists j :: 0 <= j < side && g[i][j] == v
  }

  /** Column `j` holds `v` somewhere. */
  ghost predicate ColumnHas(g: Grid, side: nat, j: int, v: int)
    requires IsGrid(g, side) && 0 <= j < side
  {
    exists i :: 0 <= i < side && g[i][j] == v
  }

  /** The box in band `a` and stack `c` holds `v` somewhere. */
  ghost predicate BoxHas(g: Grid, base: nat, a: int, c: int, v: int)
    requires IsGrid(g, base * base) && base > 0
  {
    exists i, j :: 0 <= i < base * base && 0 <= j < base * base && i / base == a && j / base == c && g[i][j] == v
  }

  /** Every row holds each of `1 .. side` exactly once. */
  ghost predicate RowsComplete(g: Grid, side: nat)
  {
    && IsGrid(g, side)
    && (forall i, j :: 0 <= i < side && 0 <= j < side ==> 1 <= g[i][j] <= side)
    && (forall i, j, j' :: 0 <= i < side && 0 <= j < j' < side ==> g[i][j] != g[i][j'])
    && (forall i, v :: 0 <= i < side && 1 <= v <= side ==> RowHas(g, side, i, v))
  }

  /** Every column holds each of `1 .. side` exactly once. */
  ghost predicate ColumnsComplete(g: Grid, side: nat)
  {
    && IsGrid(g, side)
    && (forall i, j :: 0 <= i < side && 0 <= j < side ==> 1 <= g[i][j] <= side)
    && (forall i, i', j :: 0 <= i < i' < side && 0 <= j < side ==> g[i][j] != g[i'][j])
    && (forall j, v :: 0 <= j < side && 1 <= v <= side ==> ColumnHas(g, side, j, v))
  }

  /** Every `base` by `base` box holds each of `1 .. side` exactly once. */
  ghost predicate BoxesComplete(g: Grid, base: nat)
  {
    && base > 0
    && IsGrid(g, base * base)
    && (forall i, j :: 0 <= i < base * base && 0 <= j < base * base ==> 1 <= g[i][j] <= base * base)
    && (forall i, j, i', j' ::
          0 <= i < base * base && 0 <= j < base * base && 0 <= i' < base * base && 0 <= j' < base * base &&
          i / base == i' / base && j / base == j' / base && (i != i' || j != j')
          ==> g[i][j] != g[i'][j'])
    && (forall a, c, v :: 0 <= a < base && 0 <= c < base && 1 <= v <= base * base ==> BoxHas(g, base, a, c, v))
  }

  /** `base * (r % base) + r // base`, the row part of the pattern, swaps the
      two base-`base` digits of `r`. */
  lemma SwapDigits(base: nat, r: int)
    requires base > 0 && 0 <= r < base * base
    ensures 0 <= base * (r % base) + r / base < base * base
    ensures (base * (r % base) + r / base) / base == r % base
    ensures (base * (r % base) + r / base) % base == r / base
  {
    DigitBounds(r, base);
    Digits(r % base, r / base, base);
    TwoDigitBound(r % base, r / base, base);
  }

  /** Cell `(i, j)` of the filled board: the symbol at the pattern of row
      `rows[i]` and column `cols[j]`. */
  lemma FillBoardCell(base: nat, d: Draw, i: int, j: int)
    requires IsDraw(d, base) && base > 0 && 0 <= i < base * base && 0 <= j < base * base
    ensures 0 <= BandEntry(d.rowBands, d.rowWithin, base, i) < base * base
    ensures 0 <= BandEntry(d.colBands, d.colWithin, base, j) < base * base
    ensures FillBoard(base, d)[i][j] == d.nums[Pattern(base,
      BandEntry(d.rowBands, d.rowWithin, base, i), BandEntry(d.colBands, d.colWithin, base, j))]
  {
    BandEntryDigits(d.rowBands, d.rowWithin, base, i);
    BandEntryDigits(d.colBands, d.colWithin, base, j);
  }

  /** A permutation holds different values at different positions. */
  lemma PermutationInjective(s: seq<int>, lo: int, n: nat, a: int, b: int)
    requires IsPermutation(s, lo, n) && 0 <= a < n && 0 <= b < n && a != b
    ensures s[a] != s[b]
  {
    if a < b {
      assert s[a] != s[b];
    } else {
      assert s[b] != s[a];
    }
  }

  /** Two different cells of one row of the filled board hold different numbers. */
  lemma RowCellsDiffer(base: nat, d: Draw, i: int, j: int, j': int)
    requires IsDraw(d, base) && base > 0 && 0 <= i < base * base
    requires 0 <= j < base * base && 0 <= j' < base * base && j != j'
    ensures FillBoard(base, d)[i][j] != FillBoard(base, d)[i][j']
  {
    FillBoardCell(base, d, i, j);
    FillBoardCell(base, d, i, j');
    var r := BandEntry(d.rowBands, d.rowWithin, base, i);
    var c, c' := BandEntry(d.colBands, d.colWithin, base, j), BandEntry(d.colBands, d.colWithin, base, j');
    BandOrderInjective(d.colBands, d.colWithin, base, j, j');
    ModShiftInjective(base * (r % base) + r / base, c, c', base * base);
    PermutationInjective(d.nums, 1, base * base, Pattern(base, r, c), Pattern(base, r, c'));
  }

  /** Every number `1 .. side` occurs in every row of the filled board. */
  lemma RowCovers(base: nat, d: Draw, i: int, v: int) returns (j: int)
    requires IsDraw(d, base) && base > 0 && 0 <= i < base * base && 1 <= v <= base * base
    ensures 0 <= j < base * base && FillBoard(base, d)[i][j] == v
  {
    var side := base * base;
    assert v in d.nums;
    var m :| 0 <= m < side && d.nums[m] == v;
    var r := BandEntry(d.rowBands, d.rowWithin, base, i);
    var k := base * (r % base) + r / base;
    ModShiftHits(k, m, side);
    j := BandOrderHits(d.colBands, d.colWithin, base, (m - k) % side);
    FillBoardCell(base, d, i, j);
  }

  /** Two different cells of one column of the filled board hold different numbers. */
  lemma ColumnCellsDiffer(base: nat, d: Draw, i: int, i': int, j: int)
    requires IsDraw(d, base) && base > 0 && 0 <= j < base * base
    requires 0 <= i < base * base && 0 <= i' < base * base && i != i'
    ensures FillBoard(base, d)[i][j] != FillBoard(base, d)[i'][j]
  {
    FillBoardCell(base, d, i, j);
    FillBoardCell(base, d, i', j);
    var r, r' := BandEntry(d.rowBands, d.rowWithin, base, i), BandEntry(d.rowBands, d.rowWithin, base, i');
    var c := BandEntry(d.colBands, d.colWithin, base, j);
    BandOrderInjective(d.rowBands, d.rowWithin, base, i, i');
    SwapDigits(base, r);
    SwapDigits(base, r');
    DigitBounds(r, base);
    DigitBounds(r', base);
    var k, k' := base * (r % base) + r / base, base * (r' % base) + r' / base;
    assert k != k';
    ModShiftInjective(c, k, k', base * base);
    assert Pattern(base, r, c) != Pattern(base, r', c);
    PermutationInjective(d.nums, 1, base * base, Pattern(base, r, c), Pattern(base, r', c));
  }

  /** The row value whose swapped digits are `e`. */
  lemma UnswapDigits(base: nat, e: int) returns (r: int)
    requires base > 0 && 0 <= e < base * base
    ensures 0 <= r < base * base && base * (r % base) + r / base == e
  {
    DigitBounds(e, base);
    r := base * (e % base) + e / base;
    Digits(e % base, e / base, base);
    TwoDigitBound(e % base, e / base, base);
  }

  /** Every number `1 .. side` occurs in every column of the filled board. */
  lemma ColumnCovers(base: nat, d: Draw, j: int, v: int) returns (i: int)
    requires IsDraw(d, base) && base > 0 && 0 <= j < base * base && 1 <= v <= base * base
    ensures 0 <= i < base * base && FillBoard(base, d)[i][j] == v
  {
    var side := base * base;
    assert v in d.nums;
    var m :| 0 <= m < side && d.nums[m] == v;
    var c := BandEntry(d.colBands, d.colWithin, base, j);
    ModShiftHits(c, m, side);
    var r := UnswapDigits(base, (m - c) % side);
    i := BandOrderHits(d.rowBands, d.rowWithin, base, r);
    FillBoardCell(base, d, i, j);
  }

  /** Every row of the filled board holds `1 .. side` exactly once. */
  lemma FillBoardRows(base: nat, d: Draw)
    requires IsDraw(d, base) && base > 0
    ensures RowsComplete(FillBoard(base, d), base * base)
  {
    var side, g := base * base, FillBoard(base, d);
    forall i, j, j' | 0 <= i < side && 0 <= j < j' < side
      ensures g[i][j] != g[i][j']
    {
      RowCellsDiffer(base, d, i, j, j');
    }
    forall i, v | 0 <= i < side && 1 <= v <= side
      ensures RowHas(g, side, i, v)
    {
      var j := RowCovers(base, d, i, v);
    }
  }

  /** Every column of the filled board holds `1 .. side` exactly once. */
  lemma FillBoardColumns(base: nat, d: Draw)
    requires IsDraw(d, base) && base > 0
    ensures ColumnsComplete(FillBoard(base, d), base * base)
  {
    var side, g := base * base, FillBoard(base, d);
    forall i, i', j | 0 <= i < i' < side && 0 <= j < side
      ensures g[i][j] != g[i'][j]
    {
      ColumnCellsDiffer(base, d, i, i', j);
    }
    forall j, v | 0 <= j < side && 1 <= v <= side
      ensures ColumnHas(g, side, j, v)
    {
      var i := ColumnCovers(base, d, j, v);
    }
  }

  /** Inside one box, with row band `bg`, row offset `x`, column band `bh` and
      column offset `y`, the pattern has lower digit `(bg + y) % base` and upper
      digit `(x + bh + (bg + y) / base) % base`. */
  lemma BoxPattern(base: nat, bg: int, x: int, bh: int, y: int)
    requires base > 0 && 0 <= bg < base && 0 <= x < base && 0 <= bh < base && 0 <= y < base
    ensures Pattern(base, bg * base + x, bh * base + y)
         == base * ((x + bh + (bg + y) / base) % base) + (bg + y) % base
  {
    var r, c := bg * base + x, bh * base + y;
    Digits(bg, x, base);
    assert r % base == x && r / base == bg;
    var q, y0 := (bg + y) / base, (bg + y) % base;
    assert bg + y == base * q + y0;
    Distrib3(base, x, bh, q);
    assert c == base * bh + y;
    var sum := base * (r % base) + r / base + c;
    assert sum == base * x + bg + base * bh + y;
    assert sum == base * (x + bh + q) + y0;
    SquareMod(x + bh + q, y0, base);
  }

  /** The two digits of the pattern inside a box determine the offsets. */
  lemma BoxPatternInjective(base: nat, bg: int, bh: int, x: int, y: int, x': int, y': int)
    requires base > 0 && 0 <= bg < base && 0 <= bh < base
    requires 0 <= x < base && 0 <= y < base && 0 <= x' < base && 0 <= y' < base
    ensures Pattern(base, bg * base + x, bh * base + y) == Pattern(base, bg * base + x', bh * base + y') ==>
      x == x' && y == y'
  {
    BoxPattern(base, bg, x, bh, y);
    BoxPattern(base, bg, x', bh, y');
    var q, q' := (bg + y) / base, (bg + y') / base;
    var hi, hi' := (x + bh + q) % base, (x' + bh + q') % base;
    var lo, lo' := (bg + y) % base, (bg + y') % base;
    Digits(hi, lo, base);
    Digits(hi', lo', base);
    ModShiftInjective(bg, y, y', base);
    if Pattern(base, bg * base + x, bh * base + y) == Pattern(base, bg * base + x', bh * base + y') {
      assert hi == hi' && lo == lo';
      assert y == y';
      ModShiftInjective(bh + q, x, x', base);
    }
  }

  /** Every pattern value occurs in every box of the base Latin square. */
  lemma BoxPatternHits(base: nat, bg: int, bh: int, m: int) returns (x: int, y: int)
    requires base > 0 && 0 <= bg < base && 0 <= bh < base && 0 <= m < base * base
    ensures 0 <= x < base && 0 <= y < base
    ensures Pattern(base, bg * base + x, bh * base + y) == m
  {
    DigitBounds(m, base);
    ModShiftHits(bg, m % base, base);
    y := (m % base - bg) % base;
    var q := (bg + y) / base;
    ModShiftHits(bh + q, m / base, base);
    x := (m / base - (bh + q)) % base;
    assert (x + bh + q) % base == m / base;
    BoxPattern(base, bg, x, bh, y);
    Digits(m / base, m % base, base);
  }

  /** Cell `(i, j)` of the filled board, written with the digits of its row and column. */
  lemma FillBoardAt(base: nat, d: Draw, i: int, j: int)
    requires IsDraw(d, base) && base > 0 && 0 <= i < base * base && 0 <= j < base * base
    ensures 0 <= i / base < base && 0 <= i % base < base && 0 <= j / base < base && 0 <= j % base < base
    ensures FillBoard(base, d)[i][j] == d.nums[Pattern(base,
      d.rowBands[i / base] * base + d.rowWithin[i / base][i % base],
      d.colBands[j / base] * base + d.colWithin[j / base][j % base])]
  {
    BandEntryDigits(d.rowBands, d.rowWithin, base, i);
    BandEntryDigits(d.colBands, d.colWithin, base, j);
  }

  /** Two different cells of one box of the filled board hold different numbers. */
  lemma BoxCellsDiffer(base: nat, d: Draw, i: int, j: int, i': int, j': int)
    requires IsDraw(d, base) && base > 0
    requires 0 <= i < base * base && 0 <= j < base * base && 0 <= i' < base * base && 0 <= j' < base * base
    requires i / base == i' / base && j / base == j' / base && (i != i' || j != j')
    ensures FillBoard(base, d)[i][j] != FillBoard(base, d)[i'][j']
  {
    FillBoardAt(base, d, i, j);
    FillBoardAt(base, d, i', j');
    var a, c := i / base, j / base;
    var x, x' := d.rowWithin[a][i % base], d.rowWithin[a][i' % base];
    var y, y' := d.colWithin[c][j % base], d.colWithin[c][j' % base];
    BoxPatternInjective(base, d.rowBands[a], d.colBands[c], x, y, x', y');
    DigitBounds(i, base);
    DigitBounds(i', base);
    DigitBounds(j, base);
    DigitBounds(j', base);
    if i % base != i' % base {
      PermutationInjective(d.rowWithin[a], 0, base, i % base, i' % base);
    } else {
      assert j % base != j' % base;
      PermutationInjective(d.colWithin[c], 0, base, j % base, j' % base);
    }
    var m, m' := Pattern(base, d.rowBands[a] * base + x, d.colBands[c] * base + y),
                 Pattern(base, d.rowBands[a] * base + x', d.colBands[c] * base + y');
    PermutationInjective(d.nums, 1, base * base, m, m');
  }

  /** Every number `1 .. side` occurs in every box of the filled board. */
  lemma BoxCovers(base: nat, d: Draw, a: int, c: int, v: int) returns (i: int, j: int)
    requires IsDraw(d, base) && base > 0 && 0 <= a < base && 0 <= c < base && 1 <= v <= base * base
    ensures 0 <= i < base * base && 0 <= j < base * base && i / base == a && j / base == c
    ensures FillBoard(base, d)[i][j] == v
  {
    var side := base * base;
    assert v in d.nums;
    var m :| 0 <= m < side && d.nums[m] == v;
    var bg, bh := d.rowBands[a], d.colBands[c];
    var x, y := BoxPatternHits(base, bg, bh, m);
    assert x in d.rowWithin[a];
    var t :| 0 <= t < base && d.rowWithin[a][t] == x;
    assert y in d.colWithin[c];
    var u :| 0 <= u < base && d.colWithin[c][u] == y;
    BandOrderAt(d.rowBands, d.rowWithin, base, a, t);
    BandOrderAt(d.colBands, d.colWithin, base, c, u);
    i, j := a * base + t, c * base + u;
    FillBoardAt(base, d, i, j);
  }

  /** Every box of the filled board holds `1 .. side` exactly once. */
  lemma FillBoardBoxes(base: nat, d: Draw)
    requires IsDraw(d, base) && base > 0
    ensures BoxesComplete(FillBoard(base, d), base)
  {
    var side, g := base * base, FillBoard(base, d);
    forall i, j, i', j' |
      0 <= i < side && 0 <= j < side && 0 <= i' < side && 0 <= j' < side &&
      i / base == i' / base && j / base == j' / base && (i != i' || j != j')
      ensures g[i][j] != g[i'][j']
    {
      BoxCellsDiffer(base, d, i, j, i', j');
    }
    forall a, c, v | 0 <= a < base && 0 <= c < base && 1 <= v <= side
      ensures BoxHas(g, base, a, c, v)
    {
      var i, j := BoxCovers(base, d, a, c, v);
    }
  }

  /** Every row, column and box of the filled board holds `1 .. side` exactly once. */
  lemma FillBoardIsLatin(base: nat, d: Draw)
    requires IsDraw(d, base) && base > 0
    ensures RowsComplete(FillBoard(base, d), base * base)
    ensures ColumnsComplete(FillBoard(base, d), base * base)
    ensures BoxesComplete(FillBoard(base, d), base)
  {
    FillBoardRows(base, d);
    FillBoardColumns(base, d);
    FillBoardBoxes(base, d);
  }
}
