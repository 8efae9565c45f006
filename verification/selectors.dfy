/** The two empty-cell selectors: first empty cell in row-major order, and the
    most-constrained empty cell (fewest candidates, earliest on ties). */
module Selectors {
  import opened Grids
  import opened Rules
  import opened Arith

  /** Position of `p` in row-major order on a 9 by 9 board. */
  function Index(p: Pos): int
  {
    9 * p.row + p.col
  }

  /** Cell `(i, j)` comes before `p` in row-major order. */
  predicate Before(i: int, j: int, p: Pos)
  {
    i < p.row || (i == p.row && j < p.col)
  }

  /** `find_empty_cell(board)`: the nested scan that stops at the first 0. */
  method FindEmptyCell(b: array2<int>) returns (cell: Option<Pos>)
    ensures cell.None? <==> IsFull(Cells(b))
    ensures cell.Some? ==>
      && 0 <= cell.value.row < b.Length0 && 0 <= cell.value.col < b.Length1
      && b[cell.value.row, cell.value.col] == 0
      && (forall i, j :: 0 <= i < b.Length0 && 0 <= j < b.Length1 && Before(i, j, cell.value) ==> b[i, j] != 0)
  {
    for i := 0 to b.Length0
      invariant forall k, l :: 0 <= k < i && 0 <= l < b.Length1 ==> b[k, l] != 0
    {
      for j := 0 to b.Length1
        invariant forall l :: 0 <= l < j ==> b[i, l] != 0
      {
        if b[i, j] == 0 {
          return Some(Pos(i, j));
        }
      }
    }
    return None;
  }

  /** `[(i, j) for i in range(9) for j in range(9) if board[i][j] == 0]`,
      from row-major position `k` on. */
  function EmptyCellsFrom(g: Grid, k: nat): (cells: seq<Pos>)
    requires IsGrid(g, 9) && k <= 81
    ensures forall m :: 0 <= m < |cells| ==>
      OnBoard(cells[m]) && g[cells[m].row][cells[m].col] == 0 && k <= Index(cells[m])
    ensures forall m, m' :: 0 <= m < m' < |cells| ==> Index(cells[m]) < Index(cells[m'])
    ensures forall i, j :: 0 <= i < 9 && 0 <= j < 9 && k <= 9 * i + j && g[i][j] == 0 ==> Pos(i, j) in cells
    decreases 81 - k
  {
    if k == 81 then []
    else
      var rest := EmptyCellsFrom(g, k + 1);
      ScanCell(k);
      ScanCovers(g, k, rest);
      if g[k / 9][k % 9] == 0 then [Pos(k / 9, k % 9)] + rest else rest
  }

  /** Row-major position `k` is the cell `(k / 9, k % 9)`. */
  lemma ScanCell(k: int)
    requires 0 <= k < 81
    ensures OnBoard(Pos(k / 9, k % 9)) && Index(Pos(k / 9, k % 9)) == k
  {
    DigitBounds(k, 9);
  }

  /** One scan step: if `rest` lists every empty cell after position `k`,
      then adding cell `k` when it is empty lists every empty cell from `k` on. */
  lemma ScanCovers(g: Grid, k: nat, rest: seq<Pos>)
    requires IsGrid(g, 9) && k < 81
    requires forall i, j :: 0 <= i < 9 && 0 <= j < 9 && k + 1 <= 9 * i + j && g[i][j] == 0 ==> Pos(i, j) in rest
    ensures forall i, j :: 0 <= i < 9 && 0 <= j < 9 && k <= 9 * i + j && g[i][j] == 0 ==>
      Pos(i, j) in (if g[k / 9][k % 9] == 0 then [Pos(k / 9, k % 9)] + rest else rest)
  {
    forall i, j | 0 <= i < 9 && 0 <= j < 9 && k <= 9 * i + j && g[i][j] == 0
      ensures Pos(i, j) in (if g[k / 9][k % 9] == 0 then [Pos(k / 9, k % 9)] + rest else rest)
    {
      if 9 * i + j == k {
        Digits(i, j, 9);
        assert i == k / 9 && j == k % 9;
      }
    }
  }

  /** The scan finds no empty cell exactly when the board is full. */
  lemma NoEmptyCellsIffFull(g: Grid)
    requires IsGrid(g, 9)
    ensures |EmptyCellsFrom(g, 0)| == 0 <==> IsFull(g)
  {
    var cells := EmptyCellsFrom(g, 0);
    if |cells| == 0 {
      forall i, j | 0 <= i < |g| && 0 <= j < |g[i]|
        ensures g[i][j] != 0
      {
        assert 0 <= 9 * i + j;
      }
    } else {
      assert g[cells[0].row][cells[0].col] == 0;
    }
  }

  /** The head of a stable sort by `keys`: the first index holding a least key. */
  function FirstMinIndex(keys: seq<int>): (k: nat)
    requires |keys| > 0
    ensures k < |keys|
    ensures forall m :: 0 <= m < |keys| ==> keys[k] <= keys[m]
    ensures forall m :: 0 <= m < k ==> keys[k] < keys[m]
  {
    if |keys| == 1 then 0
    else
      var k' := FirstMinIndex(keys[1..]) + 1;
      if keys[0] <= keys[k'] then 0 else k'
  }

  /** The number of candidates of a cell, the sort key of the heuristic. */
  function CandidateCount(g: Grid, p: Pos): (n: nat)
    requires IsGrid(g, 9) && OnBoard(p)
    ensures n <= 9
    ensures n == 0 <==> forall v :: 1 <= v <= 9 ==> !ValidMoveCheck(g, v, p)
  {
    var moves := ValidMoves(g, p);
    assert moves <= {1, 2, 3, 4, 5, 6, 7, 8, 9};
    assert |{1, 2, 3, 4, 5, 6, 7, 8, 9}| == 9;
    assert moves == {} <==> forall v :: 1 <= v <= 9 ==> !ValidMoveCheck(g, v, p);
    |moves|
  }

  /** `p` has no more candidates than any empty cell, and strictly fewer than
      every empty cell before it in row-major order. */
  predicate MostConstrained(g: Grid, p: Pos)
    requires IsGrid(g, 9) && OnBoard(p)
  {
    && (forall i, j :: 0 <= i < 9 && 0 <= j < 9 && g[i][j] == 0 ==>
          CandidateCount(g, p) <= CandidateCount(g, Pos(i, j)))
    && (forall i, j :: 0 <= i < 9 && 0 <= j < 9 && g[i][j] == 0 && Before(i, j, p) ==>
          CandidateCount(g, p) < CandidateCount(g, Pos(i, j)))
  }

  /** The sort keys of a list of cells: each cell's number of candidates. */
  function CandidateKeys(g: Grid, cells: seq<Pos>): (keys: seq<int>)
    requires IsGrid(g, 9) && forall m :: 0 <= m < |cells| ==> OnBoard(cells[m])
    ensures |keys| == |cells|
    ensures forall m :: 0 <= m < |cells| ==> keys[m] == CandidateCount(g, cells[m])
  {
    seq(|cells|, m requires 0 <= m < |cells| => CandidateCount(g, cells[m]))
  }

  /** `heuristic_find_empty_cell(board)`: the empty cells in scan order, sorted
      (stably) by their number of candidates, and the first of them. */
  function HeuristicFindEmptyCell(g: Grid): (cell: Option<Pos>)
    requires IsGrid(g, 9)
    ensures cell.None? <==> IsFull(g)
    ensures cell.Some? ==> OnBoard(cell.value) && g[cell.value.row][cell.value.col] == 0
    ensures cell.Some? ==> MostConstrained(g, cell.value)
  {
    var cells := EmptyCellsFrom(g, 0);
    NoEmptyCellsIffFull(g);
    if |cells| == 0 then
      None
    else
      FirstMinIsMostConstrained(g);
      Some(cells[FirstMinIndex(CandidateKeys(g, cells))])
  }

  /** The first cell with the least key is a most constrained empty cell,
      and every empty cell before it has strictly more candidates. */
  lemma FirstMinIsMostConstrained(g: Grid)
    requires IsGrid(g, 9) && |EmptyCellsFrom(g, 0)| > 0
    ensures var cells := EmptyCellsFrom(g, 0);
      var k := FirstMinIndex(CandidateKeys(g, cells));
      OnBoard(cells[k]) && g[cells[k].row][cells[k].col] == 0 && MostConstrained(g, cells[k])
  {
    var cells := EmptyCellsFrom(g, 0);
    var keys := CandidateKeys(g, cells);
    var k := FirstMinIndex(keys);
    FirstMinIsMostConstrainedAt(g, cells, keys, k);
  }

  /** The first least key of the candidate counts of a scan-ordered list of
      the empty cells marks a most constrained cell. */
  lemma FirstMinIsMostConstrainedAt(g: Grid, cells: seq<Pos>, keys: seq<int>, k: nat)
    requires IsGrid(g, 9) && k < |cells| && |keys| == |cells|
    requires forall m :: 0 <= m < |cells| ==> OnBoard(cells[m]) && keys[m] == CandidateCount(g, cells[m])
    requires forall m, m' :: 0 <= m < m' < |cells| ==> Index(cells[m]) < Index(cells[m'])
    requires forall i, j :: 0 <= i < 9 && 0 <= j < 9 && g[i][j] == 0 ==> Pos(i, j) in cells
    requires forall m :: 0 <= m < |keys| ==> keys[k] <= keys[m]
    requires forall m :: 0 <= m < k ==> keys[k] < keys[m]
    ensures MostConstrained(g, cells[k])
  {
    forall i, j | 0 <= i < 9 && 0 <= j < 9 && g[i][j] == 0
      ensures CandidateCount(g, cells[k]) <= CandidateCount(g, Pos(i, j))
      ensures Before(i, j, cells[k]) ==> CandidateCount(g, cells[k]) < CandidateCount(g, Pos(i, j))
    {
      var m :| 0 <= m < |cells| && cells[m] == Pos(i, j);
      assert keys[k] == CandidateCount(g, cells[k]) && keys[m] == CandidateCount(g, Pos(i, j));
      assert keys[k] <= keys[m];
      if Before(i, j, cells[k]) {
        EarlierCellHasMoreCandidates(cells, keys, k, m);
      }
    }
  }

  /** A cell listed before the first least key has a strictly larger key. */
  lemma EarlierCellHasMoreCandidates(cells: seq<Pos>, keys: seq<int>, k: nat, m: nat)
    requires k < |cells| && m < |cells| && |keys| == |cells|
    requires forall m, m' :: 0 <= m < m' < |cells| ==> Index(cells[m]) < Index(cells[m'])
    requires forall m :: 0 <= m < k ==> keys[k] < keys[m]
    requires OnBoard(cells[k]) && OnBoard(cells[m]) && Before(cells[m].row, cells[m].col, cells[k])
    ensures keys[k] < keys[m]
  {
    var before, after := Index(cells[m]), Index(cells[k]);
    assert before < after;
    assert k < m ==> after < before;
  }
}
