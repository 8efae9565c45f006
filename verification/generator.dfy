/** `generate_board`: a full board from `fill_board`, the regeneration loop
    that keeps it once the solver accepts it, and `remove_numbers`, which
    clears a random sample of cells. The random draws are parameters. */
module Generator {
  import opened Arith
  import opened Grids
  import opened Rules
  import opened Latin
  import opened Solver

  /** `squares * difficulty // 10`, the number of cells `remove_numbers`
      clears (floor division by a positive constant, as Dafny's `/`). */
  function EmptyCount(side: nat, difficulty: int): (k: int)
    ensures 10 * k <= side * side * difficulty < 10 * k + 10
    ensures 0 <= difficulty <= 10 ==> 0 <= k <= side * side
  {
    side * side * difficulty / 10
  }

  /** `sample` is what `random.sample(range(squares), k)` returns: `k`
      distinct indices below `squares`; the call raises unless
      `0 <= k <= squares`. */
  predicate IsSample(sample: seq<int>, squares: nat, k: int)
  {
    && 0 <= k <= squares
    && |sample| == k
    && (forall t :: 0 <= t < |sample| ==> 0 <= sample[t] < squares)
    && (forall a, b :: 0 <= a < b < |sample| ==> sample[a] != sample[b])
  }

  /** The board after `remove_numbers`: cell `(i, j)` is cleared when its
      row-major index `side * i + j` was drawn, and kept otherwise. */
  function RemoveCells(g: Grid, sample: seq<int>): (h: Grid)
    requires IsGrid(g, |g|)
    ensures IsGrid(h, |g|)
    ensures forall i, j :: 0 <= i < |g| && 0 <= j < |g| ==> h[i][j] == 0 || h[i][j] == g[i][j]
  {
    var side := |g|;
    seq(side, i requires 0 <= i < side =>
      seq(side, j requires 0 <= j < side => if side * i + j in sample then 0 else g[i][j]))
  }

  /** Index `p` names the cell `(i, j)` exactly when `p == side * i + j`. */
  lemma IndexNamesCell(side: nat, p: int, i: int, j: int)
    requires 0 <= p < side * side && 0 <= i < side && 0 <= j < side
    ensures 0 <= p / side < side && 0 <= p % side < side
    ensures side * i + j == p <==> (i == p / side && j == p % side)
  {
    DigitBounds(p, side);
    Digits(i, j, side);
  }

  /** `remove_numbers(board, difficulty)`: for each drawn index `p`, clear
      `board[p // side][p % side]`. */
  method RemoveNumbers(board: array2<int>, difficulty: int, sample: seq<int>)
    requires board.Length0 == board.Length1
    requires IsSample(sample, board.Length0 * board.Length0, EmptyCount(board.Length0, difficulty))
    modifies board
    ensures Cells(board) == RemoveCells(old(Cells(board)), sample)
  {
    ghost var g := Cells(board);
    var side := board.Length0;
    for t := 0 to |sample|
      invariant forall i, j :: 0 <= i < side && 0 <= j < side ==>
        board[i, j] == if side * i + j in sample[..t] then 0 else g[i][j]
    {
      var p := sample[t];
      IndexNamesCell(side, p, 0, 0);
      board[p / side, p % side] := 0;
      forall i, j | 0 <= i < side && 0 <= j < side
        ensures board[i, j] == if side * i + j in sample[..t + 1] then 0 else g[i][j]
      {
        IndexNamesCell(side, p, i, j);
        assert sample[..t + 1] == sample[..t] + [p];
      }
    }
    assert sample[..|sample|] == sample;
    GridsEqual(Cells(board), RemoveCells(g, sample));
  }

  /** The cells named by the drawn indices. */
  ghost function SampleCells(sample: seq<int>, side: nat): set<Pos>
    requires side > 0
  {
    set t | t in sample :: Pos(t / side, t % side)
  }

  /** Distinct indices name distinct cells, so there are as many cells as
      indices. */
  lemma {:induction false} SampleCellsCount(sample: seq<int>, side: nat)
    requires side > 0 && IsSample(sample, side * side, |sample|)
    ensures |SampleCells(sample, side)| == |sample|
    decreases |sample|
  {
    if sample == [] {
      assert SampleCells(sample, side) == {};
    } else {
      var init, p := sample[..|sample| - 1], sample[|sample| - 1];
      SampleCellsCount(init, side);
      assert sample == init + [p];
      assert SampleCells(sample, side) == SampleCells(init, side) + {Pos(p / side, p % side)};
      forall q | q in init
        ensures Pos(q / side, q % side) != Pos(p / side, p % side)
      {
        DigitBounds(q, side);
        DigitBounds(p, side);
      }
    }
  }

  /** An empty cell of the puzzle was drawn. */
  lemma EmptyCellWasDrawn(g: Grid, sample: seq<int>, i: int, j: int)
    requires |g| > 0 && IsGrid(g, |g|) && IsFull(g)
    requires 0 <= i < |g| && 0 <= j < |g| && RemoveCells(g, sample)[i][j] == 0
    ensures Pos(i, j) in SampleCells(sample, |g|)
  {
    var side := |g|;
    var p := side * i + j;
    assert p in sample;
    TwoDigitBound(i, j, side);
    IndexNamesCell(side, p, i, j);
  }

  /** A drawn cell of the puzzle is empty. */
  lemma DrawnCellIsEmpty(g: Grid, sample: seq<int>, p: int)
    requires |g| > 0 && IsGrid(g, |g|) && 0 <= p < |g| * |g| && p in sample
    ensures Pos(p / |g|, p % |g|) in ZeroPositions(RemoveCells(g, sample))
  {
    var side := |g|;
    DigitBounds(p, side);
    var i, j := p / side, p % side;
    assert RemoveCells(g, sample)[i][j] == 0;
  }

  /** Clearing the drawn cells of a full board leaves exactly the drawn
      cells empty. */
  lemma RemovedCellsAreSample(g: Grid, sample: seq<int>)
    requires |g| > 0 && IsGrid(g, |g|) && IsFull(g)
    requires IsSample(sample, |g| * |g|, |sample|)
    ensures ZeroPositions(RemoveCells(g, sample)) == SampleCells(sample, |g|)
  {
    var h := RemoveCells(g, sample);
    forall q | q in ZeroPositions(h)
      ensures q in SampleCells(sample, |g|)
    {
      EmptyCellWasDrawn(g, sample, q.row, q.col);
    }
    forall p | p in sample
      ensures Pos(p / |g|, p % |g|) in ZeroPositions(h)
    {
      DrawnCellIsEmpty(g, sample, p);
    }
  }

  /** `remove_numbers` on a full board leaves `side * side * difficulty // 10`
      empty cells. */
  lemma RemovedCount(g: Grid, difficulty: int, sample: seq<int>)
    requires |g| > 0 && IsGrid(g, |g|) && IsFull(g)
    requires IsSample(sample, |g| * |g|, EmptyCount(|g|, difficulty))
    ensures |ZeroPositions(RemoveCells(g, sample))| == EmptyCount(|g|, difficulty)
  {
    RemovedCellsAreSample(g, sample);
    SampleCellsCount(sample, |g|);
  }

  /** A solved board completes every puzzle obtained by clearing some of its
      cells, so the generated puzzle is solvable and `solved_board` solves it. */
  lemma SolutionCompletesPuzzle(g: Grid, sample: seq<int>)
    requires IsSolution(g)
    ensures IsCompletion(RemoveCells(g, sample), g)
  {
  }

  /** A 9 by 9 board whose rows, columns and 3 by 3 boxes each hold 1..9
      exactly once is a solution: no cell repeats a peer's value. */
  lemma LatinIsSolution(g: Grid)
    requires RowsComplete(g, 9) && ColumnsComplete(g, 9) && BoxesComplete(g, 3)
    ensures IsSolution(g)
  {
    forall i, j, k, l | 0 <= i < 9 && 0 <= j < 9 && 0 <= k < 9 && 0 <= l < 9 &&
      Peer(Pos(i, j), k, l) && (k != i || l != j)
      ensures g[k][l] != g[i][j]
    {
      if k == i {
        if j < l { assert g[i][j] != g[i][l]; } else { assert g[i][l] != g[i][j]; }
      } else if l == j {
        if i < k { assert g[i][j] != g[k][j]; } else { assert g[k][j] != g[i][j]; }
      } else {
        assert g[i][j] != g[k][l];
      }
    }
  }

  /** The full board `fill_board` draws holds no zero. */
  lemma FillBoardFull(base: nat, d: Draw)
    requires IsDraw(d, base)
    ensures IsFull(FillBoard(base, d))
  {
    if base > 0 {
      FillBoardRows(base, d);
    }
  }

  /** For the standard board (`base == 3`) the filled board is a Sudoku solution. */
  lemma FillBoardIsSolution(d: Draw)
    requires IsDraw(d, 3)
    ensures IsSolution(FillBoard(3, d))
  {
    FillBoardIsLatin(3, d);
    LatinIsSolution(FillBoard(3, d));
  }

  /** The puzzle cut from a filled board `g` has as many empty cells as the
      difficulty asks for, and for the standard board it completes to `g`. */
  lemma GeneratedPuzzle(base: nat, d: Draw, difficulty: int, sample: seq<int>, g: Grid)
    requires IsDraw(d, base) && g == FillBoard(base, d)
    requires IsSample(sample, base * base * base * base, EmptyCount(base * base, difficulty))
    ensures base > 0 ==> |ZeroPositions(RemoveCells(g, sample))| == EmptyCount(base * base, difficulty)
    ensures base == 3 ==> IsSolution(g) && IsCompletion(RemoveCells(g, sample), g)
  {
    if base > 0 {
      FillBoardFull(base, d);
      RemovedCount(g, difficulty, sample);
    }
    if base == 3 {
      FillBoardIsSolution(d);
      SolutionCompletesPuzzle(g, sample);
    }
  }

  /** The regeneration loop of `generate_board`: copy the board and run the
      solver on the copy until it succeeds. On a full board the solver succeeds
      at once and leaves the copy as it was, so the loop makes one pass. */
  method SolveFilledCopy(board: array2<int>) returns (solvedBoard: array2<int>, ghost passes: nat)
    requires IsFull(Cells(board))
    ensures fresh(solvedBoard) && solvedBoard != board
    ensures Cells(solvedBoard) == Cells(board)
    ensures passes == 1
  {
    var ok := false;
    passes := 0;
    solvedBoard := new int[0, 0];
    while !ok
      invariant fresh(solvedBoard) && solvedBoard != board
      invariant ok ==> Cells(solvedBoard) == Cells(board) && passes == 1
      invariant !ok ==> passes == 0
      decreases if ok then 0 else 1
    {
      solvedBoard := CopyBoard(board);
      ok := SudokuSolver(solvedBoard);
      passes := passes + 1;
    }
  }

  /** `generate_board(difficulty, board_size)` with `board_size == base * base`:
      the solved board is the filled board, the regeneration loop stops after
      its first pass, and the puzzle is the solved board with the drawn cells
      cleared. */
  method GenerateBoard(difficulty: int, base: nat, d: Draw, sample: seq<int>)
    returns (board: array2<int>, solvedBoard: array2<int>, ghost passes: nat)
    requires IsDraw(d, base)
    requires IsSample(sample, base * base * base * base, EmptyCount(base * base, difficulty))
    ensures fresh(board) && fresh(solvedBoard) && board != solvedBoard
    ensures board.Length0 == base * base && board.Length1 == base * base
    ensures Cells(solvedBoard) == FillBoard(base, d)
    ensures Cells(board) == RemoveCells(Cells(solvedBoard), sample)
    ensures base > 0 ==> |ZeroPositions(Cells(board))| == EmptyCount(base * base, difficulty)
    ensures base == 3 ==> IsSolution(Cells(solvedBoard)) && IsCompletion(Cells(board), Cells(solvedBoard))
    ensures passes == 1
  {
    var side := base * base;
    board := NewBoard(FillBoard(base, d), side);
    FillBoardFull(base, d);
    solvedBoard, passes := SolveFilledCopy(board);
    assert side * side == base * base * base * base;
    RemoveNumbers(board, difficulty, sample);
    GeneratedPuzzle(base, d, difficulty, sample, Cells(solvedBoard));
  }
}
