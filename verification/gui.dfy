/** The engine inside the GUI module: its own solver class, whose scan and
    checker are fixed to `BOARD_SIZE == 9` and `BASE == 3`, and the GUI's copy
    of the generator, which runs that solver. The Tk widgets are not modelled. */
module SudokuGui {
  import opened Grids
  import opened Rules
  import opened Selectors
  import opened Solver
  import opened Latin
  import opened Generator

  /** `SudokuSolver.valid_move_check(board, num, pos)`: the same row, column
      and box test as the engine's checker, evaluated once per pass of a loop
      over `range(BOARD_SIZE)` whose passes do not differ; the first pass
      decides. */
  method ValidMoveCheck(b: array2<int>, num: int, pos: Pos) returns (ok: bool)
    requires b.Length0 == 9 && b.Length1 == 9 && OnBoard(pos)
    ensures ok == Rules.ValidMoveCheck(Cells(b), num, pos)
  {
    var g := Cells(b);
    for i := 0 to 9
      invariant 0 < i ==> !(num in g[pos.row] || num in ColumnValues(g, pos.col) || num in BoxValues(g, pos))
    {
      if num in g[pos.row] || num in ColumnValues(g, pos.col) || num in BoxValues(g, pos) {
        return false;
      }
    }
    return true;
  }

  /** `SudokuSolver.solve_sudoku(board)`: the same backtracking search as the
      engine's `sudoku_solver`, over the fixed 9 by 9 scan, with the class's
      own checker. */
  method SolveSudoku(b: array2<int>) returns (solved: bool)
    requires b.Length0 == 9 && b.Length1 == 9
    modifies b
    ensures IsFull(old(Cells(b))) ==> solved && Cells(b) == old(Cells(b))
    ensures solved ==> IsCompletion(old(Cells(b)), Cells(b))
    ensures !solved ==> Cells(b) == old(Cells(b))
    ensures !solved ==> !Solvable(old(Cells(b)))
    decreases ZeroPositions(Cells(b))
  {
    var emptyCell := FindEmptyCell(b);
    if emptyCell.None? {
      FullIsCompletion(Cells(b));
      return true;
    }
    var p := emptyCell.value;
    ghost var s := Cells(b);
    for num := 1 to 10
      invariant Cells(b) == s
      invariant !CompletableBelow(s, p, num)
    {
      var legal := ValidMoveCheck(b, num, p);
      assert legal == Rules.ValidMoveCheck(s, num, p);
      if legal {
        SetCell(b, p, num);
        PlaceShrinksZeros(s, p, num);
        solved := SolveSudoku(b);
        if solved {
          PlacementSound(s, p, num, Cells(b));
          return;
        }
        FailedTryStep(s, p, num);
        SetCell(b, p, 0);
        PlaceUndone(s, p, num);
      } else {
        IllegalStep(s, p, num);
      }
    }
    NoValueLeft(s, p);
    return false;
  }

  /** `SudokuGUI.generate_board(difficulty, 9)`: the generator with the
      class's solver in the regeneration loop; the loop stops after its
      first pass and the solved board is a solution that completes the
      puzzle. */
  method GenerateBoard(difficulty: int, d: Draw, sample: seq<int>)
    returns (board: array2<int>, solvedBoard: array2<int>, ghost passes: nat)
    requires IsDraw(d, 3)
    requires IsSample(sample, 81, EmptyCount(9, difficulty))
    ensures fresh(board) && fresh(solvedBoard) && board != solvedBoard
    ensures board.Length0 == 9 && board.Length1 == 9
    ensures Cells(solvedBoard) == FillBoard(3, d)
    ensures Cells(board) == RemoveCells(Cells(solvedBoard), sample)
    ensures |ZeroPositions(Cells(board))| == EmptyCount(9, difficulty)
    ensures IsSolution(Cells(solvedBoard)) && IsCompletion(Cells(board), Cells(solvedBoard))
    ensures passes == 1
  {
    board := NewBoard(FillBoard(3, d), 9);
    FillBoardFull(3, d);
    var ok := false;
    passes := 0;
    solvedBoard := new int[0, 0];
    while !ok
      invariant fresh(board) && fresh(solvedBoard) && board != solvedBoard
      invariant Cells(board) == FillBoard(3, d) && board.Length0 == 9 && board.Length1 == 9
      invariant ok ==> Cells(solvedBoard) == FillBoard(3, d) && passes == 1
      invariant !ok ==> passes == 0
      decreases if ok then 0 else 1
    {
      solvedBoard := CopyBoard(board);
      ok := SolveSudoku(solvedBoard);
      passes := passes + 1;
    }
    RemoveNumbers(board, difficulty, sample);
    RemovedCount(FillBoard(3, d), difficulty, sample);
    FillBoardIsSolution(d);
    SolutionCompletesPuzzle(FillBoard(3, d), sample);
  }
}
