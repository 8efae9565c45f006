/** The backtracking solver, which works on the caller's board in place, and
    the root-branch solver, here run one branch after another. */
module Solver {
  import opened Grids
  import opened Rules
  import opened Selectors

  /** `sudoku_solver(board)`: fill the first empty cell with each of 1..9 that
      the checker allows, recurse, and reset the cell to 0 after a failed try.
      On success the board is a completion of what was passed in; on failure
      the board is as it was passed in and no completion exists. */
  method SudokuSolver(b: array2<int>) returns (solved: bool)
    requires (b.Length0 == 9 && b.Length1 == 9) || IsFull(Cells(b))
    modifies b
    ensures IsFull(old(Cells(b))) ==> solved && Cells(b) == old(Cells(b))
    ensures solved ==> IsCompletion(old(Cells(b)), Cells(b))
    ensures !solved ==> Cells(b) == old(Cells(b))
    ensures !solved ==> !Solvable(old(Cells(b)))
    decreases ZeroPositions(Cells(b))
  {
    var emptyCell := FindEmptyCell(b);
    if emptyCell.None? {
      FullIsCompletion(Cells(b));
      return true;
    }
    var p := emptyCell.value;
    ghost var s := Cells(b);
    for num := 1 to 10
      invariant Cells(b) == s
      invariant !CompletableBelow(s, p, num)
    {
      if ValidMoveCheck(Cells(b), num, p) {
        SetCell(b, p, num);
        PlaceShrinksZeros(s, p, num);
        solved := SudokuSolver(b);
        if solved {
          PlacementSound(s, p, num, Cells(b));
          return;
        }
        FailedTryStep(s, p, num);
        SetCell(b, p, 0);
        PlaceUndone(s, p, num);
      } else {
        IllegalStep(s, p, num);
      }
    }
    NoValueLeft(s, p);
    return false;
  }

  /** Some completion of `s` gives cell `p` a value below `bound`. */
  ghost predicate CompletableBelow(s: Grid, p: Pos, bound: int)
    requires InGrid(s, p)
  {
    exists g :: IsCompletion(s, g) && g[p.row][p.col] < bound
  }

  /** One branch of the root-branch solver: a copy of the board with `num` at
      the empty cell `p`, searched by `SudokuSolver`. It succeeds exactly when
      some completion of the board has `num` at `p`. */
  method SolveBranch(b: array2<int>, p: Pos, num: int) returns (ok: bool)
    requires b.Length0 == 9 && b.Length1 == 9 && OnBoard(p) && b[p.row, p.col] == 0
    requires 1 <= num <= 9 && ValidMoveCheck(Cells(b), num, p)
    ensures ok <==> exists g :: IsCompletion(Cells(b), g) && g[p.row][p.col] == num
  {
    ghost var s := Cells(b);
    var boardCopy := CopyBoard(b);
    boardCopy[p.row, p.col] := num;
    GridsEqual(Cells(boardCopy), Place(s, p, num));
    ok := SudokuSolver(boardCopy);
    if ok {
      PlacementSound(s, p, num, Cells(boardCopy));
      assert Cells(boardCopy)[p.row][p.col] == num;
    } else {
      FailedTryExcludes(s, p, num);
    }
  }

  /** One round of the submission loop: find the most constrained empty cell
      and, when the checker allows `num` there, run a branch with `num` placed
      on it; `ok` is that branch's answer. */
  method SubmitBranch(b: array2<int>, num: int) returns (started: bool, ok: bool)
    requires b.Length0 == 9 && b.Length1 == 9 && 1 <= num <= 9
    ensures var cell := HeuristicFindEmptyCell(Cells(b));
      started <==> cell.Some? && ValidMoveCheck(Cells(b), num, cell.value)
    ensures started ==>
      var p := HeuristicFindEmptyCell(Cells(b)).value;
      (ok <==> exists g :: IsCompletion(Cells(b), g) && g[p.row][p.col] == num)
  {
    var emptyCell := HeuristicFindEmptyCell(Cells(b));
    started := emptyCell.Some? && ValidMoveCheck(Cells(b), num, emptyCell.value);
    ok := false;
    if started {
      ok := SolveBranch(b, emptyCell.value, num);
    }
  }

  /** `dynamic_parallel_sudoku_solver(board)` with the branches run one after
      another instead of on a thread pool: for each of 1..9 that the checker
      allows at the most-constrained empty cell, one branch is run; the answer
      is whether any branch succeeded. The caller's board is never written (no
      branch is copied back), and a board without an empty cell gives false
      because no branch is started. */
  method DynamicParallelSudokuSolver(b: array2<int>) returns (found: bool)
    requires b.Length0 == 9 && b.Length1 == 9
    ensures found <==> !IsFull(Cells(b)) && Solvable(Cells(b))
  {
    ghost var s := Cells(b);
    ghost var cell := HeuristicFindEmptyCell(s);
    var results: seq<bool> := [];
    if cell.Some? {
      NothingBelowOne(s, cell.value);
    }
    for num := 1 to 10
      invariant Cells(b) == s
      invariant (true in results) <==> cell.Some? && CompletableBelow(s, cell.value, num)
    {
      ghost var before := results;
      var started, ok := SubmitBranch(b, num);
      if started {
        results := results + [ok];
      }
      if cell.Some? {
        RoundKeepsAnswer(s, cell.value, num, before, ok, results);
      }
    }
    AllRoundsAnswer(s, results);
    // the results are collected in submission order; the first success answers
    found := true in results;
  }

  /** One round of the branch loop: after trying `num` at `p` (or skipping it
      when the checker refuses it), the results hold a success exactly when
      some completion has a value below `num + 1` at `p`. */
  lemma RoundKeepsAnswer(s: Grid, p: Pos, num: int, results: seq<bool>, ok: bool, results': seq<bool>)
    requires IsGrid(s, 9) && OnBoard(p) && s[p.row][p.col] == 0 && 1 <= num <= 9
    requires (true in results) <==> CompletableBelow(s, p, num)
    requires ValidMoveCheck(s, num, p) ==> (ok <==> exists g :: IsCompletion(s, g) && g[p.row][p.col] == num)
    requires results' == if ValidMoveCheck(s, num, p) then results + [ok] else results
    ensures (true in results') <==> CompletableBelow(s, p, num + 1)
  {
    ExtendBound(s, p, num);
    if !ValidMoveCheck(s, num, p) {
      IllegalExcludes(s, p, num);
    }
  }

  /** At an empty cell, no completion has a value below 1. */
  lemma NothingBelowOne(s: Grid, p: Pos)
    requires InGrid(s, p) && s[p.row][p.col] == 0
    ensures !CompletableBelow(s, p, 1)
  {
  }

  /** After the rounds for 1..9, the results hold a success exactly when the
      board has an empty cell and a completion. */
  lemma AllRoundsAnswer(s: Grid, results: seq<bool>)
    requires IsGrid(s, 9)
    requires var cell := HeuristicFindEmptyCell(s);
      (true in results) <==> cell.Some? && CompletableBelow(s, cell.value, 10)
    ensures (true in results) <==> !IsFull(s) && Solvable(s)
  {
    var cell := HeuristicFindEmptyCell(s);
    if cell.Some? {
      BelowTen(s, cell.value);
    }
  }

  /** Allowing one more value at `p` adds exactly the completions that put `v` there. */
  lemma ExtendBound(s: Grid, p: Pos, v: int)
    requires InGrid(s, p)
    ensures CompletableBelow(s, p, v + 1) <==>
      CompletableBelow(s, p, v) || exists g :: IsCompletion(s, g) && g[p.row][p.col] == v
  {
  }

  /** At an empty cell, a completion with a value below 10 there is just a completion. */
  lemma BelowTen(s: Grid, p: Pos)
    requires InGrid(s, p) && s[p.row][p.col] == 0
    ensures CompletableBelow(s, p, 10) <==> Solvable(s)
  {
  }

  /** After the search below `board[p] = v` failed, no completion has `v` at `p`. */
  lemma FailedTryExcludes(s: Grid, p: Pos, v: int)
    requires InGrid(s, p) && s[p.row][p.col] == 0
    requires !Solvable(Place(s, p, v))
    ensures forall g :: IsCompletion(s, g) ==> g[p.row][p.col] != v
  {
    forall g | IsCompletion(s, g)
      ensures IsCompletion(Place(s, p, g[p.row][p.col]), g)
    {
      CompletionThroughPlacement(s, p, g);
    }
  }

  /** A value the checker refuses is not the value of `p` in any completion. */
  lemma IllegalExcludes(s: Grid, p: Pos, v: int)
    requires IsGrid(s, 9) && OnBoard(p) && s[p.row][p.col] == 0 && v != 0
    requires !ValidMoveCheck(s, v, p)
    ensures forall g :: IsCompletion(s, g) ==> g[p.row][p.col] != v
  {
    forall g | IsCompletion(s, g)
      ensures g[p.row][p.col] != v
    {
      IllegalNeverCompletes(s, p, v, g);
    }
  }

  /** A failed search below `board[p] = v` extends the excluded range past `v`. */
  lemma FailedTryStep(s: Grid, p: Pos, v: int)
    requires InGrid(s, p) && s[p.row][p.col] == 0
    requires !CompletableBelow(s, p, v) && !Solvable(Place(s, p, v))
    ensures !CompletableBelow(s, p, v + 1)
  {
    FailedTryExcludes(s, p, v);
  }

  /** A value the checker refuses extends the excluded range past it. */
  lemma IllegalStep(s: Grid, p: Pos, v: int)
    requires IsGrid(s, 9) && OnBoard(p) && s[p.row][p.col] == 0 && v != 0
    requires !ValidMoveCheck(s, v, p) && !CompletableBelow(s, p, v)
    ensures !CompletableBelow(s, p, v + 1)
  {
    IllegalExcludes(s, p, v);
  }

  /** When every value of 1..9 at the empty cell `p` is excluded, nothing completes `s`. */
  lemma NoValueLeft(s: Grid, p: Pos)
    requires InGrid(s, p) && s[p.row][p.col] == 0
    requires !CompletableBelow(s, p, 10)
    ensures !Solvable(s)
  {
    BelowTen(s, p);
  }
}
