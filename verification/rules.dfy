/** The constraint checker and the candidate enumerator of the 9 by 9 engine
    (box size 3, values 1..9, as the source hard-codes them), and what it means
    for a board to be a completion of a partly filled one. */
module Rules {
  import opened Grids

  /** The position lies on a 9 by 9 board. */
  predicate OnBoard(p: Pos)
  {
    0 <= p.row < 9 && 0 <= p.col < 9
  }

  /** Cell `(i, j)` shares the row, the column or the 3 by 3 box of `p`; the box
      of `p` starts at `(3 * (p.row / 3), 3 * (p.col / 3))`. */
  predicate Peer(p: Pos, i: int, j: int)
  {
    i == p.row || j == p.col || (i / 3 == p.row / 3 && j / 3 == p.col / 3)
  }

  /** The values in column `col`. */
  function ColumnValues(g: Grid, col: int): set<int>
    requires IsGrid(g, 9) && 0 <= col < 9
  {
    set i | 0 <= i < 9 :: g[i][col]
  }

  /** The values of the 3 by 3 box holding `p`. */
  function BoxValues(g: Grid, p: Pos): set<int>
    requires IsGrid(g, 9) && OnBoard(p)
  {
    var r0, c0 := 3 * (p.row / 3), 3 * (p.col / 3);
    set i, j | r0 <= i < r0 + 3 && c0 <= j < c0 + 3 :: g[i][j]
  }

  /** `valid_move_check(board, num, pos)`: `num` is absent from the row, the
      column and the box of `pos`. The cell at `pos` itself is looked at too. */
  function ValidMoveCheck(g: Grid, num: int, p: Pos): (ok: bool)
    requires IsGrid(g, 9) && OnBoard(p)
    ensures ok <==> forall i, j :: 0 <= i < 9 && 0 <= j < 9 && Peer(p, i, j) ==> g[i][j] != num
  {
    if num in g[p.row] || num in ColumnValues(g, p.col) then
      false
    else
      var r0, c0 := 3 * (p.row / 3), 3 * (p.col / 3);
      assert forall i, j :: 0 <= i < 9 && 0 <= j < 9 && i / 3 == p.row / 3 && j / 3 == p.col / 3 ==>
        r0 <= i < r0 + 3 && c0 <= j < c0 + 3;
      num !in BoxValues(g, p)
  }

  /** `valid_moves(board, pos)`: `{1..9}` minus the values of the row, the
      column and the box. */
  function ValidMoves(g: Grid, p: Pos): (moves: set<int>)
    requires IsGrid(g, 9) && OnBoard(p)
    ensures forall v :: v in moves <==> 1 <= v <= 9 && ValidMoveCheck(g, v, p)
  {
    {1, 2, 3, 4, 5, 6, 7, 8, 9} - (set v | v in g[p.row]) - ColumnValues(g, p.col) - BoxValues(g, p)
  }

  /** No other cell in the row, column or box of `(i, j)` holds the same value. */
  ghost predicate ConflictFreeAt(g: Grid, i: int, j: int)
    requires 0 <= i < |g| && 0 <= j < |g[i]|
  {
    forall k, l :: 0 <= k < |g| && 0 <= l < |g[k]| && Peer(Pos(i, j), k, l) && (k != i || l != j) ==>
      g[k][l] != g[i][j]
  }

  /** `g` is what a successful search may leave of board `s`: same shape, every
      non-zero cell of `s` kept, and every empty cell of `s` filled with a value
      in 1..9 that no other cell of its row, column or box holds. */
  ghost predicate IsCompletion(s: Grid, g: Grid)
  {
    && |g| == |s|
    && (forall i :: 0 <= i < |s| ==> |g[i]| == |s[i]|)
    && (forall i, j :: 0 <= i < |s| && 0 <= j < |s[i]| && s[i][j] != 0 ==> g[i][j] == s[i][j])
    && (forall i, j :: 0 <= i < |s| && 0 <= j < |s[i]| && s[i][j] == 0 ==>
          1 <= g[i][j] <= 9 && ConflictFreeAt(g, i, j))
  }

  /** Some completion of `s` exists. */
  ghost predicate Solvable(s: Grid)
  {
    exists g :: IsCompletion(s, g)
  }

  /** A solved 9 by 9 Sudoku: values 1..9 and no repeat in any row, column or box. */
  ghost predicate IsSolution(g: Grid)
  {
    IsGrid(g, 9) && forall i, j :: 0 <= i < 9 && 0 <= j < 9 ==> 1 <= g[i][j] <= 9 && ConflictFreeAt(g, i, j)
  }

  /** The givens of `s` are in 0..9 and no two of them clash. */
  ghost predicate GivensConsistent(s: Grid)
  {
    IsGrid(s, 9) &&
    forall i, j :: 0 <= i < 9 && 0 <= j < 9 ==>
      0 <= s[i][j] <= 9 &&
      (s[i][j] != 0 ==> forall k, l :: 0 <= k < 9 && 0 <= l < 9 && Peer(Pos(i, j), k, l) && (k != i || l != j) ==> s[k][l] != s[i][j])
  }

  /** Whatever the search fills in, a board whose givens do not clash is completed
      to a solved Sudoku. */
  lemma CompletionIsSolution(s: Grid, g: Grid)
    requires GivensConsistent(s) && IsCompletion(s, g)
    ensures IsSolution(g)
  {
    forall i, j | 0 <= i < 9 && 0 <= j < 9
      ensures 1 <= g[i][j] <= 9 && ConflictFreeAt(g, i, j)
    {
      if s[i][j] != 0 {
        forall k, l | 0 <= k < 9 && 0 <= l < 9 && Peer(Pos(i, j), k, l) && (k != i || l != j)
          ensures g[k][l] != g[i][j]
        {
          if s[k][l] == 0 {
            assert Peer(Pos(k, l), i, j);
            assert ConflictFreeAt(g, k, l);
          }
        }
      }
    }
  }

  /** A board with no empty cell is its own (only) completion. */
  lemma FullIsCompletion(s: Grid)
    requires IsFull(s)
    ensures IsCompletion(s, s)
  {
  }

  /** Placing a legal value at an empty cell and completing the result completes
      the original board. */
  lemma PlacementSound(s: Grid, p: Pos, v: int, g: Grid)
    requires IsGrid(s, 9) && OnBoard(p) && s[p.row][p.col] == 0
    requires 1 <= v <= 9 && ValidMoveCheck(s, v, p)
    requires IsCompletion(Place(s, p, v), g)
    ensures IsCompletion(s, g)
  {
    var t := Place(s, p, v);
    assert g[p.row][p.col] == v;
    forall k, l | 0 <= k < 9 && 0 <= l < 9 && Peer(p, k, l) && (k != p.row || l != p.col)
      ensures g[k][l] != g[p.row][p.col]
    {
      if s[k][l] == 0 {
        assert t[k][l] == 0;
        assert Peer(Pos(k, l), p.row, p.col);
        assert ConflictFreeAt(g, k, l);
      }
    }
    assert ConflictFreeAt(g, p.row, p.col);
    forall i, j | 0 <= i < 9 && 0 <= j < 9 && s[i][j] == 0
      ensures 1 <= g[i][j] <= 9 && ConflictFreeAt(g, i, j)
    {
      if i != p.row || j != p.col {
        assert t[i][j] == 0;
      }
    }
  }

  /** A value the checker refuses at an empty cell is not the value of that cell
      in any completion. */
  lemma IllegalNeverCompletes(s: Grid, p: Pos, v: int, g: Grid)
    requires IsGrid(s, 9) && OnBoard(p) && s[p.row][p.col] == 0 && v != 0
    requires !ValidMoveCheck(s, v, p)
    requires IsCompletion(s, g)
    ensures g[p.row][p.col] != v
  {
    var i, j :| 0 <= i < 9 && 0 <= j < 9 && Peer(p, i, j) && s[i][j] == v;
    assert g[i][j] == v;
    assert ConflictFreeAt(g, p.row, p.col);
  }

  /** Every completion of a board completes the board with one of its empty
      cells set to the value the completion gives that cell. */
  lemma CompletionThroughPlacement(s: Grid, p: Pos, g: Grid)
    requires InGrid(s, p) && s[p.row][p.col] == 0
    requires IsCompletion(s, g)
    ensures IsCompletion(Place(s, p, g[p.row][p.col]), g)
  {
  }
}
