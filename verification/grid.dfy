/** Boards, positions and the snapshot of a board held in an array.
    The source keeps a board as a list of rows of Python ints, with 0 for an
    empty cell; here the board that is changed in place is an `array2<int>`
    and the value of a board at one moment is a `Grid`. */
module Grids {

  datatype Option<T> = None | Some(value: T)

  /** A `(row, col)` pair. */
  datatype Pos = Pos(row: int, col: int)

  type Grid = seq<seq<int>>

  /** `g` is an `n` by `n` board. */
  predicate IsGrid(g: Grid, n: nat)
  {
    |g| == n && forall i :: 0 <= i < n ==> |g[i]| == n
  }

  /** `p` names a cell of `g`. */
  predicate InGrid(g: Grid, p: Pos)
  {
    0 <= p.row < |g| && 0 <= p.col < |g[p.row]|
  }

  /** The value of the board held in `b`. */
  function Cells(b: array2<int>): (g: Grid)
    reads b
    ensures |g| == b.Length0
    ensures forall i :: 0 <= i < b.Length0 ==> |g[i]| == b.Length1
    ensures forall i, j :: 0 <= i < b.Length0 && 0 <= j < b.Length1 ==> g[i][j] == b[i, j]
  {
    seq(b.Length0, i reads b requires 0 <= i < b.Length0 =>
      seq(b.Length1, j reads b requires 0 <= j < b.Length1 => b[i, j]))
  }

  /** No cell holds 0. */
  predicate IsFull(g: Grid)
  {
    forall i, j :: 0 <= i < |g| && 0 <= j < |g[i]| ==> g[i][j] != 0
  }

  /** The empty cells; its size is the number of zero cells. */
  ghost function ZeroPositions(g: Grid): set<Pos>
  {
    set i, j | 0 <= i < |g| && 0 <= j < |g[i]| && g[i][j] == 0 :: Pos(i, j)
  }

  /** `board[row][col] = v` on the value of a board. */
  function Place(g: Grid, p: Pos, v: int): (h: Grid)
    requires InGrid(g, p)
    ensures |h| == |g| && forall i :: 0 <= i < |g| ==> |h[i]| == |g[i]|
    ensures h[p.row][p.col] == v
    ensures forall i, j :: 0 <= i < |g| && 0 <= j < |g[i]| && (i != p.row || j != p.col) ==> h[i][j] == g[i][j]
  {
    g[p.row := g[p.row][p.col := v]]
  }

  /** Two boards with the same shape and the same cells are equal. */
  lemma GridsEqual(a: Grid, b: Grid)
    requires |a| == |b| && forall i :: 0 <= i < |a| ==> |a[i]| == |b[i]|
    requires forall i, j :: 0 <= i < |a| && 0 <= j < |a[i]| ==> a[i][j] == b[i][j]
    ensures a == b
  {
    forall i | 0 <= i < |a|
      ensures a[i] == b[i]
    {
      assert forall j :: 0 <= j < |a[i]| ==> a[i][j] == b[i][j];
    }
  }

  /** Filling an empty cell removes exactly that cell from the empty ones. */
  lemma PlaceShrinksZeros(g: Grid, p: Pos, v: int)
    requires InGrid(g, p) && g[p.row][p.col] == 0 && v != 0
    ensures ZeroPositions(Place(g, p, v)) == ZeroPositions(g) - {p}
  {
    var h := Place(g, p, v);
    forall q | q in ZeroPositions(h)
      ensures q in ZeroPositions(g) - {p}
    {
      assert 0 <= q.row < |h| && 0 <= q.col < |h[q.row]| && h[q.row][q.col] == 0;
    }
    forall q | q in ZeroPositions(g) - {p}
      ensures q in ZeroPositions(h)
    {
      assert 0 <= q.row < |g| && 0 <= q.col < |g[q.row]| && g[q.row][q.col] == 0;
    }
  }

  /** `board[p.row][p.col] = v` on a board held in an array. */
  method SetCell(b: array2<int>, p: Pos, v: int)
    requires 0 <= p.row < b.Length0 && 0 <= p.col < b.Length1
    modifies b
    ensures Cells(b) == Place(old(Cells(b)), p, v)
  {
    ghost var g := Cells(b);
    b[p.row, p.col] := v;
    GridsEqual(Cells(b), Place(g, p, v));
  }

  /** Writing a cell's old value back over a write undoes it. */
  lemma PlaceUndone(g: Grid, p: Pos, v: int)
    requires InGrid(g, p)
    ensures Place(Place(g, p, v), p, g[p.row][p.col]) == g
  {
    assert Place(g, p, v)[p.row][p.col := g[p.row][p.col]] == g[p.row];
  }

  /** `[row[:] for row in board]`: a fresh board with the same cells. */
  method CopyBoard(b: array2<int>) returns (c: array2<int>)
    ensures fresh(c) && c.Length0 == b.Length0 && c.Length1 == b.Length1 && Cells(c) == Cells(b)
  {
    c := new int[b.Length0, b.Length1];
    for i := 0 to b.Length0
      invariant forall k, l :: 0 <= k < i && 0 <= l < b.Length1 ==> c[k, l] == b[k, l]
    {
      for j := 0 to b.Length1
        invariant forall k, l :: 0 <= k < i && 0 <= l < b.Length1 ==> c[k, l] == b[k, l]
        invariant forall l :: 0 <= l < j ==> c[i, l] == b[i, l]
      {
        c[i, j] := b[i, j];
      }
    }
    GridsEqual(Cells(c), Cells(b));
  }

  /** A fresh `n` by `n` board holding the cells of `g`. */
  method NewBoard(g: Grid, n: nat) returns (b: array2<int>)
    requires IsGrid(g, n)
    ensures fresh(b) && b.Length0 == n && b.Length1 == n && Cells(b) == g
  {
    b := new int[n, n];
    for i := 0 to n
      invariant forall k, l :: 0 <= k < i && 0 <= l < n ==> b[k, l] == g[k][l]
    {
      for j := 0 to n
        invariant forall k, l :: 0 <= k < i && 0 <= l < n ==> b[k, l] == g[k][l]
        invariant forall l :: 0 <= l < j ==> b[i, l] == g[i][l]
      {
        b[i, j] := g[i][j];
      }
    }
    GridsEqual(Cells(b), g);
  }
}
