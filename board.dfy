/** The 9x9 board as the generator holds it: a two-dimensional array that
    fillBoard and removeNumbers change in place. */
module Board {
  import opened Grid

  predicate IsBoard(b: array2<int>)
  {
    b.Length0 == 9 && b.Length1 == 9
  }

  /** The grid the board holds right now. */
  ghost function Snapshot(b: array2<int>): (g: Grid)
    reads b
    requires IsBoard(b)
    ensures IsGrid(g) && forall i, j :: InRange(i, j) ==> g[i][j] == b[i, j]
  {
    seq(9, i reads b requires 0 <= i < 9 =>
      seq(9, j reads b requires 0 <= j < 9 => b[i, j]))
  }

  /** One cell assignment, `board[r][c] = v`. */
  method SetCell(board: array2<int>, r: int, c: int, v: int)
    requires IsBoard(board) && InRange(r, c)
    modifies board
    ensures Snapshot(board) == Set(old(Snapshot(board)), r, c, v)
  {
    ghost var g := Snapshot(board);
    board[r, c] := v;
    SameCells(Snapshot(board), Set(g, r, c, v));
  }

  /** createEmptyBoard: a new board with every cell 0. */
  method CreateEmptyBoard() returns (b: array2<int>)
    ensures fresh(b) && IsBoard(b)
    ensures forall i, j :: InRange(i, j) ==> b[i, j] == 0
    ensures Snapshot(b) == EmptyGrid() && ZeroCells(Snapshot(b)) == AllCells()
  {
    b := new int[9, 9]((i, j) => 0);
    SameCells(Snapshot(b), EmptyGrid());
  }

  /** The deep copy of generateSudoku: a new board holding the same cells. */
  method CopyBoard(board: array2<int>) returns (copy: array2<int>)
    requires IsBoard(board)
    ensures fresh(copy) && IsBoard(copy)
    ensures Snapshot(copy) == Snapshot(board)
  {
    copy := new int[9, 9]((i, j) reads board requires 0 <= i < 9 && 0 <= j < 9 => board[i, j]);
    SameCells(Snapshot(copy), Snapshot(board));
  }
}
