/** isValid: may a digit go into a cell without repeating one already in its
    row, its column or its 3x3 box? Used by the generator on every candidate
    and by the page on every digit the player types. */
module Validator {
  import opened Grid
  import opened Board

  /** Scans row `row`, then column `col`, then the box of (row, col), and
      answers false at the first cell that already holds num. It only reads
      the board. */
  method IsValid(board: array2<int>, num: int, row: int, col: int) returns (valid: bool)
    requires IsBoard(board) && InRange(row, col)
    ensures valid <==> Allowed(Snapshot(board), num, row, col)
  {
    ghost var g := Snapshot(board);
    for i := 0 to 9
      invariant forall j :: 0 <= j < i ==> g[row][j] != num
    {
      if board[row, i] == num {
        return false;
      }
    }
    for i := 0 to 9
      invariant forall k :: 0 <= k < i ==> g[k][col] != num
    {
      if board[i, col] == num {
        return false;
      }
    }
    var boxRow := row / 3 * 3;
    var boxCol := col / 3 * 3;
    for i := 0 to 3
      invariant forall a, b :: boxRow <= a < boxRow + i && boxCol <= b < boxCol + 3 ==> g[a][b] != num
    {
      for j := 0 to 3
        invariant forall a, b ::
          ((boxRow <= a < boxRow + i && boxCol <= b < boxCol + 3) ||
           (a == boxRow + i && boxCol <= b < boxCol + j))
          ==> g[a][b] != num
      {
        if board[boxRow + i, boxCol + j] == num {
          return false;
        }
      }
    }
    return true;
  }
}
