/** The board generator: a randomised backtracking search fills an empty board
    to a solved Sudoku, and a copy of it with 60 cells blanked becomes the
    puzzle. */
module Generator {
  import opened Grid
  import opened Board
  import opened Validator

  /** How many cells generateSudoku blanks in the puzzle. */
  const RemovalCount := 60

  /** shuffle: some ordering of the same elements. Which one is left open; the
      page draws it with a random comparator. */
  method Shuffle<T(==)>(s: seq<T>) returns (r: seq<T>)
    ensures multiset(r) == multiset(s)
  {
    r :| multiset(r) == multiset(s);
  }

  /** findEmptyCell: the first cell holding 0 in row-major order, or None when
      there is none. */
  method FindEmptyCell(board: array2<int>) returns (cell: Option<Coord>)
    requires IsBoard(board)
    ensures cell.None? <==> Full(Snapshot(board))
    ensures cell.Some? ==> IsFirstEmpty(Snapshot(board), cell.value.0, cell.value.1)
  {
    for i := 0 to 9
      invariant forall r, c :: 0 <= r < i && 0 <= c < 9 ==> board[r, c] != 0
    {
      for j := 0 to 9
        invariant forall r, c :: InRange(r, c) && (r < i || (r == i && c < j)) ==> board[r, c] != 0
      {
        if board[i, j] == 0 {
          return Some((i, j));
        }
      }
    }
    return None;
  }

  /** What fillBoard promises about the board g it is given, the board f it
      leaves and its answer ok. Only empty cells are written. On failure the
      board is as it was. On success it is full, and it is a solved Sudoku if
      it started without conflicts. The search is complete: if any solution
      keeps the digits already on the board, the answer is true. */
  ghost predicate Filled(g: Grid, f: Grid, ok: bool)
  {
    IsGrid(g) && IsGrid(f) && Extends(g, f) &&
    (!ok ==> f == g) &&
    (ok ==> Full(f)) &&
    (ok && IsPartial(g) ==> IsSolved(f)) &&
    ((exists s :: IsSolutionOf(s, g)) ==> ok)
  }

  /** fillBoard: fills the empty cells of the board by backtracking. At the
      first empty cell it tries the digits 1-9 in shuffled order; a digit that
      isValid accepts is placed and the rest of the board is filled
      recursively; if that fails the cell is reset to 0 and the next digit is
      tried. */
  method FillBoard(board: array2<int>) returns (ok: bool)
    requires IsBoard(board)
    modifies board
    ensures Filled(old(Snapshot(board)), Snapshot(board), ok)
    decreases |ZeroCells(Snapshot(board))|, 1
  {
    var empty := FindEmptyCell(board);
    if empty.None? {
      FilledWhenFull(Snapshot(board));
      return true;
    }
    var (row, col) := empty.value;
    ghost var g := Snapshot(board);
    var nums := ShuffledDigits();
    for k := 0 to |nums|
      invariant Snapshot(board) == g
      invariant AllRuledOut(g, row, col, nums[..k])
    {
      ok := TryDigit(board, row, col, nums[k]);
      if ok {
        return;
      }
      RuledOutOneMore(g, row, col, nums, k);
    }
    assert nums[..|nums|] == nums;
    FilledWhenExhausted(g, row, col, nums);
    return false;
  }

  /** The body of fillBoard's digit loop at the empty cell (row, col): if
      isValid accepts num it is placed and the rest of the board is filled
      recursively; when that fails the cell is reset to 0. On failure the
      board is as it was and no solution has num at (row, col). */
  method TryDigit(board: array2<int>, row: int, col: int, num: int) returns (ok: bool)
    requires IsBoard(board) && InRange(row, col) && board[row, col] == 0 && 1 <= num <= 9
    modifies board
    ensures ok ==> Filled(old(Snapshot(board)), Snapshot(board), true)
    ensures !ok ==> Snapshot(board) == old(Snapshot(board))
    ensures !ok ==> RuledOut(old(Snapshot(board)), row, col, num)
    decreases |ZeroCells(Snapshot(board))|, 0
  {
    ghost var g := Snapshot(board);
    var valid := IsValid(board, num, row, col);
    if !valid {
      NoSolutionWithRejectedDigit(g, row, col, num);
      return false;
    }
    SetCell(board, row, col, num);
    ZeroCellsAfterPlacement(g, row, col, num);
    ok := FillBoard(board);
    if ok {
      FilledThroughPlacement(g, row, col, num, Snapshot(board));
      return;
    }
    NoSolutionWithFailedDigit(g, row, col, num, Snapshot(board));
    SetCell(board, row, col, 0);
    UndoPlacement(g, row, col, num);
  }

  lemma FilledWhenFull(g: Grid)
    requires IsGrid(g) && Full(g)
    ensures Filled(g, g, true)
  {
  }

  /** A successful search after placing an accepted digit at the empty cell
      (r, c) is a successful search from the board before the placement. */
  lemma FilledThroughPlacement(g: Grid, r: int, c: int, num: int, f: Grid)
    requires IsGrid(g) && InRange(r, c) && g[r][c] == 0
    requires 1 <= num <= 9 && Allowed(g, num, r, c)
    requires Filled(Set(g, r, c, num), f, true)
    ensures Filled(g, f, true)
  {
    ExtendsThroughPlacement(g, r, c, num, f);
    if IsPartial(g) {
      PlacementKeepsPartial(g, r, c, num);
    }
  }

  /** Once every digit is ruled out at an empty cell, failing and leaving the
      board as it was is the right answer. */
  lemma FilledWhenExhausted(g: Grid, r: int, c: int, nums: seq<int>)
    requires IsGrid(g) && InRange(r, c)
    requires forall d :: 1 <= d <= 9 ==> d in nums
    requires AllRuledOut(g, r, c, nums)
    ensures Filled(g, g, false)
  {
    SolutionDigitListed(g, r, c, nums);
  }

  /** Whatever digit a solution has at (r, c), the list of all nine digits includes it. */
  lemma SolutionDigitListed(g: Grid, r: int, c: int, nums: seq<int>)
    requires IsGrid(g) && InRange(r, c)
    requires forall d :: 1 <= d <= 9 ==> d in nums
    ensures forall s :: IsSolutionOf(s, g) ==> s[r][c] in nums
  {
    forall s | IsSolutionOf(s, g) ensures s[r][c] in nums {
      assert 1 <= s[r][c] <= 9;
    }
  }

  /** The order in which fillBoard tries the digits: shuffle([1, 2, ..., 9]).
      It holds nine digits and each of 1-9 occurs in it. */
  method ShuffledDigits() returns (nums: seq<int>)
    ensures |nums| == 9
    ensures forall k :: 0 <= k < |nums| ==> 1 <= nums[k] <= 9
    ensures forall d :: 1 <= d <= 9 ==> d in nums
  {
    var digits := seq(9, i => i + 1);
    nums := Shuffle(digits);
    PermutationSameMembers(digits, nums);
    forall k | 0 <= k < |nums| ensures 1 <= nums[k] <= 9 {
      assert nums[k] in digits;
      var i :| 0 <= i < 9 && digits[i] == nums[k];
    }
    forall d | 1 <= d <= 9 ensures d in nums {
      assert digits[d - 1] == d;
    }
  }

  /** No solution of g has the digit d at (r, c). */
  ghost predicate RuledOut(g: Grid, r: int, c: int, d: int)
    requires InRange(r, c)
  {
    forall s :: IsSolutionOf(s, g) ==> s[r][c] != d
  }

  /** No solution of g has any of the digits ds at (r, c). */
  ghost predicate AllRuledOut(g: Grid, r: int, c: int, ds: seq<int>)
    requires InRange(r, c)
  {
    forall m :: 0 <= m < |ds| ==> RuledOut(g, r, c, ds[m])
  }

  lemma RuledOutOneMore(g: Grid, r: int, c: int, nums: seq<int>, k: int)
    requires InRange(r, c) && 0 <= k < |nums|
    requires AllRuledOut(g, r, c, nums[..k]) && RuledOut(g, r, c, nums[k])
    ensures AllRuledOut(g, r, c, nums[..k + 1])
  {
    assert nums[..k + 1] == nums[..k] + [nums[k]];
  }

  /** A digit that isValid rejects at an empty cell is no solution's digit there. */
  lemma NoSolutionWithRejectedDigit(g: Grid, r: int, c: int, num: int)
    requires IsGrid(g) && InRange(r, c) && g[r][c] == 0 && !Allowed(g, num, r, c)
    ensures RuledOut(g, r, c, num)
  {
    forall s | IsSolutionOf(s, g) ensures s[r][c] != num {
      SolutionDigitAllowed(s, g, r, c);
    }
  }

  /** When the search after placing num at (r, c) fails, no solution has num there. */
  lemma NoSolutionWithFailedDigit(g: Grid, r: int, c: int, num: int, f: Grid)
    requires IsGrid(g) && InRange(r, c) && g[r][c] == 0
    requires Filled(Set(g, r, c, num), f, false)
    ensures RuledOut(g, r, c, num)
  {
    forall s | IsSolutionOf(s, g) ensures s[r][c] != num {
      if s[r][c] == num {
        SolutionOfPlacement(s, g, r, c);
      }
    }
  }

  /** The push loop of removeNumbers: all 81 coordinates, row by row. */
  method Coordinates() returns (cells: seq<Coord>)
    ensures cells == Enumeration()
  {
    ghost var all := Enumeration();
    cells := [];
    for i := 0 to 9
      invariant cells == all[..9 * i]
    {
      for j := 0 to 9
        invariant cells == all[..9 * i + j]
      {
        assert all[9 * i + j] == (i, j);
        assert all[..9 * i + j + 1] == all[..9 * i + j] + [(i, j)];
        cells := cells + [(i, j)];
      }
    }
  }

  /** The list removeNumbers clears cells from: the 81 coordinates, shuffled.
      Each cell of the board occurs in it exactly once. */
  method ShuffledCoordinates() returns (cells: seq<Coord>)
    ensures |cells| == 81 && Distinct(cells)
    ensures forall k :: 0 <= k < |cells| ==> cells[k] in AllCells()
  {
    cells := Coordinates();
    EnumerationCoversAll();
    ghost var all := cells;
    cells := Shuffle(cells);
    PermutationSameMembers(all, cells);
    PermutationKeepsDistinct(all, cells);
    forall k | 0 <= k < |cells| ensures cells[k] in AllCells() {
      assert cells[k] in cells;
    }
  }

  /** removeNumbers: lists the 81 coordinates, shuffles them and sets the
      first `count` of them to 0 (none when count is negative). Returns, as a proof-only value, the set of
      cells it cleared: exactly `count` different cells, and nothing else
      changes. */
  method RemoveNumbers(board: array2<int>, count: int) returns (ghost cleared: set<Coord>)
    requires IsBoard(board) && count <= 81
    modifies board
    ensures cleared <= AllCells() && |cleared| == if count < 0 then 0 else count
    ensures Snapshot(board) == ClearCells(old(Snapshot(board)), cleared)
  {
    var cells := ShuffledCoordinates();
    ghost var g := Snapshot(board);
    var k := 0;
    while k < count
      invariant 0 <= k <= if count < 0 then 0 else count
      invariant forall i, j :: InRange(i, j) ==>
        board[i, j] == if (i, j) in cells[..k] then 0 else g[i][j]
    {
      var (row, col) := cells[k];
      assert cells[k] in AllCells();
      board[row, col] := 0;
      assert cells[..k + 1] == cells[..k] + [(row, col)];
      k := k + 1;
    }
    cleared := set p | p in cells[..k];
    assert Distinct(cells[..k]);
    DistinctCard(cells[..k]);
    SameCells(Snapshot(board), ClearCells(g, cleared));
  }

  /** generateSudoku: a solved board and, separately, the puzzle made from a
      copy of it by removeNumbers(puzzle, 60). Every digit left in the puzzle
      is the solution's, 60 cells are empty and 21 digits are given. */
  method GenerateSudoku() returns (solution: array2<int>, puzzle: array2<int>)
    ensures fresh(solution) && fresh(puzzle) && puzzle != solution
    ensures IsBoard(solution) && IsBoard(puzzle)
    ensures IsSolved(Snapshot(solution))
    ensures Agrees(Snapshot(puzzle), Snapshot(solution))
    ensures |ZeroCells(Snapshot(puzzle))| == RemovalCount
    ensures |AllCells() - ZeroCells(Snapshot(puzzle))| == 81 - RemovalCount
  {
    solution := CreateEmptyBoard();
    EmptyGridSolvable();
    EmptyGridIsPartial();
    var _ := FillBoard(solution);
    puzzle := CopyBoard(solution);
    ghost var cleared := RemoveNumbers(puzzle, RemovalCount);
    ClearFullGrid(Snapshot(solution), cleared);
    GivenCount(Snapshot(puzzle));
  }
}
