/** The pure view of a Sudoku board: a 9x9 grid of integers in which 0 marks an
    empty cell, and the row, column and 3x3-box rules a grid has to keep.
    Boards that the generator changes in place are arrays (module Board); every
    property of them is stated on the grid they hold at that moment. */
module Grid {

  datatype Option<T> = None | Some(value: T)

  /** A (row, column) coordinate. */
  type Coord = (int, int)

  type Grid = seq<seq<int>>

  predicate InRange(i: int, j: int)
  {
    0 <= i < 9 && 0 <= j < 9
  }

  predicate IsGrid(g: Grid)
  {
    |g| == 9 && forall i :: 0 <= i < 9 ==> |g[i]| == 9
  }

  /** The grid with cell (r, c) set to v. */
  function Set(g: Grid, r: int, c: int, v: int): (h: Grid)
    requires IsGrid(g) && InRange(r, c)
    ensures IsGrid(h)
  {
    g[r := g[r][c := v]]
  }

  /** The grid of createEmptyBoard: nine rows of nine zeros. */
  function EmptyGrid(): (g: Grid)
    ensures IsGrid(g)
  {
    seq(9, _ => seq(9, _ => 0))
  }

  /** The grid with every listed cell set to 0, as removeNumbers leaves it. */
  function ClearCells(g: Grid, cleared: set<Coord>): (h: Grid)
    requires IsGrid(g)
    ensures IsGrid(h)
  {
    seq(9, i requires 0 <= i < 9 =>
      seq(9, j requires 0 <= j < 9 => if (i, j) in cleared then 0 else g[i][j]))
  }

  ghost function AllCells(): set<Coord>
  {
    set i, j | 0 <= i < 9 && 0 <= j < 9 :: (i, j)
  }

  ghost function ZeroCells(g: Grid): set<Coord>
    requires IsGrid(g)
  {
    set i, j | 0 <= i < 9 && 0 <= j < 9 && g[i][j] == 0 :: (i, j)
  }

  /** No cell is empty. */
  ghost predicate Full(g: Grid)
    requires IsGrid(g)
  {
    forall i, j :: InRange(i, j) ==> g[i][j] != 0
  }

  /** Two cells share a row, a column or a 3x3 box. */
  predicate SameUnit(r1: int, c1: int, r2: int, c2: int)
  {
    r1 == r2 || c1 == c2 || (r1 / 3 == r2 / 3 && c1 / 3 == c2 / 3)
  }

  /** No two different cells of one row, column or box hold the same non-zero value. */
  ghost predicate NoConflict(g: Grid)
    requires IsGrid(g)
  {
    forall r1, c1, r2, c2 ::
      InRange(r1, c1) && InRange(r2, c2) && (r1, c1) != (r2, c2) &&
      SameUnit(r1, c1, r2, c2) && g[r1][c1] != 0
      ==> g[r1][c1] != g[r2][c2]
  }

  /** A board in play: values 0-9 and no conflict among its digits. */
  ghost predicate IsPartial(g: Grid)
  {
    IsGrid(g) && (forall i, j :: InRange(i, j) ==> 0 <= g[i][j] <= 9) && NoConflict(g)
  }

  /** A solved Sudoku: every cell holds a digit 1-9 and no unit repeats a digit. */
  ghost predicate IsSolved(g: Grid)
  {
    IsGrid(g) && (forall i, j :: InRange(i, j) ==> 1 <= g[i][j] <= 9) && NoConflict(g)
  }

  /** Every non-zero cell of p holds the same value in g. */
  ghost predicate Agrees(p: Grid, g: Grid)
    requires IsGrid(p) && IsGrid(g)
  {
    forall i, j :: InRange(i, j) && p[i][j] != 0 ==> p[i][j] == g[i][j]
  }

  /** s is a solved Sudoku that keeps every digit already placed in g. */
  ghost predicate IsSolutionOf(s: Grid, g: Grid)
  {
    IsGrid(g) && IsSolved(s) && Agrees(g, s)
  }

  /** h differs from g only in cells that were empty in g and now hold a digit. */
  ghost predicate Extends(g: Grid, h: Grid)
    requires IsGrid(g) && IsGrid(h)
  {
    forall i, j :: InRange(i, j) ==>
      h[i][j] == g[i][j] || (g[i][j] == 0 && 1 <= h[i][j] <= 9)
  }

  /** (r, c) is the first empty cell of g in row-major order. */
  ghost predicate IsFirstEmpty(g: Grid, r: int, c: int)
    requires IsGrid(g)
  {
    InRange(r, c) && g[r][c] == 0 &&
    forall i, j :: InRange(i, j) && (i < r || (i == r && j < c)) ==> g[i][j] != 0
  }

  /** The three scans of isValid: num is absent from row `row`, from column `col`
      and from the 3x3 box whose top-left cell is (row / 3 * 3, col / 3 * 3). */
  ghost predicate Allowed(g: Grid, num: int, row: int, col: int)
    requires IsGrid(g) && InRange(row, col)
  {
    (forall j :: 0 <= j < 9 ==> g[row][j] != num) &&
    (forall i :: 0 <= i < 9 ==> g[i][col] != num) &&
    (forall i, j :: row / 3 * 3 <= i < row / 3 * 3 + 3 && col / 3 * 3 <= j < col / 3 * 3 + 3 ==>
      g[i][j] != num)
  }

  // ---------------------------------------------------------------------------
  // Rows, columns and boxes as sequences of nine cells

  function Row(g: Grid, r: int): seq<int>
    requires IsGrid(g) && 0 <= r < 9
  {
    g[r]
  }

  function Column(g: Grid, c: int): seq<int>
    requires IsGrid(g) && 0 <= c < 9
  {
    seq(9, i requires 0 <= i < 9 => g[i][c])
  }

  /** Box b (0-8, numbered row-major), its cells listed row-major. */
  function Box(g: Grid, b: int): seq<int>
    requires IsGrid(g) && 0 <= b < 9
  {
    seq(9, k requires 0 <= k < 9 => g[b / 3 * 3 + k / 3][b % 3 * 3 + k % 3])
  }

  /** Nine cells that hold each digit 1-9 exactly once. */
  ghost predicate IsDigitPermutation(u: seq<int>)
  {
    |u| == 9 &&
    (forall k :: 0 <= k < 9 ==> 1 <= u[k] <= 9) &&
    (forall d :: 1 <= d <= 9 ==> d in u) &&
    (forall k1, k2 :: 0 <= k1 < k2 < 9 ==> u[k1] != u[k2])
  }

  ghost predicate Distinct<T>(s: seq<T>)
  {
    forall k1, k2 :: 0 <= k1 < k2 < |s| ==> s[k1] != s[k2]
  }

  // ---------------------------------------------------------------------------
  // Helpers

  lemma SameCells(g: Grid, h: Grid)
    requires IsGrid(g) && IsGrid(h)
    requires forall i, j :: InRange(i, j) ==> g[i][j] == h[i][j]
    ensures g == h
  {
    forall i | 0 <= i < 9
      ensures g[i] == h[i]
    {
      assert forall j :: 0 <= j < 9 ==> g[i][j] == h[i][j];
    }
  }

  lemma {:induction false} DistinctCard<T>(s: seq<T>)
    requires Distinct(s)
    ensures |set x | x in s| == |s|
  {
    if s != [] {
      var rest := s[1..];
      assert Distinct(rest) by {
        forall k1, k2 | 0 <= k1 < k2 < |rest| ensures rest[k1] != rest[k2] {
          assert rest[k1] == s[k1 + 1] && rest[k2] == s[k2 + 1];
        }
      }
      DistinctCard(rest);
      assert (set x | x in s) == {s[0]} + (set x | x in rest);
      assert s[0] !in (set x | x in rest);
    }
  }

  lemma SubsetCard<T>(a: set<T>, b: set<T>)
    requires a <= b
    ensures |a| <= |b|
  {
    assert b == a + (b - a);
    assert a * (b - a) == {};
  }

  /** Two orderings of the same multiset have the same length and members. */
  lemma PermutationSameMembers<T>(a: seq<T>, b: seq<T>)
    requires multiset(a) == multiset(b)
    ensures |b| == |a|
    ensures forall x :: x in b <==> x in a
  {
    assert |a| == |multiset(a)| && |b| == |multiset(b)|;
    forall x ensures x in b <==> x in a {
      assert x in b <==> x in multiset(b);
      assert x in a <==> x in multiset(a);
    }
  }

  /** A reordering of a list without repeats has no repeats. */
  lemma PermutationKeepsDistinct<T>(a: seq<T>, b: seq<T>)
    requires Distinct(a) && multiset(a) == multiset(b)
    ensures Distinct(b)
  {
    forall k1, k2 | 0 <= k1 < k2 < |b| ensures b[k1] != b[k2] {
      if b[k1] == b[k2] {
        var x := b[k1];
        assert b == b[..k2] + b[k2..];
        assert x in b[..k2] && x in b[k2..];
        assert multiset(b)[x] == multiset(b[..k2])[x] + multiset(b[k2..])[x];
        DistinctOnce(a, x);
        assert false;
      }
    }
  }

  lemma {:induction false} DistinctOnce<T>(a: seq<T>, x: T)
    requires Distinct(a)
    ensures multiset(a)[x] <= 1
  {
    if a != [] {
      var rest := a[1..];
      assert a == [a[0]] + rest;
      assert Distinct(rest) by {
        forall k1, k2 | 0 <= k1 < k2 < |rest| ensures rest[k1] != rest[k2] {
          assert rest[k1] == a[k1 + 1] && rest[k2] == a[k2 + 1];
        }
      }
      DistinctOnce(rest, x);
      if x == a[0] {
        assert x !in rest;
      }
    }
  }

  /** Pigeonhole: nine different digits 1-9 include every digit. */
  lemma DistinctDigitsCover(u: seq<int>, d: int)
    requires |u| == 9 && forall k :: 0 <= k < 9 ==> 1 <= u[k] <= 9
    requires Distinct(u)
    requires 1 <= d <= 9
    ensures d in u
  {
    if d !in u {
      var values := set x | x in u;
      var others := {1, 2, 3, 4, 5, 6, 7, 8, 9} - {d};
      assert values <= others;
      DistinctCard(u);
      SubsetCard(values, others);
      assert false;
    }
  }

  lemma DigitPermutationFrom(u: seq<int>)
    requires |u| == 9 && forall k :: 0 <= k < 9 ==> 1 <= u[k] <= 9
    requires Distinct(u)
    ensures IsDigitPermutation(u)
  {
    forall d | 1 <= d <= 9 ensures d in u {
      DistinctDigitsCover(u, d);
    }
  }

  // ---------------------------------------------------------------------------
  // Properties of the rules

  /** The three scans of isValid together visit exactly the cells that share a
      row, a column or a box with (r, c). */
  lemma AllowedIffNoPeer(g: Grid, num: int, r: int, c: int)
    requires IsGrid(g) && InRange(r, c)
    ensures Allowed(g, num, r, c) <==>
      forall i, j :: InRange(i, j) && SameUnit(r, c, i, j) ==> g[i][j] != num
  {
    var r0, c0 := r / 3 * 3, c / 3 * 3;
    if Allowed(g, num, r, c) {
      forall i, j | InRange(i, j) && SameUnit(r, c, i, j) ensures g[i][j] != num {
        if i != r && j != c {
          assert r0 <= i < r0 + 3 && c0 <= j < c0 + 3;
        }
      }
    } else if !(forall i, j :: r0 <= i < r0 + 3 && c0 <= j < c0 + 3 ==> g[i][j] != num) {
      var i, j :| r0 <= i < r0 + 3 && c0 <= j < c0 + 3 && g[i][j] == num;
      assert InRange(i, j) && SameUnit(r, c, i, j);
    }
  }

  /** Placing a digit that isValid accepts into an empty cell keeps a board
      conflict-free; this is why every board fillBoard builds stays legal. */
  lemma PlacementKeepsPartial(g: Grid, r: int, c: int, num: int)
    requires IsPartial(g) && InRange(r, c) && g[r][c] == 0
    requires 1 <= num <= 9 && Allowed(g, num, r, c)
    ensures IsPartial(Set(g, r, c, num))
  {
    AllowedIffNoPeer(g, num, r, c);
    var h := Set(g, r, c, num);
    forall r1, c1, r2, c2 |
      InRange(r1, c1) && InRange(r2, c2) && (r1, c1) != (r2, c2) &&
      SameUnit(r1, c1, r2, c2) && h[r1][c1] != 0
      ensures h[r1][c1] != h[r2][c2]
    {
      if (r1, c1) == (r, c) {
        assert g[r2][c2] != num;
      } else if (r2, c2) == (r, c) {
        assert SameUnit(r, c, r1, c1);
      } else {
        assert h[r1][c1] == g[r1][c1] && h[r2][c2] == g[r2][c2];
      }
    }
  }

  /** The digit a solution puts in an empty cell passes isValid on the board:
      which is why backtracking over all nine digits never misses a solution. */
  lemma SolutionDigitAllowed(s: Grid, g: Grid, r: int, c: int)
    requires IsSolutionOf(s, g) && InRange(r, c) && g[r][c] == 0
    ensures Allowed(g, s[r][c], r, c)
  {
    AllowedIffNoPeer(g, s[r][c], r, c);
    forall i, j | InRange(i, j) && SameUnit(r, c, i, j) ensures g[i][j] != s[r][c] {
      if g[i][j] != 0 && (i, j) != (r, c) {
        assert s[i][j] == g[i][j];
      }
    }
  }

  /** A solution of g with the digit d in the empty cell (r, c) is a solution
      of g with d placed there. */
  lemma SolutionOfPlacement(s: Grid, g: Grid, r: int, c: int)
    requires IsSolutionOf(s, g) && InRange(r, c) && g[r][c] == 0
    ensures IsSolutionOf(s, Set(g, r, c, s[r][c]))
  {
    var h := Set(g, r, c, s[r][c]);
    forall i, j | InRange(i, j) && h[i][j] != 0 ensures h[i][j] == s[i][j] {
      if (i, j) != (r, c) {
        assert h[i][j] == g[i][j];
      }
    }
  }

  /** What a successful search after placing num at the empty cell (r, c)
      gives about the board before the placement. */
  lemma ExtendsThroughPlacement(g: Grid, r: int, c: int, num: int, f: Grid)
    requires IsGrid(g) && IsGrid(f) && InRange(r, c) && g[r][c] == 0 && 1 <= num <= 9
    requires Extends(Set(g, r, c, num), f)
    ensures Extends(g, f)
  {
    var h := Set(g, r, c, num);
    forall i, j | InRange(i, j) ensures f[i][j] == g[i][j] || (g[i][j] == 0 && 1 <= f[i][j] <= 9) {
      if (i, j) != (r, c) {
        assert h[i][j] == g[i][j];
      }
    }
  }

  /** Resetting a placed cell to 0 restores the board, as fillBoard does after a failed branch. */
  lemma UndoPlacement(g: Grid, r: int, c: int, v: int)
    requires IsGrid(g) && InRange(r, c) && g[r][c] == 0
    ensures Set(Set(g, r, c, v), r, c, 0) == g
  {
    SameCells(Set(Set(g, r, c, v), r, c, 0), g);
  }

  /** On a solved board with one cell cleared, isValid accepts the digit that
      was there and rejects every other digit 1-9. */
  lemma SolvedCellUnique(s: Grid, r: int, c: int, d: int)
    requires IsSolved(s) && InRange(r, c) && 1 <= d <= 9
    ensures Allowed(Set(s, r, c, 0), d, r, c) <==> d == s[r][c]
  {
    var h := Set(s, r, c, 0);
    AllowedIffNoPeer(h, d, r, c);
    if d == s[r][c] {
      forall i, j | InRange(i, j) && SameUnit(r, c, i, j) ensures h[i][j] != d {
        if (i, j) != (r, c) {
          assert h[i][j] == s[i][j];
        }
      }
    } else {
      SolvedRow(s, r);
      assert d in Row(s, r);
      var j :| 0 <= j < 9 && Row(s, r)[j] == d;
      assert h[r][j] == d;
    }
  }

  lemma SolvedRow(s: Grid, r: int)
    requires IsSolved(s) && 0 <= r < 9
    ensures IsDigitPermutation(Row(s, r))
  {
    var u := Row(s, r);
    forall k1, k2 | 0 <= k1 < k2 < 9 ensures u[k1] != u[k2] {
      assert SameUnit(r, k1, r, k2);
    }
    DigitPermutationFrom(u);
  }

  lemma SolvedColumn(s: Grid, c: int)
    requires IsSolved(s) && 0 <= c < 9
    ensures IsDigitPermutation(Column(s, c))
  {
    var u := Column(s, c);
    forall k1, k2 | 0 <= k1 < k2 < 9 ensures u[k1] != u[k2] {
      assert SameUnit(k1, c, k2, c);
    }
    DigitPermutationFrom(u);
  }

  lemma SolvedBox(s: Grid, b: int)
    requires IsSolved(s) && 0 <= b < 9
    ensures IsDigitPermutation(Box(s, b))
  {
    var u := Box(s, b);
    forall k1, k2 | 0 <= k1 < k2 < 9 ensures u[k1] != u[k2] {
      BoxEntry(b, k1);
      BoxEntry(b, k2);
      assert SameUnit(b / 3 * 3 + k1 / 3, b % 3 * 3 + k1 % 3, b / 3 * 3 + k2 / 3, b % 3 * 3 + k2 % 3);
    }
    DigitPermutationFrom(u);
  }

  /** Entry k of box b is a cell of that box, and different entries are different cells. */
  lemma BoxEntry(b: int, k: int)
    requires 0 <= b < 9 && 0 <= k < 9
    ensures InRange(b / 3 * 3 + k / 3, b % 3 * 3 + k % 3)
    ensures (b / 3 * 3 + k / 3) / 3 == b / 3 && (b % 3 * 3 + k % 3) / 3 == b % 3
    ensures (b / 3 * 3 + k / 3) % 3 == k / 3 && (b % 3 * 3 + k % 3) % 3 == k % 3
  {
  }

  /** Cell (r, c) is entry k = r % 3 * 3 + c % 3 of box b = r / 3 * 3 + c / 3. */
  lemma CellInBox(r: int, c: int, b: int, k: int)
    requires InRange(r, c) && b == r / 3 * 3 + c / 3 && k == r % 3 * 3 + c % 3
    ensures 0 <= b < 9 && 0 <= k < 9
    ensures b / 3 * 3 + k / 3 == r && b % 3 * 3 + k % 3 == c
    ensures k / 3 == r % 3 && k % 3 == c % 3
  {
    assert b / 3 == r / 3 && b % 3 == c / 3;
  }

  /** A grid is a solved Sudoku exactly when each of its rows, columns and boxes
      holds every digit 1-9 once. */
  lemma SolvedIffUnitsArePermutations(s: Grid)
    requires IsGrid(s)
    ensures IsSolved(s) <==> UnitsArePermutations(s)
  {
    if IsSolved(s) {
      forall u | 0 <= u < 9
        ensures IsDigitPermutation(Row(s, u)) && IsDigitPermutation(Column(s, u)) &&
                IsDigitPermutation(Box(s, u))
      {
        SolvedRow(s, u);
        SolvedColumn(s, u);
        SolvedBox(s, u);
      }
    } else if UnitsArePermutations(s) {
      PermutedUnitsSolved(s);
    }
  }

  ghost predicate UnitsArePermutations(s: Grid)
    requires IsGrid(s)
  {
    forall u :: 0 <= u < 9 ==>
      IsDigitPermutation(Row(s, u)) && IsDigitPermutation(Column(s, u)) &&
      IsDigitPermutation(Box(s, u))
  }

  lemma PermutedUnitsSolved(s: Grid)
    requires IsGrid(s) && UnitsArePermutations(s)
    ensures IsSolved(s)
  {
    forall i, j | InRange(i, j) ensures 1 <= s[i][j] <= 9 {
      assert IsDigitPermutation(Row(s, i));
      assert Row(s, i)[j] == s[i][j];
    }
    forall r1, c1, r2, c2 |
      InRange(r1, c1) && InRange(r2, c2) && (r1, c1) != (r2, c2) &&
      SameUnit(r1, c1, r2, c2) && s[r1][c1] != 0
      ensures s[r1][c1] != s[r2][c2]
    {
      PeersDiffer(s, r1, c1, r2, c2);
    }
  }

  lemma PeersDiffer(s: Grid, r1: int, c1: int, r2: int, c2: int)
    requires IsGrid(s) && UnitsArePermutations(s)
    requires InRange(r1, c1) && InRange(r2, c2) && (r1, c1) != (r2, c2)
    requires SameUnit(r1, c1, r2, c2)
    ensures s[r1][c1] != s[r2][c2]
  {
    if r1 == r2 {
      var u := Row(s, r1);
      assert IsDigitPermutation(u);
      assert u[c1] == s[r1][c1] && u[c2] == s[r2][c2];
      if c1 > c2 { assert u[c2] != u[c1]; }
    } else if c1 == c2 {
      var u := Column(s, c1);
      assert IsDigitPermutation(u);
      assert u[r1] == s[r1][c1] && u[r2] == s[r2][c2];
      if r1 > r2 { assert u[r2] != u[r1]; }
    } else {
      BoxPeersDiffer(s, r1, c1, r2, c2);
    }
  }

  lemma BoxPeersDiffer(s: Grid, r1: int, c1: int, r2: int, c2: int)
    requires IsGrid(s) && UnitsArePermutations(s)
    requires InRange(r1, c1) && InRange(r2, c2) && (r1, c1) != (r2, c2)
    requires r1 / 3 == r2 / 3 && c1 / 3 == c2 / 3
    ensures s[r1][c1] != s[r2][c2]
  {
    var b := r1 / 3 * 3 + c1 / 3;
    assert r2 / 3 * 3 + c2 / 3 == b;
    var u := Box(s, b);
    assert IsDigitPermutation(u);
    var k1, k2 := r1 % 3 * 3 + c1 % 3, r2 % 3 * 3 + c2 % 3;
    CellInBox(r1, c1, b, k1);
    CellInBox(r2, c2, b, k2);
    assert u[k1] == s[r1][c1];
    assert u[k2] == s[r2][c2];
    assert k1 != k2;
    if k1 > k2 { assert u[k2] != u[k1]; }
    if k1 < k2 { assert u[k1] != u[k2]; }
  }

  // ---------------------------------------------------------------------------
  // Empty cells and their count

  lemma ZeroCellsAfterPlacement(g: Grid, r: int, c: int, v: int)
    requires IsGrid(g) && InRange(r, c) && g[r][c] == 0 && v != 0
    ensures (r, c) in ZeroCells(g)
    ensures ZeroCells(Set(g, r, c, v)) == ZeroCells(g) - {(r, c)}
    ensures |ZeroCells(Set(g, r, c, v))| == |ZeroCells(g)| - 1
  {
    var h := Set(g, r, c, v);
    forall p | p in ZeroCells(g) - {(r, c)} ensures p in ZeroCells(h) {
      assert h[p.0][p.1] == g[p.0][p.1];
    }
  }

  lemma FullIffNoZeroCells(g: Grid)
    requires IsGrid(g)
    ensures Full(g) <==> ZeroCells(g) == {}
  {
    if !Full(g) {
      var i, j :| InRange(i, j) && g[i][j] == 0;
      assert (i, j) in ZeroCells(g);
    }
  }

  /** Clearing a set of cells of a full grid leaves exactly those cells empty,
      and every remaining digit is the full grid's. */
  lemma ClearFullGrid(g: Grid, cleared: set<Coord>)
    requires IsGrid(g) && Full(g) && cleared <= AllCells()
    ensures ZeroCells(ClearCells(g, cleared)) == cleared
    ensures Agrees(ClearCells(g, cleared), g)
  {
    var h := ClearCells(g, cleared);
    forall p | p in cleared ensures p in ZeroCells(h) {
      assert p in AllCells();
      var i, j :| 0 <= i < 9 && 0 <= j < 9 && p == (i, j);
      assert h[i][j] == 0;
    }
  }

  /** Clearing no cell changes nothing. */
  lemma ClearNothing(g: Grid, cleared: set<Coord>)
    requires IsGrid(g) && |cleared| == 0
    ensures ClearCells(g, cleared) == g
  {
    SameCells(ClearCells(g, cleared), g);
  }

  /** Clearing 81 different cells empties the whole grid. */
  lemma ClearEveryCell(g: Grid, cleared: set<Coord>)
    requires IsGrid(g) && cleared <= AllCells() && |cleared| == 81
    ensures ClearCells(g, cleared) == EmptyGrid()
  {
    EnumerationCoversAll();
    forall i, j | InRange(i, j) ensures (i, j) in cleared {
      if (i, j) !in cleared {
        assert (i, j) in AllCells();
        SubsetCard(cleared, AllCells() - {(i, j)});
      }
    }
    SameCells(ClearCells(g, cleared), EmptyGrid());
  }

  /** The 81 coordinates in row-major order, as removeNumbers lists them. */
  function Enumeration(): (cells: seq<Coord>)
    ensures |cells| == 81
  {
    seq(81, k => (k / 9, k % 9))
  }

  lemma EnumerationCoversAll()
    ensures Distinct(Enumeration())
    ensures (set p | p in Enumeration()) == AllCells()
    ensures |AllCells()| == 81
  {
    var e := Enumeration();
    forall p | p in AllCells() ensures p in e {
      var i, j :| 0 <= i < 9 && 0 <= j < 9 && p == (i, j);
      assert e[9 * i + j] == p;
    }
    DistinctCard(e);
  }

  /** The cells that still hold a digit number 81 less the empty ones. */
  lemma GivenCount(g: Grid)
    requires IsGrid(g)
    ensures |AllCells() - ZeroCells(g)| == 81 - |ZeroCells(g)|
  {
    var all, zeros := AllCells(), ZeroCells(g);
    EnumerationCoversAll();
    assert zeros <= all;
    assert all == (all - zeros) + zeros;
    assert (all - zeros) * zeros == {};
  }

  // ---------------------------------------------------------------------------
  // A solution of the empty grid

  /** The shifted pattern: row r is 1-9 rotated by Offset(r). */
  function Pattern(): (g: Grid)
    ensures IsGrid(g)
  {
    seq(9, r => seq(9, c => (Offset(r) + c) % 9 + 1))
  }

  lemma ShiftDistinct(x: int, y: int, k: int)
    requires 0 <= x < 9 && 0 <= y < 9 && x != y
    ensures (x + k) % 9 != (y + k) % 9
  {
  }

  lemma PatternIsSolved()
    ensures IsSolved(Pattern())
  {
    var g := Pattern();
    forall r1, c1, r2, c2 |
      InRange(r1, c1) && InRange(r2, c2) && (r1, c1) != (r2, c2) &&
      SameUnit(r1, c1, r2, c2) && g[r1][c1] != 0
      ensures g[r1][c1] != g[r2][c2]
    {
      PatternPeersDiffer(r1, c1, r2, c2);
    }
  }

  lemma PatternPeersDiffer(r1: int, c1: int, r2: int, c2: int)
    requires InRange(r1, c1) && InRange(r2, c2) && (r1, c1) != (r2, c2)
    requires SameUnit(r1, c1, r2, c2)
    ensures Pattern()[r1][c1] != Pattern()[r2][c2]
  {
    var o1, o2 := Offset(r1), Offset(r2);
    assert Pattern()[r1][c1] == (o1 + c1) % 9 + 1;
    assert Pattern()[r2][c2] == (o2 + c2) % 9 + 1;
    if r1 == r2 {
      ShiftDistinct(c1, c2, o1);
    } else if c1 == c2 {
      OffsetInjective(r1, r2);
      ShiftDistinct(o1, o2, c1);
    } else {
      var x, y := 3 * (r1 % 3) + c1 % 3, 3 * (r2 % 3) + c2 % 3;
      var k := r1 / 3 + 3 * (c1 / 3);
      assert o1 + c1 == x + k && o2 + c2 == y + k;
      ShiftDistinct(x, y, k);
    }
  }

  /** Row r of the pattern starts at this offset. */
  function Offset(r: int): int
  {
    3 * (r % 3) + r / 3
  }

  /** Different rows start at different offsets 0-8. */
  lemma OffsetInjective(r1: int, r2: int)
    requires 0 <= r1 < 9 && 0 <= r2 < 9 && r1 != r2
    ensures 0 <= Offset(r1) < 9 && 0 <= Offset(r2) < 9 && Offset(r1) != Offset(r2)
  {
    assert r1 == 3 * (r1 / 3) + r1 % 3 && r2 == 3 * (r2 / 3) + r2 % 3;
  }

  lemma EmptyGridIsPartial()
    ensures IsPartial(EmptyGrid())
  {
    var g := EmptyGrid();
    assert forall i, j :: InRange(i, j) ==> g[i][j] == 0;
  }

  /** The empty grid has a solution, so a complete search from it succeeds. */
  lemma EmptyGridSolvable()
    ensures IsSolutionOf(Pattern(), EmptyGrid())
  {
    PatternIsSolved();
  }
}
