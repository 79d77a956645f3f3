# Sudoku generator

A model of the board logic of a small Sudoku web page (`script.js`). The page
generates a puzzle in three steps:

- it fills an empty 9x9 board to a complete solution by randomised
  backtracking (`fillBoard`, which uses `findEmptyCell`, `isValid` and
  `shuffle`);
- it deep-copies that board;
- it blanks 60 randomly chosen cells of the copy (`removeNumbers`).

The player's digits are checked against the puzzle with the same `isValid`.

The project has four modules:

- `Grid` (grid.dfy): the pure view of a board. It is a `seq<seq<int>>` of 9x9
  integers in which 0 marks an empty cell. The module defines the Sudoku rules
  (rows, columns, 3x3 boxes, conflicts, solved boards, solutions of a partial
  board) and proves the lemmas the generator's proofs rest on.
- `Board` (board.dfy): the board the page mutates, as an `array2<int>`. Two
  pieces live here:
  - `Snapshot`, the grid the board holds at a given moment;
  - `createEmptyBoard`, the deep copy of `generateSudoku`, and the single-cell
    assignment.
- `Validator` (validator.dfy): `isValid`, with its three scanning loops.
- `Generator` (generator.dfy): `shuffle`, `findEmptyCell`, `fillBoard`,
  `removeNumbers` and `generateSudoku`, as methods that change the board in
  place.

The contract of `fillBoard` is the predicate `Generator.Filled`. It says:

- only empty cells are written;
- a `false` answer leaves the board exactly as it was;
- a `true` answer leaves it full;
- a `true` answer is a solved Sudoku when the entry board had no conflict;
- the search is complete: whenever some solved Sudoku keeps the digits already
  on the board, the answer is `true`.

`generateSudoku` exploits completeness. The empty board has a solution (a
shifted pattern, `Grid.Pattern`), so the call from `generateSudoku` always
succeeds.

Two structural changes make the control flow explicit:

- The body of `fillBoard`'s digit loop (script.js:32-36) is the method
  `Generator.TryDigit`. `TryDigit` and `FillBoard` are mutually recursive, and
  the loop itself stays in `FillBoard`.
- `shuffle([1, ..., 9])` and the list-then-shuffle of `removeNumbers` are the
  methods `Generator.ShuffledDigits` and `Generator.ShuffledCoordinates`. Each
  calls `Shuffle` exactly where the source does.

## Model

| member | source | states |
|---|---|---|
| Board.CreateEmptyBoard | script.js:21-23 | a new 9x9 board in which every cell is 0; it holds the empty grid, whose empty cells are all 81 cells |
| Board.CopyBoard | script.js:15 | the copy is a new board, not the original, and holds exactly the original's cells |
| Board.SetCell | script.js:33 | `board[row][col] = v` changes that one cell and no other |
| Validator.IsValid | script.js:61-73 | true exactly when num occurs neither in the row, nor in the column, nor in the 3x3 box starting at (row / 3 * 3, col / 3 * 3); the board is not modified |
| Grid.AllowedIffNoPeer | script.js:61-73 | the three scans of isValid together visit exactly the cells that share a row, a column or a box with (row, col), in both directions |
| Generator.Shuffle | script.js:76-78 | the result holds the same elements with the same multiplicities as the argument |
| Generator.ShuffledDigits | script.js:30 | the digit order holds nine values, all in 1-9, and every digit 1-9 occurs in it |
| Generator.FindEmptyCell | script.js:53-58 | null exactly when no cell is 0; otherwise the cell found holds 0 and every cell before it in row-major order is non-zero |
| Grid.FullIffNoZeroCells | script.js:53-58 | a board has no 0 cell exactly when its set of empty cells is empty |
| Generator.FillBoard | script.js:26-39 | only 0 cells are written; on false the board is unchanged; on true it is full, and solved when the entry board was conflict-free; if any solution keeps the entry board's digits, the answer is true |
| Generator.TryDigit | script.js:32-36 | when the digit is placed and the recursive fill succeeds, the board is filled as FillBoard promises; otherwise the cell is back to 0, the board is unchanged and no solution of the board has that digit in that cell |
| Generator.FilledWhenFull | script.js:27-28 | a full board is already a correct answer `true`, left unchanged |
| Generator.FilledThroughPlacement | script.js:32-34 | a successful fill after placing an accepted digit into the first empty cell is a successful fill of the board before the placement |
| Generator.NoSolutionWithRejectedDigit | script.js:32 | a digit isValid rejects at an empty cell appears there in no solution |
| Generator.NoSolutionWithFailedDigit | script.js:33-35 | if the recursive fill after placing a digit fails, no solution has that digit in that cell |
| Generator.FilledWhenExhausted | script.js:31-38 | once every one of the nine digits is ruled out at the empty cell, there is no solution, so answering false and leaving the board unchanged is correct |
| Grid.PlacementKeepsPartial | script.js:32-33 | placing a digit 1-9 that isValid accepts into an empty cell of a conflict-free board keeps it conflict-free |
| Grid.SolutionDigitAllowed | script.js:32 | the digit that a solution has in an empty cell passes isValid on the board |
| Grid.SolutionOfPlacement | script.js:33-34 | a solution of the board is still a solution once its own digit is placed in the empty cell |
| Grid.ExtendsThroughPlacement | script.js:33-34 | if the fill after a placement only wrote empty cells, so did the fill of the board before it |
| Grid.UndoPlacement | script.js:35 | resetting a just-filled cell to 0 restores the board exactly |
| Grid.ZeroCellsAfterPlacement | script.js:33-34 | placing a digit removes exactly that cell from the empty cells, so each recursive call has one empty cell fewer |
| Grid.SolvedCellUnique | script.js:61-73 | on a solved board with one cell reset to 0, isValid accepts at that cell exactly the digit that was there |
| Grid.SolvedIffUnitsArePermutations | script.js:61-73 | a board is a solved Sudoku, with every cell 1-9 and no repeat in any row, column or box, exactly when each row, column and box holds each digit 1-9 once |
| Grid.EmptyGridIsPartial | script.js:22 | the empty board has no conflict |
| Grid.PatternIsSolved | script.js:14 | the shifted pattern is a solved Sudoku |
| Grid.EmptyGridSolvable | script.js:13-14 | the empty board has a solution, so fillBoard on it must succeed |
| Generator.Coordinates | script.js:43-44 | the push loop lists the 81 coordinates in row-major order |
| Grid.EnumerationCoversAll | script.js:44 | that list has no repeats and covers all 81 cells |
| Generator.ShuffledCoordinates | script.js:43-45 | the shuffled list has 81 entries, no repeats, and every entry is a cell of the board |
| Generator.RemoveNumbers | script.js:42-50 | for count <= 81, exactly max(count, 0) different cells are set to 0 and every other cell keeps its value |
| Grid.ClearFullGrid | script.js:46-49 | on a full board, the empty cells after clearing are exactly the cleared cells, and every digit left is the original one |
| Grid.ClearNothing | script.js:46 | with count 0 or less, the loop clears nothing and the board is unchanged |
| Grid.ClearEveryCell | script.js:46-49 | clearing 81 different cells empties the whole board |
| Grid.GivenCount | script.js:16-17 | the digits left in a board number 81 minus its empty cells |
| Generator.GenerateSudoku | script.js:12-18 | both boards are new and distinct; the solution is a solved Sudoku; every digit the puzzle keeps is the solution's; exactly 60 cells are empty and 21 digits are given |

## Left out

- The page itself is not modelled: the DOM lookups and the initial call (script.js:1-9), `renderBoard`, `handleCellInput` and the two button handlers (script.js:80-142). `handleCellInput` only calls `isValid`, which is modelled.
- The global variables `sudokuBoard` and `puzzleBoard` are not modelled. `Generator.GenerateSudoku` returns the two boards instead of assigning them.
- Generator.Shuffle: `arr.sort(() => Math.random() - 0.5)` is not modelled as a sort with a random comparator. The contract promises only some permutation of the argument, so it holds for any order the random comparator yields. Which permutation comes out, and how it is distributed, is not modelled.
- Generator.RemoveNumbers: requires count <= 81. For a larger count, `cells[i]` is undefined and destructuring it throws. The exception is not modelled.
- Generator.RemoveNumbers: the set of cleared cells is a proof-only out-parameter. The source returns nothing.
- Validator.IsValid: requires (row, col) to be a cell of the board. The generator and the page never call it otherwise, and the source does not handle other indices.
- Generator.GenerateSudoku: does not state that the puzzle has a unique solution. The comment at script.js:25 claims it, but no code checks it.
- The comment at script.js:16 says 31 digits are kept. The code blanks 60 of the 81 cells, so 21 digits are kept. The model follows the code: `Generator.GenerateSudoku` and `Grid.GivenCount` state 21.
- JavaScript arrays of arbitrary values generally are not modelled. Cells are unbounded integers, and a board is exactly 9x9.
