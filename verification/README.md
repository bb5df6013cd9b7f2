# Tetris board, modelled in Dafny

This project models the abstract Tetris `Board` of the CS108 Tetris app
(`Board.java`). The board is a width × height grid of filled/empty cells. It
keeps three counters in step with the grid:

- `widths[y]`: the number of filled cells in row `y`.
- `heights[x]`: one more than the topmost filled row of column `x`, or 0 if the column is empty.
- `maxHeight`: the largest column height.

It also keeps a one-level journal: a `committed` flag plus a snapshot of
the grid and the counters. The snapshot is taken at construction and at
every commit. `undo` goes back to it.

The model is functional. A `Board` is an immutable record
`Board(width, height, cur, prev, committed)`, where `cur` and `prev` are
`State(rows, widths, heights, maxHeight)` values. `place`, `clearRows`,
`commit` and `undo` are pure functions from board to board. The
cell-stamping loop, the row-clearing scan and `copyDown` are written as
recursion.

The grid is stored row by row: `rows[y][x]` is the cell in column `x` of
row `y`, and row 0 is the floor. The Java code stores it column by column
(`grid[x][y]`). Storing rows makes row removal a splice of a sequence.
`GetGrid(b, x, y)` still takes its arguments in the Java order.

The files:

- `accounting.dfy` (`Accounting`): the grid, the counters and the
  accounting invariant `Sane`. It also holds the facts about counts,
  column heights and maxima that the other modules use.
- `board.dfy` (`TetrisBoard`): the board record, its invariant `Valid`, the
  constructor and getters, and `sanityCheck` as a method with loops that is
  proved to decide `Sane`.
- `placement.dfy` (`Placement`): the abstract piece, `place` with its four
  outcomes, and `dropHeight`.
- `compaction.dfy` (`Compaction`): `copyDown`, the `clearRows` scan and
  recount, and the reference compaction `Compact` that it is proved to
  produce.
- `journal.dfy` (`Journal`): `backup`, `commit` and `undo`, and the
  place/clear/undo round trips.
- `render.dfy` (`Rendering`): `toString`.

The invariant `Valid(b)` says three things:

- `Sane(cur)`: the live counters agree with the live grid.
- `Sane(prev)`: the snapshot's counters agree with the snapshot's grid.
- A committed board has nothing pending: `cur == prev`.

The Java code checks `Sane` at run time in `sanityCheck` and throws
if it fails. Here it is proved to hold after every step: after each cell
stamp, after `clearRows` and after `undo`. So none of those checks can
throw.

## Model

| member | source | states |
|---|---|---|
| TetrisBoard.NewBoard | app/src/main/java/edu/stanford/cs108/tetris/Board.java:38-52 | a new board is valid and committed, every cell is empty, every row width and column height is 0, and the max height is 0 |
| TetrisBoard.GetGrid | app/src/main/java/edu/stanford/cs108/tetris/Board.java:146-157 | any position off the board reads as filled; on the board the result is the stored cell; on a valid board a cell at or above its column's height, or at or above the max height, reads as empty |
| TetrisBoard.GetMaxHeight | app/src/main/java/edu/stanford/cs108/tetris/Board.java:71-77 | on a valid board the max height is between 0 and the board height, no cell at or above it is filled, and when it is positive some column's height equals it |
| TetrisBoard.GetColumnHeight | app/src/main/java/edu/stanford/cs108/tetris/Board.java:127-134 | on a valid board the stored height of column x is one more than its topmost filled row, or 0 when the column is empty |
| TetrisBoard.GetRowWidth | app/src/main/java/edu/stanford/cs108/tetris/Board.java:137-143 | on a valid board the stored width of row y is the number of filled cells in that row, so it is between 0 and the board width |
| TetrisBoard.ScanColumn | app/src/main/java/edu/stanford/cs108/tetris/Board.java:90-96 | scanning one column bottom to top adds that column's cell to every row's running count and ends with the column's true height |
| TetrisBoard.SanityCheck | app/src/main/java/edu/stanford/cs108/tetris/Board.java:84-105 | the recount-and-compare check passes exactly when every stored row width, column height and the max height agree with the grid (the accounting invariant) |
| Accounting.SaneDetermined | app/src/main/java/edu/stanford/cs108/tetris/Board.java:84-105 | the counters are fixed by the grid: two states that both pass the sanity check and have the same grid are equal |
| Accounting.ColumnHeight | app/src/main/java/edu/stanford/cs108/tetris/Board.java:231-237 | the bottom-to-top scan that remembers the last filled row yields one more than the column's topmost filled row, or 0 |
| Accounting.MaxOf | app/src/main/java/edu/stanford/cs108/tetris/Board.java:229-240 | the running maximum that starts at 0 is at least every column height, is 0 or equal to one of them, and is never negative |
| Accounting.CountSet | app/src/main/java/edu/stanford/cs108/tetris/Board.java:197-198 | filling an empty cell adds exactly one to its row's count, which is why `widths[newY]++` keeps the row width right |
| Accounting.CountAll | app/src/main/java/edu/stanford/cs108/tetris/Board.java:201-203 | a row's count equals the board width exactly when every cell of the row is filled, which is what the ROW_FILLED test and the clearRows test `getRowWidth(i) == getWidth()` rely on |
| Accounting.SaneBelow | app/src/main/java/edu/stanford/cs108/tetris/Board.java:71-77 | on a board that passes the sanity check, if no cell at or above row t is filled then the max height is at most t |
| Accounting.MaxRaise | app/src/main/java/edu/stanford/cs108/tetris/Board.java:199-200 | raising one column height to v and taking the max with the old max height gives the maximum of the new heights |
| Placement.StampCellSane | app/src/main/java/edu/stanford/cs108/tetris/Board.java:197-204 | filling one empty on-board cell and updating its row width, column height and the max height as `place` does keeps the accounting invariant, so the sanity check after each stamp cannot fail |
| Placement.StampNext | app/src/main/java/edu/stanford/cs108/tetris/Board.java:197-205 | after one stamp the board is still valid and uncommitted, with the same size and the same snapshot |
| Placement.StampFrom | app/src/main/java/edu/stanford/cs108/tetris/Board.java:185-209 | the stamping loop always returns a valid board of the same size with the snapshot untouched, and a board that is still committed has not changed |
| Placement.Place | app/src/main/java/edu/stanford/cs108/tetris/Board.java:179-210 | placing on an uncommitted board is the protocol error and nothing else is; a placement leaves a valid board of the same size with the snapshot untouched |
| Placement.FirstBlocked | app/src/main/java/edu/stanford/cs108/tetris/Board.java:185-195 | finds the first body cell, in body order, whose target is off the board, already filled, or a repeat of an earlier target; no cell before it is blocked |
| Placement.StampStep | app/src/main/java/edu/stanford/cs108/tetris/Board.java:189-205 | during the loop, a target reads as filled exactly when it is blocked relative to the board the call began with, and stamping a free target extends the set of filled targets by that one cell |
| Placement.RowReachedStep | app/src/main/java/edu/stanford/cs108/tetris/Board.java:201-203 | after a stamp, some target row is full exactly when one was full before or the stamped row just became full |
| Placement.StampFromCells | app/src/main/java/edu/stanford/cs108/tetris/Board.java:185-208 | the loop fills exactly the targets before the first blocked one and nothing else; the board is unchanged if no cell was stamped and uncommitted otherwise |
| Placement.StampNextGrid | app/src/main/java/edu/stanford/cs108/tetris/Board.java:197 | stamping one free cell makes that position read as filled and changes no other position's reading |
| Placement.UnblockedPrefix | app/src/main/java/edu/stanford/cs108/tetris/Board.java:185-195 | before the first blocked target every target reads as empty and no two are equal, and the blocked target reads as filled or repeats an earlier one |
| Placement.StampFromBlocked | app/src/main/java/edu/stanford/cs108/tetris/Board.java:185-195 | when the targets before target j are free and distinct and target j reads as filled (or repeats one of them), the loop ends at j with OUT_BOUNDS if j is off the board and BAD otherwise |
| Placement.StatusStep | app/src/main/java/edu/stanford/cs108/tetris/Board.java:201-203 | after one stamp the result code is ROW_FILLED exactly when some target row stamped so far is full, and it is OK otherwise |
| Placement.StampFromClean | app/src/main/java/edu/stanford/cs108/tetris/Board.java:183-209 | when every remaining target is free and no two are equal, the loop returns OK or ROW_FILLED, and ROW_FILLED exactly when some target row is full at the end |
| Placement.PlaceCells | app/src/main/java/edu/stanford/cs108/tetris/Board.java:179-209 | on a committed board, place fills exactly the targets before the first blocked one; cells stamped before a failure stay set; the board stays committed, and is then unchanged, exactly when not a single cell was stamped |
| Placement.PlaceStatusSpec | app/src/main/java/edu/stanford/cs108/tetris/Board.java:179-209 | on a committed board, place returns OUT_BOUNDS or BAD by whether the first blocked target is off the board; with none blocked it returns OK or ROW_FILLED, and ROW_FILLED exactly when a target row is full |
| Placement.PlaceFailsOnFilled | app/src/main/java/edu/stanford/cs108/tetris/Board.java:189-194 | if any one body cell's target reads as filled, the placement reports OUT_BOUNDS or BAD |
| Placement.DropFrom | app/src/main/java/edu/stanford/cs108/tetris/Board.java:119-123 | the loop's result is at least its starting value and at least height − skirt for every remaining column, and it equals one of these values |
| Placement.DropHeight | app/src/main/java/edu/stanford/cs108/tetris/Board.java:117-125 | the drop height is max(0, max over i of heights[x+i] − skirt[i]): never negative, at least every such difference, and 0 or equal to one of them |
| Placement.DropHeightClears | app/src/main/java/edu/stanford/cs108/tetris/Board.java:108-125 | for a piece whose cells sit on or above the skirt, anchoring it at or above the drop height puts no body cell on a filled cell |
| Placement.DropBlockedOff | app/src/main/java/edu/stanford/cs108/tetris/Board.java:108-125 | anchored at or above the drop height, the first blocked target of a piece with no repeated cells lies off the board |
| Placement.DropHeightNeverBad | app/src/main/java/edu/stanford/cs108/tetris/Board.java:117-125 | placing such a piece, with no repeated cells, at or above its drop height never returns BAD; it can only run off the board |
| Placement.CellBelowDrop | app/src/main/java/edu/stanford/cs108/tetris/Board.java:117-125 | when the drop height is positive, one row lower some body cell lands on a filled cell (the skirt cell of the column that set the drop height) |
| Placement.DropHeightIsLowest | app/src/main/java/edu/stanford/cs108/tetris/Board.java:108-125 | one row below a positive drop height the placement fails with OUT_BOUNDS or BAD, so the drop height is the lowest resting row |
| Compaction.CopyDown | app/src/main/java/edu/stanford/cs108/tetris/Board.java:251-262 | rows fromY−1 up to maxHeight−2 take the row above them, together with its width; row maxHeight−1 becomes empty with width 0; every other row is untouched; the counters other than widths are untouched |
| Compaction.ShiftDown | app/src/main/java/edu/stanford/cs108/tetris/Board.java:251-262 | copying down from row i+1 keeps rows below i and from maxHeight up, moves rows i+1..maxHeight−1 down one with an empty row on top, and keeps every width equal to its row's count |
| Compaction.RemoveRow | app/src/main/java/edu/stanford/cs108/tetris/Board.java:222-225 | removing full row i by copying down leaves one full row fewer in the scanned stretch, and the same non-full rows with one empty row after them |
| Compaction.SplicePass | app/src/main/java/edu/stanford/cs108/tetris/Board.java:221-222 | passing a row that is not full leaves the number of full rows still to clear and the final grid unchanged |
| Compaction.SpliceRemove | app/src/main/java/edu/stanford/cs108/tetris/Board.java:222-225 | removing a full row and looking at the same index again (`i--`) leads to the same final grid, with one full row fewer still to clear |
| Compaction.ClearFrom | app/src/main/java/edu/stanford/cs108/tetris/Board.java:220-227 | the scan up to the entry max height leaves the rows below the start, then the scanned rows that are not full in order, then one empty row per full one, then the rows above; it counts one per removed row; row widths stay equal to the row counts |
| Compaction.Recount | app/src/main/java/edu/stanford/cs108/tetris/Board.java:228-240 | recomputing column heights and the max height from the rows below the entry max height satisfies the accounting invariant when nothing above that height is filled |
| Compaction.SpliceNoFullRow | app/src/main/java/edu/stanford/cs108/tetris/Board.java:218-227 | when every row from the entry max height up is empty, no row of the scanned grid is full (for positive width) |
| Compaction.SpliceCells | app/src/main/java/edu/stanford/cs108/tetris/Board.java:218-227 | when every row from the entry max height up is empty, the scan removes exactly width filled cells per full row and no others |
| Compaction.SpliceTopEmpty | app/src/main/java/edu/stanford/cs108/tetris/Board.java:218-240 | when every row from the entry max height up is empty, after the scan no cell is filled from the entry max height minus the number of full rows upwards |
| Compaction.NoneClearedIf | app/src/main/java/edu/stanford/cs108/tetris/Board.java:218-250 | when the scan removes nothing, the recomputed state is the state clearRows began with |
| Compaction.ClearRows | app/src/main/java/edu/stanford/cs108/tetris/Board.java:218-250 | clearRows keeps the board valid, the size and the snapshot; it uncommits the board exactly when it removed a row; with no row removed the board is unchanged |
| Compaction.ClearRowsCompacts | app/src/main/java/edu/stanford/cs108/tetris/Board.java:213-262 | the grid after clearRows is the reference compaction: the rows that were not full, in their order from the floor, then empty rows up to the board height |
| Compaction.ClearRowsCount | app/src/main/java/edu/stanford/cs108/tetris/Board.java:213-227 | on a board of positive width clearRows returns the number of rows that were full; on a board of width 0 it returns 0 |
| Compaction.ClearRowsNoFullRow | app/src/main/java/edu/stanford/cs108/tetris/Board.java:213-227 | on a board of positive width no row is full after clearRows |
| Compaction.ClearRowsCells | app/src/main/java/edu/stanford/cs108/tetris/Board.java:213-262 | the number of filled cells drops by exactly width × rowsCleared |
| Compaction.ClearRowsIdempotent | app/src/main/java/edu/stanford/cs108/tetris/Board.java:213-250 | a second clearRows straight after the first clears nothing |
| Compaction.ClearRowsLowers | app/src/main/java/edu/stanford/cs108/tetris/Board.java:218-240 | the max height after clearRows plus the number of rows cleared is at most the max height before |
| Compaction.SpliceAbove | app/src/main/java/edu/stanford/cs108/tetris/Board.java:218-227 | when no row from t up to the entry max height is full, the scan keeps those rows together, directly after the non-full rows below t, and the number of rows removed is the number of full rows below t |
| Compaction.SpliceColumn | app/src/main/java/edu/stanford/cs108/tetris/Board.java:218-227 | a column whose top block, in row t, lies above every full row ends with its top block in row t minus the number of full rows, and nothing filled above it |
| Compaction.ClearRowsColumnDrop | app/src/main/java/edu/stanford/cs108/tetris/Board.java:218-240 | row clear conservation for one column: when every full row lies below the column's top block, the column's recounted height drops by exactly the number of rows cleared |
| Compaction.KeptIndicesSpec | app/src/main/java/edu/stanford/cs108/tetris/Board.java:221-226 | the index list gives each kept row's original position: positions strictly rise, and the j-th kept row came from position j or higher |
| Compaction.ClearRowsKeepsOrder | app/src/main/java/edu/stanford/cs108/tetris/Board.java:213-262 | the j-th row after clearRows is the row that was at the j-th kept position (which is at least j), so non-full rows keep their order and only move down; every row above them is empty |
| Journal.Backup | app/src/main/java/edu/stanford/cs108/tetris/Board.java:313-320 | backup makes the snapshot equal to the live grid and counters and changes nothing else; a valid board stays valid |
| Journal.Commit | app/src/main/java/edu/stanford/cs108/tetris/Board.java:303-312 | commit leaves the live state as it is and makes a valid board committed; on a committed board it does nothing |
| Journal.Undo | app/src/main/java/edu/stanford/cs108/tetris/Board.java:266-301 | undo on an uncommitted board makes the snapshot live again and leaves a valid, committed board; on a committed board it does nothing |
| Journal.UndoToSnapshot | app/src/main/java/edu/stanford/cs108/tetris/Board.java:266-301 | on a valid board, undo always leaves the committed board whose live state and snapshot are both the snapshot taken at the last commit or at construction |
| Journal.CommitSettles | app/src/main/java/edu/stanford/cs108/tetris/Board.java:303-320 | on a valid board, commit leaves the committed board whose live state and snapshot are both the current live state |
| Journal.JournalIdempotent | app/src/main/java/edu/stanford/cs108/tetris/Board.java:266-312 | a second commit does nothing, a second undo does nothing, and undo straight after commit does nothing |
| Journal.PlaceUndoRoundTrip | app/src/main/java/edu/stanford/cs108/tetris/Board.java:165-210 | on a valid committed board, place followed by undo gives back the original board, whether the placement succeeded or failed part-way |
| Journal.PlaceClearUndoRoundTrip | app/src/main/java/edu/stanford/cs108/tetris/Board.java:266-272 | on a valid committed board, place, then clearRows, then undo gives back the original board |
| Journal.Step | app/src/main/java/edu/stanford/cs108/tetris/Board.java:179-320 | every client operation (place, clearRows, commit, undo) keeps the board valid and its size; place and clearRows never touch the snapshot |
| Journal.Run | app/src/main/java/edu/stanford/cs108/tetris/Board.java:84-105 | any sequence of client operations keeps the accounting invariant on both the live state and the snapshot |
| Journal.RunKeepsSnapshot | app/src/main/java/edu/stanford/cs108/tetris/Board.java:179-262 | any run of placements and row clears leaves the snapshot as it was |
| Journal.RunUndoRoundTrip | app/src/main/java/edu/stanford/cs108/tetris/Board.java:266-301 | any run of placements and row clears from a committed board, followed by one undo, gives back that board |
| Journal.JournalReopens | app/src/main/java/edu/stanford/cs108/tetris/Board.java:179-181 | after commit or undo, place is accepted again (it never raises the not-committed error) |
| Rendering.Render | app/src/main/java/edu/stanford/cs108/tetris/Board.java:330-342 | the rendering has height × (width + 3) + width + 2 characters |
| Rendering.RowsTextCell | app/src/main/java/edu/stanford/cs108/tetris/Board.java:332-339 | with rows written from the top down, the cell in column x of row y is the (1 + x)-th character of line height − 1 − y |
| Rendering.RenderShowsGrid | app/src/main/java/edu/stanford/cs108/tetris/Board.java:323-342 | the character for each on-board cell is '+' exactly when that cell is filled |
| Rendering.RenderFloor | app/src/main/java/edu/stanford/cs108/tetris/Board.java:340 | the rendering ends in width + 2 dashes |

## Left out

- The `Piece` and `TPoint` classes are not part of this model. A piece is
  abstract: a body of (x, y) offsets, a skirt and a width. The placement
  lemmas state which properties of a piece they rely on (`InBox`,
  `SkirtBelow`, `SkirtAttained`, `Distinct`). The piece's height is never
  read by the board, so it is not modelled.
- `MainActivity.java` (Android UI wiring and tick timing) and
  `TerisBrainLogic.java` (a tick dispatcher over classes that are not part
  of this model) are left out.
- The `DEBUG` flag and the exception thrown by `sanityCheck` are left out.
  `sanityCheck` is modelled as the predicate `Sane` plus the method
  `SanityCheck`, which decides it. Every point where the Java code calls it is
  proved to satisfy it, so the throw cannot happen.
- The exception thrown by `place` on an uncommitted board becomes the
  outcome `NotCommitted`, and the board is left unchanged. In the operation
  runs of `Journal.Step`, that outcome leaves the board as it was.
- Java `int` arithmetic is unbounded here, and 32-bit wrap-around is not
  modelled. For a piece whose body offsets and skirt entries are small
  non-negative numbers, as every real piece's are, this changes nothing: `x + body[i].x` and `y + body[i].y` wrap only for
  anchors near the 32-bit limit, where both the wrapped and the unwrapped
  value are off the board, and `heights[x + i] - skirt[i]` cannot wrap.
  `Place`, `DropFrom` and `DropHeight` also accept other pieces; for
  offsets or skirt entries near -2^31 the Java sums can wrap back onto the
  board, and the model does not follow that.
- Placement.Place: target coordinates are unbounded sums, so for body
  offsets near -2^31 it reports OutBounds where the Java code's wrapped
  coordinates can land on the board.
- Placement.DropHeight: `heights[x + i] - skirt[i]` is an unbounded
  difference, so for skirt entries near -2^31 it does not follow the Java
  code's wrapped value. The same holds for `Placement.DropFrom`.
- The Java `undo` swaps array references and then copies with `backup`.
  Here that is the value assignment `cur := prev` followed by
  `prev := cur`. Aliasing between the two copies is not modelled.
- `getWidth` and `getHeight` (`GetWidth`, `GetHeight`) only return a field,
  so they carry no contract and have no row.
- The integer constants `PLACE_OK`, `PLACE_ROW_FILLED`, `PLACE_OUT_BOUNDS`
  and `PLACE_BAD` (0 to 3) are not modelled as numbers. The four
  constructors of `PlaceStatus` name the same outcomes.
- The Java code throws `ArrayIndexOutOfBoundsException` when a getter or
  `dropHeight` reads outside its arrays. In the model those cases are the
  requires of `GetColumnHeight` (`0 <= x < width`), `GetRowWidth`
  (`0 <= y < height`) and `DropHeight` (`0 <= x`, `x + piece.width <= width`,
  `|skirt| >= piece.width`). The exception itself is not modelled.
- Compaction.ClearRowsCount: on a board of width 0 every row counts as full
  (0 cells of 0), but clearRows returns 0. The Java scan stops at max height
  0, so the lemma promises "the number of full rows" only for positive
  width.
- Compaction.ClearRowsNoFullRow: stated for positive width only, for the
  same reason.
