/**
 Putting a piece on the board: the cell-by-cell stamp with its four outcomes,
 and the skirt-based drop height.
 */
module Placement {
  import opened Accounting
  import opened TetrisBoard

  /** A body offset of a piece, or an absolute board position. */
  datatype Point = Point(x: int, y: int)

  /**
   One orientation of a piece: the offsets of its cells, its skirt (per
   column, the lowest offset of a body cell in that column) and its width.
   */
  datatype Piece = Piece(body: seq<Point>, skirt: seq<int>, width: nat)

  /** Every body offset lies inside the piece's columns and on or above its base; the skirt covers every column. */
  predicate InBox(p: Piece)
  {
    && |p.skirt| >= p.width
    && forall k :: 0 <= k < |p.body| ==> 0 <= p.body[k].x < p.width && 0 <= p.body[k].y
  }

  /** No body cell lies below its column's skirt entry. */
  predicate SkirtBelow(p: Piece)
    requires InBox(p)
  {
    forall k :: 0 <= k < |p.body| ==> p.skirt[p.body[k].x] <= p.body[k].y
  }

  /** The skirt entry of column `i`. */
  function SkirtOf(p: Piece, i: int): int
    requires InBox(p) && 0 <= i < p.width
  {
    p.skirt[i]
  }

  /** Every column's skirt entry is the offset of an actual body cell. */
  predicate SkirtAttained(p: Piece)
    requires InBox(p)
  {
    forall i :: 0 <= i < p.width ==> exists k :: 0 <= k < |p.body| && p.body[k] == Point(i, SkirtOf(p, i))
  }

  /** No cell is listed twice. */
  predicate Distinct(p: Piece)
  {
    forall j, k :: 0 <= j < k < |p.body| ==> p.body[j] != p.body[k]
  }

  datatype PlaceStatus = Ok | RowFilled | OutBounds | Bad

  /** Result of `place`: the board and status, or the protocol error of placing on an uncommitted board. */
  datatype PlaceOutcome = Placed(board: Board, status: PlaceStatus) | NotCommitted

  /** Absolute positions of a body anchored at (x, y), in body order. */
  function Targets(body: seq<Point>, x: int, y: int): seq<Point>
  {
    seq(|body|, k requires 0 <= k < |body| => Point(x + body[k].x, y + body[k].y))
  }

  /** Fill one cell and bring its row width, column height and the max height up to date. */
  function StampCell(s: State, x: nat, y: nat): State
    requires y < |s.rows| && x < |s.rows[y]| && y < |s.widths| && x < |s.heights|
  {
    var h := Max(s.heights[x], y + 1);
    State(s.rows[y := s.rows[y][x := true]], s.widths[y := s.widths[y] + 1], s.heights[x := h], Max(s.maxHeight, h))
  }

  /** Stamping an empty cell keeps every counter in step with the grid. */
  lemma StampCellSane(s: State, w: nat, h: nat, x: nat, y: nat)
    requires Sane(s, w, h) && x < w && y < h && !s.rows[y][x]
    ensures Sane(StampCell(s, x, y), w, h)
  {
    var t := StampCell(s, x, y);
    CountSet(s.rows[y], x);
    assert forall c, r :: c != x || r != y ==> (Cell(t.rows, c, r) <==> Cell(s.rows, c, r));
    assert Cell(t.rows, x, y);
    forall c | 0 <= c < w
      ensures IsColumnHeight(t.rows, c, t.heights[c])
    {
      assert IsColumnHeight(s.rows, c, s.heights[c]);
    }
    MaxRaise(s.heights, s.maxHeight, x, Max(s.heights[x], y + 1));
  }

  /** The board after filling the empty on-board cell `c`: counters updated, a mutation pending. */
  function StampNext(b: Board, c: Point): (b': Board)
    requires Valid(b) && OnBoard(b, c.x, c.y) && !Cell(b.cur.rows, c.x, c.y)
    ensures Valid(b') && !b'.committed
    ensures b'.width == b.width && b'.height == b.height && b'.prev == b.prev
  {
    StampCellSane(b.cur, b.width, b.height, c.x, c.y);
    b.(cur := StampCell(b.cur, c.x, c.y), committed := false)
  }

  /**
   The stamping loop from body cell `i` on. The first target that reads as
   filled ends the call with OutBounds (off the board) or Bad (a block),
   leaving the cells already stamped in place; otherwise the cell is filled,
   the board becomes uncommitted, and a row that reaches full width turns the
   status into RowFilled.
   */
  function StampFrom(b: Board, cells: seq<Point>, i: nat, status: PlaceStatus): (r: PlaceOutcome)
    requires Valid(b) && i <= |cells|
    ensures r.Placed? && Valid(r.board)
    ensures r.board.width == b.width && r.board.height == b.height && r.board.prev == b.prev
    ensures r.board.committed ==> r.board == b
    decreases |cells| - i
  {
    if i == |cells| then Placed(b, status)
    else
      var c := cells[i];
      if GetGrid(b, c.x, c.y) then
        Placed(b, if !OnBoard(b, c.x, c.y) then OutBounds else Bad)
      else
        var b' := StampNext(b, c);
        StampFrom(b', cells, i + 1, if b'.cur.widths[c.y] == b.width then RowFilled else status)
  }

  /**
   Stamp a piece's body anchored at (x, y). Placing on an uncommitted board
   is a protocol error and changes nothing.
   */
  function Place(b: Board, piece: Piece, x: int, y: int): (r: PlaceOutcome)
    requires Valid(b)
    ensures !b.committed <==> r == NotCommitted
    ensures r.Placed? ==> Valid(r.board) && r.board.prev == b.prev
    ensures r.Placed? ==> r.board.width == b.width && r.board.height == b.height
  {
    if !b.committed then NotCommitted
    else StampFrom(b, Targets(piece.body, x, y), 0, Ok)
  }

  /** Target `j` stops the stamp: it is off the board, already filled, or repeats an earlier target. */
  predicate Blocked(b: Board, cells: seq<Point>, j: int)
    requires Shape(b) && 0 <= j < |cells|
  {
    GetGrid(b, cells[j].x, cells[j].y) || cells[j] in cells[..j]
  }

  /** Index of the first blocked target at or after `i`, or |cells| if none is. */
  function FirstBlocked(b: Board, cells: seq<Point>, i: nat): (j: nat)
    requires Shape(b) && i <= |cells|
    ensures i <= j <= |cells|
    ensures forall k :: i <= k < j ==> !Blocked(b, cells, k)
    ensures j < |cells| ==> Blocked(b, cells, j)
    decreases |cells| - i
  {
    if i == |cells| || Blocked(b, cells, i) then i else FirstBlocked(b, cells, i + 1)
  }

  /** `rows` is `rows0` with exactly the cells in `cells` filled in addition. */
  ghost predicate Painted(rows0: seq<seq<bool>>, rows: seq<seq<bool>>, cells: seq<Point>)
  {
    && |rows| == |rows0|
    && (forall y :: 0 <= y < |rows| ==> |rows[y]| == |rows0[y]|)
    && forall x, y :: Cell(rows, x, y) <==> Cell(rows0, x, y) || Point(x, y) in cells
  }

  /** Row `y` is on the board and full. */
  predicate RowFull(b: Board, y: int)
  {
    0 <= y < b.height && y < |b.cur.rows| && IsFull(b.cur.rows[y], b.width)
  }

  /** Some target's row is completely filled. */
  predicate RowReached(b: Board, cells: seq<Point>)
  {
    exists k :: 0 <= k < |cells| && RowFull(b, cells[k].y)
  }

  /**
   Midway through a stamp that started from `b0`: the first `i` targets were
   all free and are now filled into `b`, and nothing else changed.
   */
  ghost predicate Stamping(b0: Board, b: Board, cells: seq<Point>, i: nat)
  {
    && Valid(b0) && Valid(b) && i <= |cells|
    && b.width == b0.width && b.height == b0.height && b.prev == b0.prev
    && (forall k :: 0 <= k < i ==> !Blocked(b0, cells, k))
    && Painted(b0.cur.rows, b.cur.rows, cells[..i])
    && (i == 0 ==> b == b0)
    && (i > 0 ==> !b.committed)
  }

  /** One step of the stamp: target `i` reads as filled exactly when it is blocked, and a free one extends the stamp. */
  lemma StampStep(b0: Board, b: Board, cells: seq<Point>, i: nat)
    requires Stamping(b0, b, cells, i) && i < |cells|
    ensures GetGrid(b, cells[i].x, cells[i].y) == Blocked(b0, cells, i)
    ensures !Blocked(b0, cells, i) ==> Stamping(b0, StampNext(b, cells[i]), cells, i + 1)
  {
    var c := cells[i];
    assert GetGrid(b0, c.x, c.y) <==> !OnBoard(b0, c.x, c.y) || Cell(b0.cur.rows, c.x, c.y);
    if !Blocked(b0, cells, i) {
      var b' := StampNext(b, c);
      assert cells[..i + 1] == cells[..i] + [c];
      assert forall x, y :: Cell(b'.cur.rows, x, y) <==> Cell(b.cur.rows, x, y) || Point(x, y) == c;
    }
  }

  /** After stamping target `i`, some target row up to `i` is full iff one before was or the stamped row is. */
  lemma RowReachedStep(b: Board, cells: seq<Point>, i: nat)
    requires Valid(b) && i < |cells|
    requires OnBoard(b, cells[i].x, cells[i].y) && !Cell(b.cur.rows, cells[i].x, cells[i].y)
    ensures var b' := StampNext(b, cells[i]);
            RowReached(b', cells[..i + 1]) <==> RowReached(b, cells[..i]) || RowFull(b', cells[i].y)
  {
    var c := cells[i];
    var b' := StampNext(b, c);
    assert !b.cur.rows[c.y][c.x];
    CountAll(b.cur.rows[c.y]);
    assert Count(b.cur.rows[c.y]) < b.width;
    assert forall r :: 0 <= r < b.height && r != c.y ==> b'.cur.rows[r] == b.cur.rows[r];
    if RowReached(b, cells[..i]) {
      var k :| 0 <= k < i && RowFull(b, cells[..i][k].y);
      assert cells[..i + 1][k] == cells[..i][k];
    }
    if RowFull(b', c.y) {
      assert cells[..i + 1][i] == c;
    }
    if RowReached(b', cells[..i + 1]) {
      var k :| 0 <= k < i + 1 && RowFull(b', cells[..i + 1][k].y);
      if k < i && cells[k].y != c.y {
        assert cells[..i][k] == cells[k];
        assert RowFull(b, cells[..i][k].y);
      }
    }
  }

  /** The status after stamping target `i` is RowFilled exactly when some target row up to `i` is full. */
  lemma StatusStep(b: Board, cells: seq<Point>, i: nat, status: PlaceStatus)
    requires Valid(b) && i < |cells|
    requires OnBoard(b, cells[i].x, cells[i].y) && !Cell(b.cur.rows, cells[i].x, cells[i].y)
    requires status == Ok || status == RowFilled
    requires status == RowFilled <==> RowReached(b, cells[..i])
    ensures var b' := StampNext(b, cells[i]);
            var status' := if b'.cur.widths[cells[i].y] == b.width then RowFilled else status;
            && (status' == Ok || status' == RowFilled)
            && (status' == RowFilled <==> RowReached(b', cells[..i + 1]))
  {
    var c := cells[i];
    var b' := StampNext(b, c);
    RowReachedStep(b, cells, i);
    assert RowFull(b', c.y) <==> b'.cur.widths[c.y] == b.width;
  }

  /**
   What the stamp does to the grid, measured against the board `b0` the call
   started from: every target before the first blocked one ends up filled,
   nothing else changes, and the board is left uncommitted exactly when at
   least one cell was filled.
   */
  lemma {:induction false} StampFromCells(b0: Board, b: Board, cells: seq<Point>, i: nat, status: PlaceStatus)
    requires Stamping(b0, b, cells, i)
    ensures var j := FirstBlocked(b0, cells, i);
            var r := StampFrom(b, cells, i, status);
            && Painted(b0.cur.rows, r.board.cur.rows, cells[..j])
            && (j == 0 ==> r.board == b0)
            && (j > 0 ==> !r.board.committed)
    decreases |cells| - i
  {
    if i < |cells| {
      StampStep(b0, b, cells, i);
      var c := cells[i];
      if !GetGrid(b, c.x, c.y) {
        var b' := StampNext(b, c);
        var status' := if b'.cur.widths[c.y] == b.width then RowFilled else status;
        assert StampFrom(b, cells, i, status) == StampFrom(b', cells, i + 1, status');
        assert FirstBlocked(b0, cells, i) == FirstBlocked(b0, cells, i + 1);
        StampFromCells(b0, b', cells, i + 1, status');
      } else {
        assert FirstBlocked(b0, cells, i) == i;
        assert StampFrom(b, cells, i, status).board == b;
      }
    } else {
      assert StampFrom(b, cells, i, status).board == b;
    }
  }

  /** Filling cell `c` changes no other cell's reading. */
  lemma StampNextGrid(b: Board, c: Point)
    requires Valid(b) && OnBoard(b, c.x, c.y) && !Cell(b.cur.rows, c.x, c.y)
    ensures forall x, y :: GetGrid(StampNext(b, c), x, y) <==> GetGrid(b, x, y) || Point(x, y) == c
  {
    var b' := StampNext(b, c);
    assert forall x, y :: Cell(b'.cur.rows, x, y) <==> Cell(b.cur.rows, x, y) || Point(x, y) == c;
  }

  /**
   Before the first blocked target the targets are free and distinct, and the
   blocked one is filled or repeats one of them.
   */
  lemma UnblockedPrefix(b: Board, cells: seq<Point>, j: nat)
    requires Shape(b) && j == FirstBlocked(b, cells, 0)
    ensures forall k :: 0 <= k < j ==> !GetGrid(b, cells[k].x, cells[k].y)
    ensures forall k, l :: 0 <= l < k < j ==> cells[l] != cells[k]
    ensures j < |cells| ==> GetGrid(b, cells[j].x, cells[j].y) || exists l :: 0 <= l < j && cells[l] == cells[j]
  {
    forall k | 0 <= k < j
      ensures !GetGrid(b, cells[k].x, cells[k].y)
    {
      assert !Blocked(b, cells, k);
    }
    forall k, l | 0 <= l < k < j
      ensures cells[l] != cells[k]
    {
      assert !Blocked(b, cells, k);
      assert cells[..k][l] == cells[l];
    }
    if j < |cells| && !GetGrid(b, cells[j].x, cells[j].y) {
      assert Blocked(b, cells, j);
      var l :| 0 <= l < j && cells[..j][l] == cells[j];
    }
  }

  /**
   A blocked target `j` ends the stamp from `i` with OutBounds when it is off
   the board and Bad otherwise, provided the targets from `i` up to `j` are
   free and distinct and target `j` is filled or repeats one of them.
   */
  lemma {:induction false} StampFromBlocked(b: Board, cells: seq<Point>, i: nat, status: PlaceStatus, j: nat)
    requires Valid(b) && i <= j < |cells|
    requires forall k :: i <= k < j ==> !GetGrid(b, cells[k].x, cells[k].y)
    requires forall k, l :: i <= l < k < j ==> cells[l] != cells[k]
    requires GetGrid(b, cells[j].x, cells[j].y) || exists l :: i <= l < j && cells[l] == cells[j]
    ensures StampFrom(b, cells, i, status).status == (if OnBoard(b, cells[j].x, cells[j].y) then Bad else OutBounds)
    decreases |cells| - i
  {
    var c := cells[i];
    if i < j {
      var b' := StampNext(b, c);
      StampNextGrid(b, c);
      if !GetGrid(b', cells[j].x, cells[j].y) {
        var l :| i <= l < j && cells[l] == cells[j];
        assert l != i;
      }
      assert OnBoard(b', cells[j].x, cells[j].y) == OnBoard(b, cells[j].x, cells[j].y);
      StampFromBlocked(b', cells, i + 1, if b'.cur.widths[c.y] == b.width then RowFilled else status, j);
    }
  }

  /**
   A stamp from `i` whose remaining targets are all free and distinct
   reports Ok or RowFilled, RowFilled exactly when some target row is full
   at the end.
   */
  lemma {:induction false} StampFromClean(b: Board, cells: seq<Point>, i: nat, status: PlaceStatus)
    requires Valid(b) && i <= |cells|
    requires forall k :: i <= k < |cells| ==> !GetGrid(b, cells[k].x, cells[k].y)
    requires forall k, l :: i <= l < k < |cells| ==> cells[l] != cells[k]
    requires status == Ok || status == RowFilled
    requires status == RowFilled <==> RowReached(b, cells[..i])
    ensures var r := StampFrom(b, cells, i, status);
            (r.status == Ok || r.status == RowFilled) && (r.status == RowFilled <==> RowReached(r.board, cells))
    decreases |cells| - i
  {
    if i == |cells| {
      assert cells[..i] == cells;
    } else {
      var c := cells[i];
      var b' := StampNext(b, c);
      StampNextGrid(b, c);
      StatusStep(b, cells, i, status);
      StampFromClean(b', cells, i + 1, if b'.cur.widths[c.y] == b.width then RowFilled else status);
    }
  }

  /**
   `place` on a committed board, grid side. Let `j` index the first body cell
   whose target is off the board, already filled, or a repeat: the targets
   before it are filled and nothing else is, and the board stays committed,
   and then unchanged, exactly when not a single cell was stamped.
   */
  lemma PlaceCells(b: Board, piece: Piece, x: int, y: int)
    requires Valid(b) && b.committed
    ensures var cells := Targets(piece.body, x, y);
            var j := FirstBlocked(b, cells, 0);
            var r := Place(b, piece, x, y);
            && r.Placed?
            && Painted(b.cur.rows, r.board.cur.rows, cells[..j])
            && (r.board.committed <==> j == 0)
            && (j == 0 ==> r.board == b)
  {
    var cells := Targets(piece.body, x, y);
    assert Stamping(b, b, cells, 0);
    StampFromCells(b, b, cells, 0, Ok);
  }

  /**
   `place` on a committed board, status side: with `j` as above, a blocked
   target gives OutBounds or Bad by whether it lies off the board; when no
   target is blocked the status is Ok or RowFilled, RowFilled exactly when
   a target row is now full.
   */
  lemma PlaceStatusSpec(b: Board, piece: Piece, x: int, y: int)
    requires Valid(b) && b.committed
    ensures var cells := Targets(piece.body, x, y);
            var j := FirstBlocked(b, cells, 0);
            var r := Place(b, piece, x, y);
            && r.Placed?
            && (j < |cells| ==> r.status == (if OnBoard(b, cells[j].x, cells[j].y) then Bad else OutBounds))
            && (j == |cells| ==> (r.status == Ok || r.status == RowFilled) && (r.status == RowFilled <==> RowReached(r.board, cells)))
  {
    var cells := Targets(piece.body, x, y);
    assert Stamping(b, b, cells, 0);
    assert !RowReached(b, cells[..0]);
    var j := FirstBlocked(b, cells, 0);
    UnblockedPrefix(b, cells, j);
    if j < |cells| {
      StampFromBlocked(b, cells, 0, Ok, j);
    } else {
      StampFromClean(b, cells, 0, Ok);
    }
  }

  /** A single body cell whose target reads as filled makes `place` fail. */
  lemma PlaceFailsOnFilled(b: Board, piece: Piece, x: int, y: int, k: nat)
    requires Valid(b) && b.committed && k < |piece.body|
    requires GetGrid(b, x + piece.body[k].x, y + piece.body[k].y)
    ensures var r := Place(b, piece, x, y);
            r.Placed? && (r.status == OutBounds || r.status == Bad)
  {
    var cells := Targets(piece.body, x, y);
    assert Blocked(b, cells, k);
    PlaceStatusSpec(b, piece, x, y);
  }

  /** The loop of dropHeight from skirt column `i` on, `acc` being the best so far. */
  function DropFrom(b: Board, piece: Piece, x: int, i: nat, acc: int): (d: int)
    requires Shape(b) && 0 <= x && x + piece.width <= b.width && |piece.skirt| >= piece.width
    requires i <= piece.width
    ensures d >= acc
    ensures forall k :: i <= k < piece.width ==> d >= b.cur.heights[x + k] - piece.skirt[k]
    ensures d == acc || exists k :: i <= k < piece.width && d == b.cur.heights[x + k] - piece.skirt[k]
    decreases piece.width - i
  {
    if i == piece.width then acc
    else DropFrom(b, piece, x, i + 1, Max(b.cur.heights[x + i] - piece.skirt[i], acc))
  }

  /**
   Resting row for the piece dropped at column `x`: the largest column
   height minus skirt over the piece's columns, and never below the floor.
   */
  function DropHeight(b: Board, piece: Piece, x: int): (d: int)
    requires Shape(b) && 0 <= x && x + piece.width <= b.width && |piece.skirt| >= piece.width
    ensures d >= 0
    ensures forall i :: 0 <= i < piece.width ==> d >= b.cur.heights[x + i] - piece.skirt[i]
    ensures d == 0 || exists i :: 0 <= i < piece.width && d == b.cur.heights[x + i] - piece.skirt[i]
  {
    DropFrom(b, piece, x, 0, 0)
  }

  /** Anchored at or above the drop height, no body cell lands on a filled cell. */
  lemma DropHeightClears(b: Board, piece: Piece, x: int, y: int)
    requires Valid(b) && InBox(piece) && SkirtBelow(piece) && 0 <= x && x + piece.width <= b.width
    requires y >= DropHeight(b, piece, x)
    ensures forall k :: 0 <= k < |piece.body| ==> !Cell(b.cur.rows, x + piece.body[k].x, y + piece.body[k].y)
  {
    var d := DropHeight(b, piece, x);
    forall k | 0 <= k < |piece.body|
      ensures !Cell(b.cur.rows, x + piece.body[k].x, y + piece.body[k].y)
    {
      var p := piece.body[k];
      assert d >= b.cur.heights[x + p.x] - piece.skirt[p.x];
      assert IsColumnHeight(b.cur.rows, x + p.x, b.cur.heights[x + p.x]);
    }
  }

  /**
   Anchored at or above the drop height, a distinct body's first blocked
   target, if any, lies off the board.
   */
  lemma DropBlockedOff(b: Board, piece: Piece, x: int, y: int)
    requires Valid(b) && InBox(piece) && SkirtBelow(piece) && Distinct(piece) && 0 <= x && x + piece.width <= b.width
    requires y >= DropHeight(b, piece, x)
    ensures var cells := Targets(piece.body, x, y);
            var j := FirstBlocked(b, cells, 0);
            j < |cells| ==> !OnBoard(b, cells[j].x, cells[j].y)
  {
    DropHeightClears(b, piece, x, y);
    var cells := Targets(piece.body, x, y);
    var j := FirstBlocked(b, cells, 0);
    if j < |cells| {
      assert cells[j] !in cells[..j] by {
        forall k | 0 <= k < j
          ensures cells[..j][k] != cells[j]
        {
          assert piece.body[k] != piece.body[j];
        }
      }
      assert Blocked(b, cells, j);
      assert !Cell(b.cur.rows, cells[j].x, cells[j].y);
    }
  }

  /** Placing at or above the drop height never collides; it can only run off the board. */
  lemma DropHeightNeverBad(b: Board, piece: Piece, x: int, y: int)
    requires Valid(b) && b.committed && InBox(piece) && SkirtBelow(piece) && Distinct(piece) && 0 <= x && x + piece.width <= b.width
    requires y >= DropHeight(b, piece, x)
    ensures Place(b, piece, x, y).Placed? && Place(b, piece, x, y).status != Bad
  {
    PlaceStatusSpec(b, piece, x, y);
    DropBlockedOff(b, piece, x, y);
  }

  /**
   A body cell that lands on a filled cell one row below the drop height: the
   skirt cell of the column whose height fixed the drop height.
   */
  lemma CellBelowDrop(b: Board, piece: Piece, x: int) returns (k: nat)
    requires Valid(b) && InBox(piece) && SkirtAttained(piece) && 0 <= x && x + piece.width <= b.width
    requires DropHeight(b, piece, x) > 0
    ensures k < |piece.body|
    ensures GetGrid(b, x + piece.body[k].x, DropHeight(b, piece, x) - 1 + piece.body[k].y)
  {
    var d := DropHeight(b, piece, x);
    var i :| 0 <= i < piece.width && d == b.cur.heights[x + i] - piece.skirt[i];
    assert SkirtOf(piece, i) == piece.skirt[i];
    k :| 0 <= k < |piece.body| && piece.body[k] == Point(i, piece.skirt[i]);
    var h := b.cur.heights[x + i];
    assert piece.skirt[i] >= 0 && h >= 1;
    assert IsColumnHeight(b.cur.rows, x + i, h);
    assert Cell(b.cur.rows, x + i, h - 1);
  }

  /** One row lower than the drop height the piece no longer fits. */
  lemma DropHeightIsLowest(b: Board, piece: Piece, x: int)
    requires Valid(b) && b.committed && InBox(piece) && SkirtAttained(piece) && 0 <= x && x + piece.width <= b.width
    requires DropHeight(b, piece, x) > 0
    ensures var r := Place(b, piece, x, DropHeight(b, piece, x) - 1);
            r.Placed? && (r.status == OutBounds || r.status == Bad)
  {
    var y := DropHeight(b, piece, x) - 1;
    var k := CellBelowDrop(b, piece, x);
    PlaceFailsOnFilled(b, piece, x, y, k);
    var r := Place(b, piece, x, y);
    assert r.Placed? && (r.status == OutBounds || r.status == Bad);
  }
}
