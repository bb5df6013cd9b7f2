/**
 The abstract Tetris board: a width x height grid with its counters, a
 snapshot of the last committed grid and counters, and the `committed` flag
 of the one-level commit/undo journal.
 */
module TetrisBoard {
  import opened Accounting

  /**
   `cur` is the live grid and counters; `prev` is the snapshot taken at the
   last commit (or at construction) that undo restores.
   */
  datatype Board = Board(width: nat, height: nat, cur: State, prev: State, committed: bool)

  /**
   The board's invariant: both copies pass the sanity check, and a committed
   board has nothing pending, so its live state is its snapshot.
   */
  predicate Valid(b: Board)
  {
    && Sane(b.cur, b.width, b.height)
    && Sane(b.prev, b.width, b.height)
    && (b.committed ==> b.cur == b.prev)
  }

  /** Live grid has the board's dimensions, which is all reads need. */
  predicate Shape(b: Board)
  {
    Shaped(b.cur.rows, b.width, b.height) && |b.cur.widths| == b.height && |b.cur.heights| == b.width
  }

  predicate OnBoard(b: Board, x: int, y: int)
  {
    0 <= x < b.width && 0 <= y < b.height
  }

  function EmptyState(w: nat, h: nat): State
  {
    State(seq(h, _ => EmptyRow(w)), seq(h, _ => 0), seq(w, _ => 0), 0)
  }

  /** A new board of the given size: empty, all counters zero, committed. */
  function NewBoard(w: nat, h: nat): (b: Board)
    ensures Valid(b) && b.committed
    ensures b.width == w && b.height == h
    ensures forall x, y :: !Cell(b.cur.rows, x, y)
    ensures forall y :: 0 <= y < h ==> b.cur.widths[y] == 0
    ensures forall x :: 0 <= x < w ==> b.cur.heights[x] == 0
    ensures b.cur.maxHeight == 0
  {
    CountEmpty(w);
    var s := EmptyState(w, h);
    Board(w, h, s, s, true)
  }

  /**
   Occupancy as seen by placement: anything off the board counts as filled,
   so walls, floor and ceiling stop a piece like blocks do.
   */
  function GetGrid(b: Board, x: int, y: int): (filled: bool)
    requires Shape(b)
    ensures !OnBoard(b, x, y) ==> filled
    ensures OnBoard(b, x, y) ==> (filled <==> Cell(b.cur.rows, x, y))
    ensures Valid(b) && OnBoard(b, x, y) && y >= b.cur.heights[x] ==> !filled
    ensures Valid(b) && OnBoard(b, x, y) && y >= b.cur.maxHeight ==> !filled
  {
    if x >= b.width || y >= b.height || x < 0 || y < 0 then true
    else b.cur.rows[y][x]
  }

  function GetWidth(b: Board): nat
  {
    b.width
  }

  function GetHeight(b: Board): nat
  {
    b.height
  }

  /** Tallest column: nothing is filled at or above it, and some column reaches it. */
  function GetMaxHeight(b: Board): (m: int)
    ensures Valid(b) ==> 0 <= m <= b.height
    ensures Valid(b) ==> forall x, y :: m <= y ==> !Cell(b.cur.rows, x, y)
    ensures Valid(b) && m > 0 ==> exists x :: 0 <= x < b.width && IsColumnHeight(b.cur.rows, x, m)
  {
    SaneTop(b.cur, b.width, b.height);
    b.cur.maxHeight
  }

  /** Height of column `x`: 1 + its topmost filled row, 0 if it has none. */
  function GetColumnHeight(b: Board, x: int): (h: int)
    requires Shape(b) && 0 <= x < b.width
    ensures Valid(b) ==> IsColumnHeight(b.cur.rows, x, h)
  {
    b.cur.heights[x]
  }

  /** Number of filled cells in row `y`. */
  function GetRowWidth(b: Board, y: int): (n: int)
    requires Shape(b) && 0 <= y < b.height
    ensures Valid(b) ==> n == Count(b.cur.rows[y]) && 0 <= n <= b.width
  {
    b.cur.widths[y]
  }

  /**
   One column of the sanity check: walk column `x` upwards, adding each filled
   cell to its row's running count and remembering the last filled row.
   */
  method ScanColumn(rows: seq<seq<bool>>, w: nat, h: nat, x: nat, counts: seq<int>)
    returns (counts': seq<int>, height: int)
    requires Shaped(rows, w, h) && x < w
    requires |counts| == h && forall r :: 0 <= r < h ==> counts[r] == Count(rows[r][..x])
    ensures |counts'| == h && forall r :: 0 <= r < h ==> counts'[r] == Count(rows[r][..x + 1])
    ensures IsColumnHeight(rows, x, height)
  {
    counts' := counts;
    height := 0;
    var y := 0;
    while y < h
      invariant 0 <= y <= h
      invariant |counts'| == h
      invariant forall r :: 0 <= r < y ==> counts'[r] == Count(rows[r][..x + 1])
      invariant forall r :: y <= r < h ==> counts'[r] == Count(rows[r][..x])
      invariant 0 <= height <= y
      invariant height == 0 || Cell(rows, x, height - 1)
      invariant forall r :: height <= r < y ==> !Cell(rows, x, r)
    {
      assert rows[y][..x + 1][..x] == rows[y][..x];
      if rows[y][x] {
        counts' := counts'[y := counts'[y] + 1];
        height := y + 1;
      }
      y := y + 1;
    }
  }

  /**
   The debug consistency check: recount every row width, column height and
   the maximum height from the grid, column by column, and compare with the
   stored counters. A false result is where the Java code throws.
   */
  method SanityCheck(b: Board) returns (ok: bool)
    requires Shape(b)
    ensures ok <==> Sane(b.cur, b.width, b.height)
  {
    var rows := b.cur.rows;
    var widthsCheck: seq<int> := seq(b.height, _ => 0);
    var heightsCheck: seq<int> := [];
    var maxHeightCheck := 0;
    var x := 0;
    while x < b.width
      invariant 0 <= x <= b.width
      invariant |widthsCheck| == b.height && |heightsCheck| == x
      invariant forall y :: 0 <= y < b.height ==> widthsCheck[y] == Count(rows[y][..x])
      invariant forall c :: 0 <= c < x ==> IsColumnHeight(rows, c, heightsCheck[c])
      invariant IsMax(heightsCheck, maxHeightCheck)
    {
      var column;
      widthsCheck, column := ScanColumn(rows, b.width, b.height, x, widthsCheck);
      MaxAppend(heightsCheck, maxHeightCheck, column);
      heightsCheck := heightsCheck + [column];
      maxHeightCheck := Max(maxHeightCheck, column);
      x := x + 1;
    }
    forall y | 0 <= y < b.height
      ensures widthsCheck[y] == Count(rows[y])
    {
      assert rows[y][..b.width] == rows[y];
    }
    ok := widthsCheck == b.cur.widths && heightsCheck == b.cur.heights && maxHeightCheck == b.cur.maxHeight;
    if Sane(b.cur, b.width, b.height) {
      forall c | 0 <= c < b.width
        ensures heightsCheck[c] == b.cur.heights[c]
      {
        ColumnHeightUnique(rows, c, heightsCheck[c], b.cur.heights[c]);
      }
      MaxUnique(heightsCheck, maxHeightCheck, b.cur.maxHeight);
    }
  }
}
