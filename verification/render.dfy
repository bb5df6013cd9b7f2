/**
 The board's text rendering: one line per row from the top row down, each
 `|` + one character per column (`+` filled, space empty) + `|` and a
 newline, then a floor of width + 2 dashes.
 */
module Rendering {
  import opened Accounting
  import opened TetrisBoard

  /** Length of one rendered row: two walls, the cells and the newline. */
  function LineLength(w: nat): nat
  {
    w + 3
  }

  function Glyph(filled: bool): char
  {
    if filled then '+' else ' '
  }

  /** Row `y` between its walls, ending in a newline. */
  function RowText(b: Board, y: int): string
    requires Shape(b)
  {
    "|" + seq(b.width, x requires 0 <= x < b.width => Glyph(GetGrid(b, x, y))) + "|\n"
  }

  /** Rows `n - 1` down to 0, top first. */
  function RowsText(b: Board, n: nat): string
    requires Shape(b)
  {
    if n == 0 then "" else RowText(b, n - 1) + RowsText(b, n - 1)
  }

  /** Where line `k` (counted from the top) starts: k whole lines in. */
  function LineStart(k: nat, w: nat): nat
  {
    if k == 0 then 0 else LineLength(w) + LineStart(k - 1, w)
  }

  lemma {:induction false} LineStartProduct(k: nat, w: nat)
    ensures LineStart(k, w) == k * LineLength(w)
  {
    if k > 0 {
      LineStartProduct(k - 1, w);
      assert k * LineLength(w) == LineLength(w) + (k - 1) * LineLength(w);
    }
  }

  lemma {:induction false} RowsTextLength(b: Board, n: nat)
    requires Shape(b)
    ensures |RowsText(b, n)| == LineStart(n, b.width)
  {
    if n > 0 {
      RowsTextLength(b, n - 1);
    }
  }

  /**
   The text of rows below `n` holds row `y` on line n - 1 - y: its cell in
   column `x` sits at that line's start plus 1 + x.
   */
  lemma {:induction false} RowsTextCell(b: Board, n: nat, y: int, x: int)
    requires Shape(b) && 0 <= y < n && 0 <= x < b.width
    ensures LineStart(n - 1 - y, b.width) + 1 + x < |RowsText(b, n)|
    ensures RowsText(b, n)[LineStart(n - 1 - y, b.width) + 1 + x] == Glyph(GetGrid(b, x, y))
  {
    var w := b.width;
    var top := RowText(b, n - 1);
    var rest := RowsText(b, n - 1);
    assert RowsText(b, n) == top + rest;
    RowsTextLength(b, n - 1);
    if y < n - 1 {
      RowsTextCell(b, n - 1, y, x);
      assert LineStart(n - 1 - y, w) == LineLength(w) + LineStart(n - 1 - 1 - y, w);
    }
  }

  /** toString: the rows from the top down, then the floor. */
  function Render(b: Board): (text: string)
    requires Shape(b)
    ensures |text| == LineStart(b.height, b.width) + b.width + 2
    ensures |text| == b.height * LineLength(b.width) + b.width + 2
  {
    RowsTextLength(b, b.height);
    LineStartProduct(b.height, b.width);
    RowsText(b, b.height) + seq(b.width + 2, _ => '-')
  }

  /** The character for column `x` of row `y` is in the text, and it is '+' exactly when the cell is filled. */
  predicate ShowsCell(text: string, b: Board, x: int, y: int)
    requires 0 <= y < b.height
  {
    var k := LineStart(b.height - 1 - y, b.width) + 1 + x;
    0 <= k < |text| && (text[k] == '+' <==> Cell(b.cur.rows, x, y))
  }

  /**
   The picture agrees with the grid: the character for column `x` of row `y`
   is on line height - 1 - y, and it is '+' exactly when the cell is
   filled.
   */
  lemma RenderShowsGrid(b: Board)
    requires Shape(b)
    ensures forall y, x :: 0 <= y < b.height && 0 <= x < b.width ==> ShowsCell(Render(b), b, x, y)
  {
    var text, w := Render(b), b.width;
    assert text == RowsText(b, b.height) + seq(w + 2, _ => '-');
    forall y, x | 0 <= y < b.height && 0 <= x < w
      ensures ShowsCell(text, b, x, y)
    {
      RowsTextCell(b, b.height, y, x);
      var k := LineStart(b.height - 1 - y, w) + 1 + x;
      assert text[k] == RowsText(b, b.height)[k];
    }
  }

  /** The rendering ends in a floor of width + 2 dashes. */
  lemma RenderFloor(b: Board)
    requires Shape(b)
    ensures var text := Render(b);
            |text| >= b.width + 2 && forall i :: |text| - (b.width + 2) <= i < |text| ==> text[i] == '-'
  {
  }
}
