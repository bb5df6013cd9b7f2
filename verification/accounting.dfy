/**
 The occupancy grid of a Tetris board and the three counters the board keeps
 in step with it.

 The grid is stored row by row: `rows[y][x]` is the cell in column `x` of row
 `y`, and row 0 is the floor. The counters are
 - `widths[y]`: the number of occupied cells in row `y`,
 - `heights[x]`: one more than the topmost occupied row of column `x`, or 0,
 - `maxHeight`: the largest column height (0 for an empty board).
 */
module Accounting {

  /** One full copy of the board's mutable data: grid plus counters. */
  datatype State = State(rows: seq<seq<bool>>, widths: seq<int>, heights: seq<int>, maxHeight: int)

  function Max(a: int, b: int): int
  {
    if a < b then b else a
  }

  /** Occupancy that reads as empty anywhere off the grid. */
  predicate Cell(rows: seq<seq<bool>>, x: int, y: int)
  {
    0 <= y < |rows| && 0 <= x < |rows[y]| && rows[y][x]
  }

  /** `h` rows of `w` cells each. */
  predicate Shaped(rows: seq<seq<bool>>, w: nat, h: nat)
  {
    |rows| == h && forall y :: 0 <= y < h ==> |rows[y]| == w
  }

  function EmptyRow(w: nat): (row: seq<bool>)
    ensures |row| == w
    ensures forall x :: 0 <= x < w ==> !row[x]
  {
    seq(w, _ => false)
  }

  /** Number of occupied cells in a row, scanning left to right. */
  function Count(row: seq<bool>): (n: nat)
    ensures n <= |row|
  {
    if |row| == 0 then 0
    else Count(row[..|row| - 1]) + (if row[|row| - 1] then 1 else 0)
  }

  /** A row's count reaches its length exactly when every cell is occupied. */
  lemma {:induction false} CountAll(row: seq<bool>)
    ensures Count(row) == |row| <==> forall x :: 0 <= x < |row| ==> row[x]
  {
    if |row| > 0 {
      var init := row[..|row| - 1];
      CountAll(init);
      assert forall x :: 0 <= x < |init| ==> init[x] == row[x];
    }
  }

  /** A row of a `w`-wide board is full when its count reaches the width. */
  predicate IsFull(row: seq<bool>, w: nat)
  {
    Count(row) == w
  }

  /** `h` is the height of column `x`: 1 + its topmost occupied row, or 0. */
  predicate IsColumnHeight(rows: seq<seq<bool>>, x: int, h: int)
  {
    && 0 <= h <= |rows|
    && (h == 0 || Cell(rows, x, h - 1))
    && forall y :: h <= y < |rows| ==> !Cell(rows, x, y)
  }

  /** `m` is the maximum of `s`, counting 0 as a floor (the board's tallest column). */
  predicate IsMax(s: seq<int>, m: int)
  {
    && m >= 0
    && (forall i :: 0 <= i < |s| ==> s[i] <= m)
    && (m == 0 || exists i :: 0 <= i < |s| && s[i] == m)
  }

  /** The accounting invariant: every counter agrees with the grid. */
  predicate Sane(s: State, w: nat, h: nat)
  {
    && Shaped(s.rows, w, h)
    && |s.widths| == h
    && |s.heights| == w
    && (forall y :: 0 <= y < h ==> s.widths[y] == Count(s.rows[y]))
    && (forall x :: 0 <= x < w ==> IsColumnHeight(s.rows, x, s.heights[x]))
    && IsMax(s.heights, s.maxHeight)
  }

  lemma ColumnHeightUnique(rows: seq<seq<bool>>, x: int, h1: int, h2: int)
    requires IsColumnHeight(rows, x, h1) && IsColumnHeight(rows, x, h2)
    ensures h1 == h2
  {
  }

  lemma MaxUnique(s: seq<int>, m1: int, m2: int)
    requires IsMax(s, m1) && IsMax(s, m2)
    ensures m1 == m2
  {
  }

  lemma MaxAppend(s: seq<int>, m: int, v: int)
    requires IsMax(s, m) && v >= 0
    ensures IsMax(s + [v], Max(m, v))
  {
    var t := s + [v];
    if Max(m, v) == v {
      assert t[|s|] == v;
    } else if m != 0 {
      var i :| 0 <= i < |s| && s[i] == m;
      assert t[i] == m;
    }
  }

  /** Raising one element to `v` raises the maximum to at most `v`. */
  lemma MaxRaise(s: seq<int>, m: int, i: nat, v: int)
    requires IsMax(s, m) && i < |s| && s[i] <= v
    ensures IsMax(s[i := v], Max(m, v))
  {
    var t := s[i := v];
    if Max(m, v) == v {
      assert t[i] == v;
    } else if m != 0 {
      var k :| 0 <= k < |s| && s[k] == m;
      if k != i {
        assert t[k] == m;
      }
    }
  }

  /** Largest element of `s`, starting from 0 as the Java scan does. */
  function MaxOf(s: seq<int>): (m: int)
    ensures IsMax(s, m)
  {
    if |s| == 0 then 0
    else
      var m := MaxOf(s[..|s| - 1]);
      assert forall i :: 0 <= i < |s| - 1 ==> s[..|s| - 1][i] == s[i];
      Max(m, s[|s| - 1])
  }

  /**
   Height of column `x` found by scanning rows `y`, `y + 1`, ... upwards and
   remembering the last occupied one, as the height recomputation after a
   row clear does; `acc` is the height of the rows below `y`.
   */
  function ScanHeight(rows: seq<seq<bool>>, x: int, y: nat, acc: int): (h: int)
    requires y <= |rows|
    requires IsColumnHeight(rows[..y], x, acc)
    ensures IsColumnHeight(rows, x, h)
    decreases |rows| - y
  {
    if y == |rows| then
      assert rows[..y] == rows;
      acc
    else
      var acc' := if Cell(rows, x, y) then y + 1 else acc;
      PrefixCell(rows, y);
      PrefixCell(rows, y + 1);
      ScanHeight(rows, x, y + 1, acc')
  }

  /** The first `n` rows hold exactly the cells of `rows` below row `n`. */
  lemma PrefixCell(rows: seq<seq<bool>>, n: nat)
    requires n <= |rows|
    ensures forall x, y :: Cell(rows[..n], x, y) <==> y < n && Cell(rows, x, y)
  {
    forall x, y
      ensures Cell(rows[..n], x, y) <==> y < n && Cell(rows, x, y)
    {
      if 0 <= y < n {
        assert rows[..n][y] == rows[y];
      }
    }
  }

  function ColumnHeight(rows: seq<seq<bool>>, x: int): (h: int)
    ensures IsColumnHeight(rows, x, h)
  {
    ScanHeight(rows, x, 0, 0)
  }

  /** Occupying an empty cell adds exactly one to its row's count. */
  lemma {:induction false} CountSet(row: seq<bool>, x: nat)
    requires x < |row| && !row[x]
    ensures Count(row[x := true]) == Count(row) + 1
    decreases |row|
  {
    var last := |row| - 1;
    if x < last {
      assert row[x := true][..last] == row[..last][x := true];
      CountSet(row[..last], x);
    } else {
      assert row[x := true][..last] == row[..last];
    }
  }

  lemma {:induction false} CountEmpty(w: nat)
    ensures Count(EmptyRow(w)) == 0
  {
    if w > 0 {
      assert EmptyRow(w)[..w - 1] == EmptyRow(w - 1);
      CountEmpty(w - 1);
    }
  }

  /**
   A sane state has no occupied cell at or above its max height, which is
   within the board. Stated as implications so that a getter can use it on
   any state.
   */
  lemma SaneTop(s: State, w: nat, h: nat)
    ensures Sane(s, w, h) ==> 0 <= s.maxHeight <= h
    ensures Sane(s, w, h) ==> forall x, y :: s.maxHeight <= y ==> !Cell(s.rows, x, y)
    ensures Sane(s, w, h) && s.maxHeight > 0 ==> exists x :: 0 <= x < w && IsColumnHeight(s.rows, x, s.maxHeight)
  {
    if Sane(s, w, h) {
      forall x, y | s.maxHeight <= y
        ensures !Cell(s.rows, x, y)
      {
        if 0 <= x < w {
          assert IsColumnHeight(s.rows, x, s.heights[x]);
        }
      }
      if s.maxHeight != 0 {
        var i :| 0 <= i < |s.heights| && s.heights[i] == s.maxHeight;
        assert IsColumnHeight(s.rows, i, s.heights[i]);
      }
    }
  }

  /** With no filled cell from row `t` up, a sane state's max height is at most `t`. */
  lemma SaneBelow(s: State, w: nat, h: nat, t: int)
    requires Sane(s, w, h) && t >= 0
    requires forall x, y :: t <= y ==> !Cell(s.rows, x, y)
    ensures s.maxHeight <= t
  {
    SaneTop(s, w, h);
  }

  /** The counters are a function of the grid: two sane states with the same grid are equal. */
  lemma SaneDetermined(s1: State, s2: State, w: nat, h: nat)
    requires Sane(s1, w, h) && Sane(s2, w, h) && s1.rows == s2.rows
    ensures s1 == s2
  {
    forall x | 0 <= x < w
      ensures s1.heights[x] == s2.heights[x]
    {
      ColumnHeightUnique(s1.rows, x, s1.heights[x], s2.heights[x]);
    }
    assert s1.heights == s2.heights;
    assert s1.widths == s2.widths;
    MaxUnique(s1.heights, s1.maxHeight, s2.maxHeight);
  }
}
