/**
 Row clearing: every completely filled row is removed, the rows above it
 move down one, and the column heights and max height are recounted from
 the grid afterwards. Row widths are carried along with their rows.
 */
module Compaction {
  import opened Accounting
  import opened TetrisBoard

  /** Number of full rows. */
  function FullCount(rows: seq<seq<bool>>, w: nat): (n: nat)
    ensures n <= |rows|
  {
    if |rows| == 0 then 0
    else (if IsFull(rows[0], w) then 1 else 0) + FullCount(rows[1..], w)
  }

  /** The rows that are not full, in their original order. */
  function NonFull(rows: seq<seq<bool>>, w: nat): (kept: seq<seq<bool>>)
    ensures |kept| + FullCount(rows, w) == |rows|
    ensures forall j :: 0 <= j < |kept| ==> !IsFull(kept[j], w)
  {
    if |rows| == 0 then []
    else if IsFull(rows[0], w) then NonFull(rows[1..], w)
    else [rows[0]] + NonFull(rows[1..], w)
  }

  function Empties(n: nat, w: nat): (rows: seq<seq<bool>>)
    ensures |rows| == n && forall j :: 0 <= j < n ==> rows[j] == EmptyRow(w)
  {
    seq(n, _ => EmptyRow(w))
  }

  /**
   The grid a row clear should produce: the rows that are not full, in their
   order, from the floor up, and empty rows above them.
   */
  function Compact(rows: seq<seq<bool>>, w: nat): seq<seq<bool>>
  {
    var kept := NonFull(rows, w);
    kept + Empties(|rows| - |kept|, w)
  }

  /** Total number of filled cells. */
  function TotalCells(rows: seq<seq<bool>>): nat
  {
    if |rows| == 0 then 0 else Count(rows[0]) + TotalCells(rows[1..])
  }

  lemma {:induction false} FullCountAppend(a: seq<seq<bool>>, b: seq<seq<bool>>, w: nat)
    ensures FullCount(a + b, w) == FullCount(a, w) + FullCount(b, w)
    decreases |a|
  {
    if |a| == 0 {
      assert a + b == b;
    } else {
      assert (a + b)[1..] == a[1..] + b;
      FullCountAppend(a[1..], b, w);
    }
  }

  lemma {:induction false} NonFullAppend(a: seq<seq<bool>>, b: seq<seq<bool>>, w: nat)
    ensures NonFull(a + b, w) == NonFull(a, w) + NonFull(b, w)
    decreases |a|
  {
    if |a| == 0 {
      assert a + b == b;
    } else {
      assert (a + b)[1..] == a[1..] + b;
      NonFullAppend(a[1..], b, w);
    }
  }

  lemma {:induction false} TotalCellsAppend(a: seq<seq<bool>>, b: seq<seq<bool>>)
    ensures TotalCells(a + b) == TotalCells(a) + TotalCells(b)
    decreases |a|
  {
    if |a| == 0 {
      assert a + b == b;
    } else {
      assert (a + b)[1..] == a[1..] + b;
      TotalCellsAppend(a[1..], b);
    }
  }

  /** Dropping the full rows removes exactly `w` cells per dropped row. */
  lemma {:induction false} TotalCellsNonFull(rows: seq<seq<bool>>, w: nat)
    ensures TotalCells(NonFull(rows, w)) + w * FullCount(rows, w) == TotalCells(rows)
  {
    if |rows| > 0 {
      var rest := rows[1..];
      var n := FullCount(rest, w);
      TotalCellsNonFull(rest, w);
      if IsFull(rows[0], w) {
        assert FullCount(rows, w) == n + 1;
        MulSucc(w, n);
      } else {
        var kept := NonFull(rest, w);
        assert ([rows[0]] + kept)[1..] == kept;
        assert FullCount(rows, w) == n;
      }
    }
  }

  lemma MulSucc(w: nat, n: nat)
    ensures w * (n + 1) == w * n + w
  {
  }

  lemma {:induction false} TotalCellsEmpties(n: nat, w: nat)
    ensures TotalCells(Empties(n, w)) == 0
  {
    if n > 0 {
      assert Empties(n, w)[1..] == Empties(n - 1, w);
      CountEmpty(w);
      TotalCellsEmpties(n - 1, w);
    }
  }

  /** With no full row, the filter keeps everything. */
  lemma {:induction false} NonFullNoneFull(rows: seq<seq<bool>>, w: nat)
    requires FullCount(rows, w) == 0
    ensures NonFull(rows, w) == rows
  {
    if |rows| > 0 {
      NonFullNoneFull(rows[1..], w);
      assert [rows[0]] + rows[1..] == rows;
    }
  }

  /** Rows that are all empty are not full on a board of positive width. */
  lemma EmptyRowsKept(rows: seq<seq<bool>>, w: nat)
    requires w > 0 && forall j :: 0 <= j < |rows| ==> rows[j] == EmptyRow(w)
    ensures FullCount(rows, w) == 0 && NonFull(rows, w) == rows
  {
    CountEmpty(w);
    if |rows| > 0 {
      EmptyRowsKept(rows[1..], w);
      assert [rows[0]] + rows[1..] == rows;
    }
  }

  lemma EmptiesAppend(m: nat, n: nat, w: nat)
    ensures Empties(m, w) + Empties(n, w) == Empties(m + n, w)
  {
  }

  /** Rows that read as empty in every column are the empty row. */
  lemma EmptyRowsAbove(s: State, w: nat, h: nat)
    requires Sane(s, w, h)
    ensures 0 <= s.maxHeight <= h
    ensures forall j :: s.maxHeight <= j < h ==> s.rows[j] == EmptyRow(w)
  {
    SaneTop(s, w, h);
    forall j | s.maxHeight <= j < h
      ensures s.rows[j] == EmptyRow(w)
    {
      forall x | 0 <= x < w
        ensures !s.rows[j][x]
      {
        assert !Cell(s.rows, x, j);
      }
    }
  }

  /**
   The copyDown loop: for y from `y` up to `mh` inclusive, row y - 1 takes a
   copy of row y (and its width), except that row mh - 1 becomes empty with
   width 0. Rows below y - 1 and from mh up are untouched.
   */
  function CopyDown(s: State, w: nat, y: nat, mh: nat): (r: State)
    requires 1 <= y <= mh + 1 && mh <= |s.rows| && |s.widths| == |s.rows|
    ensures |r.rows| == |s.rows| && |r.widths| == |s.widths|
    ensures r.heights == s.heights && r.maxHeight == s.maxHeight
    ensures forall j :: 0 <= j < y - 1 || mh <= j < |s.rows| ==> r.rows[j] == s.rows[j] && r.widths[j] == s.widths[j]
    ensures forall j :: y - 1 <= j < mh - 1 ==> r.rows[j] == s.rows[j + 1] && r.widths[j] == s.widths[j + 1]
    ensures y <= mh ==> r.rows[mh - 1] == EmptyRow(w) && r.widths[mh - 1] == 0
    ensures y > mh ==> r == s
    decreases mh + 1 - y
  {
    if y > mh then s
    else
      var row := if y < mh then s.rows[y] else EmptyRow(w);
      var width := if y == mh then 0 else s.widths[y];
      var s' := s.(rows := s.rows[y - 1 := row], widths := s.widths[y - 1 := width]);
      assert forall j :: 0 <= j < |s.rows| && j != y - 1 ==> s'.rows[j] == s.rows[j] && s'.widths[j] == s.widths[j];
      CopyDown(s', w, y + 1, mh)
  }

  /** Rows of width `w` whose stored widths are their counts. */
  predicate Counted(s: State, w: nat)
  {
    && |s.widths| == |s.rows|
    && (forall j :: 0 <= j < |s.rows| ==> |s.rows[j]| == w)
    && (forall j :: 0 <= j < |s.rows| ==> s.widths[j] == Count(s.rows[j]))
  }

  /**
   Copying down from row i + 1 to `mh`: the rows below `i` and from `mh` up stay,
   rows i+1..mh-1 move down one with an empty row on top, and the widths move
   with their rows.
   */
  lemma ShiftDown(s: State, w: nat, i: nat, mh: nat)
    requires i < mh <= |s.rows| && Counted(s, w)
    ensures var t := CopyDown(s, w, i + 1, mh);
            && Counted(t, w)
            && t.rows[..i] == s.rows[..i]
            && t.rows[i..mh] == s.rows[i + 1..mh] + [EmptyRow(w)]
            && t.rows[mh..] == s.rows[mh..]
  {
    ShiftCounted(s, w, i, mh);
    ShiftRows(s, w, i, mh);
  }

  lemma ShiftCounted(s: State, w: nat, i: nat, mh: nat)
    requires i < mh <= |s.rows| && Counted(s, w)
    ensures Counted(CopyDown(s, w, i + 1, mh), w)
  {
    var t := CopyDown(s, w, i + 1, mh);
    CountEmpty(w);
    forall j | 0 <= j < |t.rows|
      ensures |t.rows[j]| == w && t.widths[j] == Count(t.rows[j])
    {
      if j < i || mh <= j {
        assert t.rows[j] == s.rows[j] && t.widths[j] == s.widths[j];
      } else if j < mh - 1 {
        assert t.rows[j] == s.rows[j + 1] && t.widths[j] == s.widths[j + 1];
      } else {
        assert t.rows[j] == EmptyRow(w) && t.widths[j] == 0;
      }
    }
  }

  lemma ShiftRows(s: State, w: nat, i: nat, mh: nat)
    requires i < mh <= |s.rows| && |s.widths| == |s.rows|
    ensures var t := CopyDown(s, w, i + 1, mh);
            && t.rows[..i] == s.rows[..i]
            && t.rows[i..mh] == s.rows[i + 1..mh] + [EmptyRow(w)]
            && t.rows[mh..] == s.rows[mh..]
  {
    var t := CopyDown(s, w, i + 1, mh);
    assert t.rows[..i] == s.rows[..i];
    assert t.rows[i..mh] == s.rows[i + 1..mh] + [EmptyRow(w)];
    assert t.rows[mh..] == s.rows[mh..];
  }

  /**
   Trading a full row at the bottom of a stretch for an empty row on top: one
   full row fewer, and the same rows kept with the empty row after them.
   */
  lemma TradeFullForEmpty(full: seq<bool>, a: seq<seq<bool>>, w: nat)
    requires w > 0 && IsFull(full, w)
    ensures FullCount(a + [EmptyRow(w)], w) + 1 == FullCount([full] + a, w)
    ensures NonFull(a + [EmptyRow(w)], w) == NonFull([full] + a, w) + [EmptyRow(w)]
  {
    CountEmpty(w);
    assert ([full] + a)[1..] == a;
    FullCountAppend(a, [EmptyRow(w)], w);
    NonFullAppend(a, [EmptyRow(w)], w);
    assert [EmptyRow(w)][1..] == [];
  }

  /** Removing full row `i` below `mh` by copying down leaves one full row fewer there. */
  lemma RemoveRow(s: State, w: nat, i: nat, mh: nat)
    requires i < mh <= |s.rows| && Counted(s, w) && w > 0 && IsFull(s.rows[i], w)
    ensures var t := CopyDown(s, w, i + 1, mh);
            && Counted(t, w)
            && t.rows[..i] == s.rows[..i]
            && t.rows[mh..] == s.rows[mh..]
            && FullCount(t.rows[i..mh], w) + 1 == FullCount(s.rows[i..mh], w)
            && NonFull(t.rows[i..mh], w) == NonFull(s.rows[i..mh], w) + [EmptyRow(w)]
  {
    ShiftDown(s, w, i, mh);
    assert s.rows[i..mh] == [s.rows[i]] + s.rows[i + 1..mh];
    TradeFullForEmpty(s.rows[i], s.rows[i + 1..mh], w);
  }

  /**
   The grid a scan from row `i` to `mh` leaves: rows below `i` as they were,
   then the rows of i..mh-1 that are not full, one empty row per full one, and
   the rows from `mh` up as they were.
   */
  function Splice(rows: seq<seq<bool>>, w: nat, i: nat, mh: nat): seq<seq<bool>>
    requires i <= mh <= |rows|
  {
    rows[..i] + NonFull(rows[i..mh], w) + Empties(FullCount(rows[i..mh], w), w) + rows[mh..]
  }

  lemma SpliceEnd(rows: seq<seq<bool>>, w: nat, mh: nat)
    requires mh <= |rows|
    ensures Splice(rows, w, mh, mh) == rows
  {
    assert rows[mh..mh] == [];
    assert Empties(0, w) == [];
    assert rows[..mh] + rows[mh..] == rows;
  }

  /** Passing a row that is not full moves it from the scanned part to the part below. */
  lemma SplicePass(rows: seq<seq<bool>>, w: nat, i: nat, mh: nat)
    requires i < mh <= |rows| && !IsFull(rows[i], w)
    ensures FullCount(rows[i + 1..mh], w) == FullCount(rows[i..mh], w)
    ensures Splice(rows, w, i + 1, mh) == Splice(rows, w, i, mh)
  {
    var rest := rows[i + 1..mh];
    assert rows[i..mh][1..] == rest;
    var kept := NonFull(rest, w);
    var empties := Empties(FullCount(rest, w), w);
    assert NonFull(rows[i..mh], w) == [rows[i]] + kept;
    assert rows[..i + 1] == rows[..i] + [rows[i]];
    assert rows[..i] + ([rows[i]] + kept) + empties + rows[mh..] == (rows[..i] + [rows[i]]) + kept + empties + rows[mh..];
  }

  /** Removing full row `i` by a copy down leaves the same splice, with one full row fewer to go. */
  lemma SpliceRemove(s: State, w: nat, i: nat, mh: nat)
    requires i < mh <= |s.rows| && Counted(s, w) && w > 0 && IsFull(s.rows[i], w)
    ensures var t := CopyDown(s, w, i + 1, mh);
            && Counted(t, w) && |t.rows| == |s.rows|
            && t.heights == s.heights && t.maxHeight == s.maxHeight
            && FullCount(t.rows[i..mh], w) + 1 == FullCount(s.rows[i..mh], w)
            && Splice(t.rows, w, i, mh) == Splice(s.rows, w, i, mh)
  {
    var t := CopyDown(s, w, i + 1, mh);
    RemoveRow(s, w, i, mh);
    var k := FullCount(t.rows[i..mh], w);
    var kept := NonFull(s.rows[i..mh], w);
    EmptiesAppend(1, k, w);
    assert Empties(1, w) == [EmptyRow(w)];
    assert (kept + [EmptyRow(w)]) + Empties(k, w) == kept + Empties(k + 1, w);
  }

  /**
   The scan of clearRows from row `i` up to the max height `mh` fixed when it
   began: a full row is removed and the same index looked at again, any
   other row is passed. `cleared` grows by the number removed.
   */
  function ClearFrom(s: State, w: nat, i: nat, mh: nat, cleared: nat): (r: (State, nat))
    requires i <= mh <= |s.rows| && Counted(s, w) && (w > 0 || i == mh)
    ensures Counted(r.0, w) && |r.0.rows| == |s.rows|
    ensures r.0.heights == s.heights && r.0.maxHeight == s.maxHeight
    ensures r.0.rows == Splice(s.rows, w, i, mh)
    ensures r.1 == cleared + FullCount(s.rows[i..mh], w)
    decreases FullCount(s.rows[i..mh], w), mh - i
  {
    if i >= mh then
      SpliceEnd(s.rows, w, mh);
      (s, cleared)
    else if s.widths[i] == w then
      SpliceRemove(s, w, i, mh);
      ClearFrom(CopyDown(s, w, i + 1, mh), w, i, mh, cleared + 1)
    else
      SplicePass(s.rows, w, i, mh);
      ClearFrom(s, w, i + 1, mh, cleared)
  }

  /**
   The recount after clearing (heights and max height only): each column's
   height from a scan of the rows below `mh`, and the largest of them.
   */
  function Recount(s: State, w: nat, h: nat, mh: nat): (r: State)
    requires Counted(s, w) && |s.rows| == h && mh <= h
    requires forall x, y :: mh <= y ==> !Cell(s.rows, x, y)
    ensures Sane(r, w, h)
    ensures r.rows == s.rows && r.widths == s.widths
  {
    var heights := seq(w, x => ColumnHeight(s.rows[..mh], x));
    PrefixCell(s.rows, mh);
    State(s.rows, s.widths, heights, MaxOf(heights))
  }

  /** The scan keeps the grid's size and leaves the rows from `mh` up as they were. */
  lemma SpliceTop(rows: seq<seq<bool>>, w: nat, mh: nat)
    requires mh <= |rows|
    requires forall x, y :: mh <= y ==> !Cell(rows, x, y)
    ensures |Splice(rows, w, 0, mh)| == |rows|
    ensures forall x, y :: mh <= y ==> !Cell(Splice(rows, w, 0, mh), x, y)
  {
    var r := Splice(rows, w, 0, mh);
    var lower := NonFull(rows[0..mh], w) + Empties(FullCount(rows[0..mh], w), w);
    assert r == rows[..0] + lower + rows[mh..];
    assert |lower| == mh;
    forall x, y | mh <= y
      ensures !Cell(r, x, y)
    {
      if y < |r| {
        assert !Cell(rows, x, y);
        assert r[y] == rows[mh..][y - mh] == rows[y];
      }
    }
  }

  /** A sane board of width 0 has max height 0. */
  lemma NarrowFlat(s: State, w: nat, h: nat)
    requires Sane(s, w, h)
    ensures w == 0 ==> s.maxHeight == 0
  {
    SaneTop(s, w, h);
  }

  /** When the scan removed nothing, the recounted state is the state clearRows began with. */
  lemma NoneClearedIf(s0: State, s: State, w: nat, h: nat, mh: nat)
    requires Sane(s0, w, h) && Sane(s, w, h) && mh <= h && s.rows == Splice(s0.rows, w, 0, mh)
    ensures FullCount(s0.rows[0..mh], w) == 0 ==> s == s0
  {
    if FullCount(s0.rows[0..mh], w) == 0 {
      var lower := s0.rows[0..mh];
      NonFullNoneFull(lower, w);
      assert Empties(0, w) == [];
      assert s0.rows[..0] == [];
      assert s.rows == lower + s0.rows[mh..];
      assert lower + s0.rows[mh..] == s0.rows;
      SaneDetermined(s, s0, w, h);
    }
  }

  /** What clearRows returns: the board after clearing and the number of rows removed. */
  datatype Clearing = Clearing(board: Board, rowsCleared: nat)

  /**
   clearRows: scan rows 0 up to the max height found on entry, removing each
   full row by copying the rows above it down one, then recount the column
   heights and max height. The board becomes uncommitted if any row went.
   */
  function ClearRows(b: Board): (c: Clearing)
    requires Valid(b)
    ensures Valid(c.board)
    ensures c.board.width == b.width && c.board.height == b.height && c.board.prev == b.prev
    ensures c.board.committed == (b.committed && c.rowsCleared == 0)
    ensures 0 <= b.cur.maxHeight <= b.height
    ensures c.rowsCleared == FullCount(b.cur.rows[0..b.cur.maxHeight], b.width)
    ensures c.board.cur.rows == Splice(b.cur.rows, b.width, 0, b.cur.maxHeight)
    ensures c.rowsCleared == 0 ==> c.board == b
  {
    var w, h, mh := b.width, b.height, b.cur.maxHeight;
    SaneTop(b.cur, w, h);
    NarrowFlat(b.cur, w, h);
    var r := ClearFrom(b.cur, w, 0, mh, 0);
    SpliceTop(b.cur.rows, w, mh);
    var s := Recount(r.0, w, h, mh);
    NoneClearedIf(b.cur, s, w, h, mh);
    Clearing(b.(cur := s, committed := b.committed && r.1 == 0), r.1)
  }

  /** Rows that are all the empty row form a block of empties. */
  lemma EmptiesFrom(rows: seq<seq<bool>>, w: nat)
    requires forall j :: 0 <= j < |rows| ==> rows[j] == EmptyRow(w)
    ensures rows == Empties(|rows|, w)
  {
  }

  lemma {:induction false} NoneFullCount(rows: seq<seq<bool>>, w: nat)
    requires forall j :: 0 <= j < |rows| ==> !IsFull(rows[j], w)
    ensures FullCount(rows, w) == 0
  {
    if |rows| > 0 {
      assert !IsFull(rows[0], w);
      NoneFullCount(rows[1..], w);
    }
  }

  /** On a board of width 0 every row is empty and full at once. */
  lemma {:induction false} NarrowNonFull(rows: seq<seq<bool>>)
    requires forall j :: 0 <= j < |rows| ==> |rows[j]| == 0
    ensures NonFull(rows, 0) == []
  {
    if |rows| > 0 {
      assert |rows[0]| == 0;
      NarrowNonFull(rows[1..]);
    }
  }

  /** A grid whose rows from `mh` up are empty is its lower part plus empties. */
  lemma LowAndEmpties(rows: seq<seq<bool>>, w: nat, mh: nat)
    requires mh <= |rows| && forall j :: mh <= j < |rows| ==> rows[j] == EmptyRow(w)
    ensures rows[mh..] == Empties(|rows| - mh, w)
    ensures rows == rows[0..mh] + Empties(|rows| - mh, w)
  {
    EmptiesFrom(rows[mh..], w);
    assert rows == rows[0..mh] + rows[mh..];
  }

  /** With empty rows from `mh` up, those rows are neither full nor dropped. */
  lemma FilterLow(rows: seq<seq<bool>>, w: nat, mh: nat)
    requires w > 0 && mh <= |rows| && forall j :: mh <= j < |rows| ==> rows[j] == EmptyRow(w)
    ensures NonFull(rows, w) == NonFull(rows[0..mh], w) + Empties(|rows| - mh, w)
    ensures FullCount(rows, w) == FullCount(rows[0..mh], w)
  {
    LowAndEmpties(rows, w, mh);
    var low, high := rows[0..mh], rows[mh..];
    EmptyRowsKept(high, w);
    NonFullAppend(low, high, w);
    FullCountAppend(low, high, w);
  }

  /** With empty rows from `mh` up, the scan's splice is the kept rows plus empties. */
  lemma SpliceLow(rows: seq<seq<bool>>, w: nat, mh: nat)
    requires mh <= |rows| && forall j :: mh <= j < |rows| ==> rows[j] == EmptyRow(w)
    ensures Splice(rows, w, 0, mh) == NonFull(rows[0..mh], w) + Empties(FullCount(rows[0..mh], w) + (|rows| - mh), w)
  {
    LowAndEmpties(rows, w, mh);
    var low := rows[0..mh];
    var k := FullCount(low, w);
    assert rows[..0] == [];
    EmptiesAppend(k, |rows| - mh, w);
    assert Splice(rows, w, 0, mh) == NonFull(low, w) + Empties(k, w) + Empties(|rows| - mh, w);
  }

  /** With empty rows from `mh` up, the scan's splice is the reference compaction. */
  lemma SpliceCompact(rows: seq<seq<bool>>, w: nat, mh: nat)
    requires w > 0 && mh <= |rows| && forall j :: mh <= j < |rows| ==> rows[j] == EmptyRow(w)
    ensures Splice(rows, w, 0, mh) == Compact(rows, w)
  {
    SpliceLow(rows, w, mh);
    FilterLow(rows, w, mh);
    var low := rows[0..mh];
    var kept := NonFull(low, w);
    var k := FullCount(low, w);
    assert |kept| + k == |low|;
    EmptiesAppend(|rows| - mh, k, w);
    assert Compact(rows, w) == kept + Empties(|rows| - mh, w) + Empties(k, w);
  }

  /** With empty rows from `mh` up, no row is full after the scan (for positive width). */
  lemma SpliceNoFullRow(rows: seq<seq<bool>>, w: nat, mh: nat)
    requires w > 0 && mh <= |rows| && forall j :: mh <= j < |rows| ==> rows[j] == EmptyRow(w)
    ensures |Splice(rows, w, 0, mh)| == |rows|
    ensures forall y :: 0 <= y < |rows| ==> !IsFull(Splice(rows, w, 0, mh)[y], w)
  {
    SpliceLow(rows, w, mh);
    CountEmpty(w);
    var kept := NonFull(rows[0..mh], w);
    var after := Splice(rows, w, 0, mh);
    forall y | 0 <= y < |rows|
      ensures !IsFull(after[y], w)
    {
      if y < |kept| {
        assert after[y] == kept[y];
      } else {
        assert after[y] == EmptyRow(w);
      }
    }
  }

  /** Appending empty rows adds no filled cells. */
  lemma TotalCellsPadded(rows: seq<seq<bool>>, n: nat, w: nat)
    ensures TotalCells(rows + Empties(n, w)) == TotalCells(rows)
  {
    TotalCellsAppend(rows, Empties(n, w));
    TotalCellsEmpties(n, w);
  }

  /** With empty rows from `mh` up, the scan removes `w` cells per full row and no others. */
  lemma SpliceCells(rows: seq<seq<bool>>, w: nat, mh: nat)
    requires mh <= |rows| && forall j :: mh <= j < |rows| ==> rows[j] == EmptyRow(w)
    ensures TotalCells(Splice(rows, w, 0, mh)) + w * FullCount(rows[0..mh], w) == TotalCells(rows)
  {
    var low := rows[0..mh];
    SpliceLow(rows, w, mh);
    TotalCellsPadded(NonFull(low, w), FullCount(low, w) + (|rows| - mh), w);
    LowAndEmpties(rows, w, mh);
    TotalCellsPadded(low, |rows| - mh, w);
    TotalCellsNonFull(low, w);
  }

  /** With empty rows from `mh` up, the scan leaves no filled cell from mh - (rows removed) up. */
  lemma SpliceTopEmpty(rows: seq<seq<bool>>, w: nat, mh: nat)
    requires mh <= |rows| && forall j :: mh <= j < |rows| ==> rows[j] == EmptyRow(w)
    ensures FullCount(rows[0..mh], w) <= mh
    ensures forall x, y :: mh - FullCount(rows[0..mh], w) <= y ==> !Cell(Splice(rows, w, 0, mh), x, y)
  {
    SpliceLow(rows, w, mh);
    var kept := NonFull(rows[0..mh], w);
    var after := Splice(rows, w, 0, mh);
    forall x, y | mh - FullCount(rows[0..mh], w) <= y
      ensures !Cell(after, x, y)
    {
      if 0 <= y < |after| {
        assert after[y] == EmptyRow(w);
      }
    }
  }

  /** What a valid board gives the scan: rows from the max height up are empty, and width 0 means height 0. */
  lemma ClearRowsInput(b: Board)
    requires Valid(b)
    ensures 0 <= b.cur.maxHeight <= |b.cur.rows| == b.height
    ensures forall j :: b.cur.maxHeight <= j < |b.cur.rows| ==> b.cur.rows[j] == EmptyRow(b.width)
    ensures b.width == 0 ==> b.cur.maxHeight == 0
  {
    EmptyRowsAbove(b.cur, b.width, b.height);
    NarrowFlat(b.cur, b.width, b.height);
  }

  /** clearRows leaves exactly the reference compaction: non-full rows in order, then empty rows. */
  lemma ClearRowsCompacts(b: Board)
    requires Valid(b)
    ensures ClearRows(b).board.cur.rows == Compact(b.cur.rows, b.width)
  {
    var w, h := b.width, b.height;
    var rows := b.cur.rows;
    ClearRowsInput(b);
    if w > 0 {
      SpliceCompact(rows, w, b.cur.maxHeight);
    } else {
      NarrowNonFull(rows);
      EmptiesFrom(rows, 0);
    }
  }

  /**
   clearRows reports the number of full rows on the board (on a board of
   width 0 it reports none, as the scan stops at max height 0).
   */
  lemma ClearRowsCount(b: Board)
    requires Valid(b)
    ensures b.width > 0 ==> ClearRows(b).rowsCleared == FullCount(b.cur.rows, b.width)
    ensures b.width == 0 ==> ClearRows(b).rowsCleared == 0
  {
    ClearRowsInput(b);
    if b.width > 0 {
      FilterLow(b.cur.rows, b.width, b.cur.maxHeight);
    }
  }

  /** After clearRows no row is full (on a board of positive width). */
  lemma ClearRowsNoFullRow(b: Board)
    requires Valid(b) && b.width > 0
    ensures forall y :: 0 <= y < b.height ==> !IsFull(ClearRows(b).board.cur.rows[y], b.width)
  {
    ClearRowsInput(b);
    SpliceNoFullRow(b.cur.rows, b.width, b.cur.maxHeight);
  }

  /** clearRows removes exactly `width` filled cells per cleared row, and no others. */
  lemma ClearRowsCells(b: Board)
    requires Valid(b)
    ensures var c := ClearRows(b);
            TotalCells(c.board.cur.rows) + b.width * c.rowsCleared == TotalCells(b.cur.rows)
  {
    ClearRowsInput(b);
    SpliceCells(b.cur.rows, b.width, b.cur.maxHeight);
  }

  /** A second clearRows straight after the first finds nothing to clear. */
  lemma ClearRowsIdempotent(b: Board)
    requires Valid(b)
    ensures ClearRows(ClearRows(b).board).rowsCleared == 0
  {
    var b' := ClearRows(b).board;
    ClearRowsCount(b');
    if b.width > 0 {
      ClearRowsNoFullRow(b);
      NoneFullCount(b'.cur.rows, b.width);
    }
  }

  /** Clearing lowers the max height by at least the number of rows cleared. */
  lemma ClearRowsLowers(b: Board)
    requires Valid(b)
    ensures var c := ClearRows(b);
            c.board.cur.maxHeight + c.rowsCleared <= b.cur.maxHeight
  {
    var c := ClearRows(b);
    ClearRowsInput(b);
    SpliceTopEmpty(b.cur.rows, b.width, b.cur.maxHeight);
    SaneBelow(c.board.cur, b.width, b.height, b.cur.maxHeight - c.rowsCleared);
  }

  /** With no full row from `t` up to `mh`, the scan keeps rows t..mh in one piece right after the kept rows below t. */
  lemma SpliceAbove(rows: seq<seq<bool>>, w: nat, mh: nat, t: nat)
    requires t <= mh <= |rows| && forall j :: mh <= j < |rows| ==> rows[j] == EmptyRow(w)
    requires forall r :: t <= r < mh ==> !IsFull(rows[r], w)
    ensures FullCount(rows[0..mh], w) == FullCount(rows[0..t], w) <= t
    ensures Splice(rows, w, 0, mh) == NonFull(rows[0..t], w) + rows[t..mh] + Empties(FullCount(rows[0..mh], w) + (|rows| - mh), w)
  {
    var low, below, mid := rows[0..mh], rows[0..t], rows[t..mh];
    assert low == below + mid;
    FullCountAppend(below, mid, w);
    NonFullAppend(below, mid, w);
    NoneFullCount(mid, w);
    NonFullNoneFull(mid, w);
    SpliceLow(rows, w, mh);
  }

  /**
   A column whose top block, in row `t`, lies above every full row: the scan
   moves that block down by the number of full rows and nothing lands above it.
   */
  lemma SpliceColumn(rows: seq<seq<bool>>, w: nat, mh: nat, x: int, t: nat)
    requires t < mh <= |rows| && forall j :: mh <= j < |rows| ==> rows[j] == EmptyRow(w)
    requires Cell(rows, x, t) && forall y :: t < y ==> !Cell(rows, x, y)
    requires forall r :: t <= r < mh ==> !IsFull(rows[r], w)
    ensures FullCount(rows[0..mh], w) <= t
    ensures IsColumnHeight(Splice(rows, w, 0, mh), x, t + 1 - FullCount(rows[0..mh], w))
  {
    SpliceAbove(rows, w, mh, t);
    var k := FullCount(rows[0..mh], w);
    var a, mid, top := NonFull(rows[0..t], w), rows[t..mh], Empties(k + (|rows| - mh), w);
    var after := Splice(rows, w, 0, mh);
    assert |a| == t - k;
    assert after[t - k] == mid[0] == rows[t];
    forall y | t + 1 - k <= y < |after|
      ensures !Cell(after, x, y)
    {
      if y < mh - k {
        assert after[y] == mid[y - (t - k)] == rows[y + k];
        assert !Cell(rows, x, y + k);
      } else {
        assert after[y] == top[y - (mh - k)] == EmptyRow(w);
      }
    }
  }

  /**
   Row clear conservation for one column: when every full row lies below the
   column's top block, the column loses exactly one unit of height per row
   cleared.
   */
  lemma ClearRowsColumnDrop(b: Board, x: int)
    requires Valid(b) && 0 <= x < b.width
    requires forall r :: 0 <= r < b.height && IsFull(b.cur.rows[r], b.width) ==> r + 1 < b.cur.heights[x]
    ensures ClearRows(b).board.cur.heights[x] + ClearRows(b).rowsCleared == b.cur.heights[x]
  {
    var c := ClearRows(b);
    var rows, w, mh, h := b.cur.rows, b.width, b.cur.maxHeight, b.cur.heights[x];
    ClearRowsInput(b);
    assert IsColumnHeight(rows, x, h);
    if h == 0 {
      NoneFullCount(rows[0..mh], w);
    } else {
      assert h <= mh;
      SpliceColumn(rows, w, mh, x, h - 1);
      ColumnHeightUnique(c.board.cur.rows, x, c.board.cur.heights[x], h - c.rowsCleared);
    }
  }

  /**
   Where the kept rows came from: the index (offset by `base`) of each row that
   is not full, in increasing order.
   */
  function KeptIndices(rows: seq<seq<bool>>, w: nat, base: nat): (idx: seq<nat>)
    ensures |idx| == |NonFull(rows, w)|
  {
    if |rows| == 0 then []
    else if IsFull(rows[0], w) then KeptIndices(rows[1..], w, base + 1)
    else [base] + KeptIndices(rows[1..], w, base + 1)
  }

  /** `idx` locates each kept row of `rows` (offset by `base`), at or above its new place, in rising order. */
  predicate Locates(rows: seq<seq<bool>>, w: nat, base: nat, idx: seq<nat>)
  {
    && |idx| == |NonFull(rows, w)|
    && (forall j :: 0 <= j < |idx| ==>
          base + j <= idx[j] < base + |rows| && NonFull(rows, w)[j] == rows[idx[j] - base])
    && (forall j, k :: 0 <= j < k < |idx| ==> idx[j] < idx[k])
  }

  /** A full bottom row is skipped: the indices of the rows above it still locate the kept rows. */
  lemma LocatesSkip(rows: seq<seq<bool>>, w: nat, base: nat, tail: seq<nat>)
    requires |rows| > 0 && IsFull(rows[0], w) && Locates(rows[1..], w, base + 1, tail)
    ensures Locates(rows, w, base, tail)
  {
    var rest := rows[1..];
    assert NonFull(rows, w) == NonFull(rest, w);
    forall j | 0 <= j < |tail|
      ensures base + j <= tail[j] < base + |rows| && NonFull(rows, w)[j] == rows[tail[j] - base]
    {
      assert rest[tail[j] - (base + 1)] == rows[tail[j] - base];
    }
  }

  /** A kept bottom row takes index `base`, ahead of the indices of the rows above it. */
  lemma LocatesKeep(rows: seq<seq<bool>>, w: nat, base: nat, tail: seq<nat>)
    requires |rows| > 0 && !IsFull(rows[0], w) && Locates(rows[1..], w, base + 1, tail)
    ensures Locates(rows, w, base, [base] + tail)
  {
    var rest := rows[1..];
    var idx := [base] + tail;
    var kept := NonFull(rows, w);
    assert kept == [rows[0]] + NonFull(rest, w);
    forall j | 0 <= j < |idx|
      ensures base + j <= idx[j] < base + |rows| && kept[j] == rows[idx[j] - base]
    {
      if j > 0 {
        assert idx[j] == tail[j - 1];
        assert rest[tail[j - 1] - (base + 1)] == rows[tail[j - 1] - base];
      }
    }
    Ascending(base, tail);
  }

  /** A rising sequence of indices above `base` stays rising with `base` put in front. */
  lemma Ascending(base: nat, tail: seq<nat>)
    requires forall j :: 0 <= j < |tail| ==> base < tail[j]
    requires forall j, k :: 0 <= j < k < |tail| ==> tail[j] < tail[k]
    ensures forall j, k :: 0 <= j < k < |[base] + tail| ==> ([base] + tail)[j] < ([base] + tail)[k]
  {
    var idx := [base] + tail;
    forall j, k | 0 <= j < k < |idx|
      ensures idx[j] < idx[k]
    {
      assert idx[k] == tail[k - 1];
      if j > 0 {
        assert idx[j] == tail[j - 1];
      }
    }
  }

  lemma {:induction false} KeptIndicesSpec(rows: seq<seq<bool>>, w: nat, base: nat)
    ensures Locates(rows, w, base, KeptIndices(rows, w, base))
  {
    if |rows| > 0 {
      KeptIndicesSpec(rows[1..], w, base + 1);
      if IsFull(rows[0], w) {
        LocatesSkip(rows, w, base, KeptIndices(rows[1..], w, base + 1));
      } else {
        LocatesKeep(rows, w, base, KeptIndices(rows[1..], w, base + 1));
      }
    }
  }

  /**
   The rows clearRows keeps stay in their order and only move down: the j-th
   row from the floor afterwards is the row that was at KeptIndices[j] >= j,
   and every row above the kept ones is empty.
   */
  lemma ClearRowsKeepsOrder(b: Board)
    requires Valid(b)
    ensures var rows, w := b.cur.rows, b.width;
            var idx := KeptIndices(rows, w, 0);
            var after := ClearRows(b).board.cur.rows;
            && |after| == |rows|
            && (forall j :: 0 <= j < |idx| ==> j <= idx[j] < |rows| && after[j] == rows[idx[j]])
            && (forall j :: |idx| <= j < |after| ==> after[j] == EmptyRow(w))
  {
    ClearRowsCompacts(b);
    KeptIndicesSpec(b.cur.rows, b.width, 0);
  }
}
