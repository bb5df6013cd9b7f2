/**
 The one-level commit/undo journal. `prev` holds the grid and counters as of
 the last commit (or construction); placing and clearing only touch `cur`,
 committing copies `cur` into `prev`, and undo brings `prev` back.
 */
module Journal {
  import opened Accounting
  import opened TetrisBoard
  import opened Placement
  import opened Compaction

  /** backup: copy the live grid and counters into the snapshot. */
  function Backup(b: Board): (b': Board)
    ensures Valid(b) ==> Valid(b')
    ensures b'.prev == b.cur && b'.cur == b.cur
    ensures b'.width == b.width && b'.height == b.height && b'.committed == b.committed
  {
    b.(prev := b.cur)
  }

  /** commit: on an uncommitted board, snapshot the live state and become committed. */
  function Commit(b: Board): (b': Board)
    ensures Valid(b) ==> Valid(b') && b'.committed
    ensures b'.cur == b.cur && b'.width == b.width && b'.height == b.height
    ensures b.committed ==> b' == b
  {
    if b.committed then b
    else Backup(b).(committed := true)
  }

  /**
   undo: on an uncommitted board, swap the live state with the snapshot,
   back up the restored state and become committed.
   */
  function Undo(b: Board): (b': Board)
    ensures Valid(b) ==> Valid(b') && b'.committed
    ensures b'.width == b.width && b'.height == b.height
    ensures b.committed ==> b' == b
    ensures !b.committed ==> b'.cur == b.prev
  {
    if b.committed then b
    else
      var swapped := b.(cur := b.prev, prev := b.cur);
      Backup(swapped).(committed := true)
  }

  /** The committed board whose live state and snapshot are both `s`. */
  function Settled(w: nat, h: nat, s: State): Board
  {
    Board(w, h, s, s, true)
  }

  /** Whatever happened since the last commit, undo settles the board on the snapshot. */
  lemma UndoToSnapshot(b: Board)
    requires Valid(b)
    ensures Undo(b) == Settled(b.width, b.height, b.prev)
  {
  }

  /** commit settles the board on its live state. */
  lemma CommitSettles(b: Board)
    requires Valid(b)
    ensures Commit(b) == Settled(b.width, b.height, b.cur)
  {
  }

  /** A second commit, a second undo, or an undo straight after a commit does nothing. */
  lemma JournalIdempotent(b: Board)
    requires Valid(b)
    ensures Commit(Commit(b)) == Commit(b)
    ensures Undo(Undo(b)) == Undo(b)
    ensures Undo(Commit(b)) == Commit(b)
  {
  }

  /**
   Undo after a placement: the placement only touched the live state, so undo
   gives back the board as it was before the placement.
   */
  lemma PlaceUndoRoundTrip(b: Board, piece: Piece, x: int, y: int)
    requires Valid(b) && b.committed
    ensures Place(b, piece, x, y).Placed?
    ensures Undo(Place(b, piece, x, y).board) == b
  {
    var r := Place(b, piece, x, y);
    UndoToSnapshot(r.board);
  }

  /** Undo after a placement and a row clear gives back the board as it was before both. */
  lemma PlaceClearUndoRoundTrip(b: Board, piece: Piece, x: int, y: int)
    requires Valid(b) && b.committed
    ensures Place(b, piece, x, y).Placed?
    ensures Undo(ClearRows(Place(b, piece, x, y).board).board) == b
  {
    var r := Place(b, piece, x, y);
    var c := ClearRows(r.board);
    UndoToSnapshot(c.board);
  }

  /** The board's client operations, for reasoning about runs of them. */
  datatype Op = PlaceOp(piece: Piece, x: int, y: int) | ClearOp | CommitOp | UndoOp

  /**
   One client operation. A placement refused because the board is not
   committed throws in the Java code before anything changes, so the board is
   left as it was.
   */
  function Step(b: Board, op: Op): (b': Board)
    requires Valid(b)
    ensures Valid(b') && b'.width == b.width && b'.height == b.height
    ensures !op.CommitOp? && !op.UndoOp? ==> b'.prev == b.prev
  {
    match op
    case PlaceOp(piece, x, y) =>
      var r := Place(b, piece, x, y);
      if r.NotCommitted? then b else r.board
    case ClearOp => ClearRows(b).board
    case CommitOp => Commit(b)
    case UndoOp => Undo(b)
  }

  function Run(b: Board, ops: seq<Op>): (b': Board)
    requires Valid(b)
    ensures Valid(b') && b'.width == b.width && b'.height == b.height
    decreases |ops|
  {
    if |ops| == 0 then b else Run(Step(b, ops[0]), ops[1..])
  }

  /** Operations that neither commit nor undo. */
  predicate Pending(ops: seq<Op>)
  {
    forall i :: 0 <= i < |ops| ==> !ops[i].CommitOp? && !ops[i].UndoOp?
  }

  /** Placing and clearing never touch the snapshot. */
  lemma {:induction false} RunKeepsSnapshot(b: Board, ops: seq<Op>)
    requires Valid(b) && Pending(ops)
    ensures Run(b, ops).prev == b.prev
    decreases |ops|
  {
    if |ops| > 0 {
      assert !ops[0].CommitOp? && !ops[0].UndoOp?;
      RunKeepsSnapshot(Step(b, ops[0]), ops[1..]);
    }
  }

  /**
   Any run of placements and row clears from a committed board, followed by
   one undo, gives back that board.
   */
  lemma RunUndoRoundTrip(b: Board, ops: seq<Op>)
    requires Valid(b) && b.committed && Pending(ops)
    ensures Undo(Run(b, ops)) == b
  {
    RunKeepsSnapshot(b, ops);
    UndoToSnapshot(Run(b, ops));
  }

  /** After commit or undo the board accepts a placement again. */
  lemma JournalReopens(b: Board, piece: Piece, x: int, y: int)
    requires Valid(b)
    ensures Place(Commit(b), piece, x, y).Placed?
    ensures Place(Undo(b), piece, x, y).Placed?
  {
  }
}
