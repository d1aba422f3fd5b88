// The classic 9x9 build of the game: numbers 1, 2, 3, ... are written one after another, each
// a classic jump away from the one before; undo, clear, the first-allowed hint, the timer flag
// and the best time.

module ClassicGame {
  import opened Grid
  import opened Moves
  import SessionRules
  import Session

  /** The classic board is always 9 by 9. */
  const Side: Size := 9
  const CellCount := 81

  /** The offsets `computeAllowed` tries, in its own order. */
  const JumpMoves: seq<(int, int)> := [(0, 3), (0, -3), (3, 0), (-3, 0), (2, 2), (2, -2), (-2, 2), (-2, -2)]

  /** The cell reached from `c` by the `k`-th offset. */
  function Jump(c: Coord, k: int): Coord
    requires 0 <= k < |JumpMoves|
  {
    Coord(c.row + JumpMoves[k].0, c.col + JumpMoves[k].1)
  }

  /** A `historyStack` entry: where a number was written, and the number. */
  datatype Entry = Entry(row: int, col: int, number: int)

  function At(e: Entry): Coord {
    Coord(e.row, e.col)
  }

  /**
   * The game variables: the cell texts (0 for an empty cell, n for the text `String(n)`),
   * `maxNumber`, `lastRow`/`lastCol` (None for null), `historyStack`, the cells carrying the
   * `allowed` and `hint` classes, `timerSeconds`, whether the interval is running, and
   * `bestTimeSeconds` (None for null).
   */
  datatype Round = Round(
    board: seq<int>,
    maxNumber: int,
    last: Option<Coord>,
    history: seq<Entry>,
    allowed: set<int>,
    hinted: set<int>,
    seconds: nat,
    running: bool,
    best: Option<int>)

  /** The board has its 81 cells and every history entry names one of them. */
  predicate Shaped(g: Round) {
    && |g.board| == CellCount
    && forall j :: 0 <= j < |g.history| ==> InBounds(Side, At(g.history[j]))
  }

  function EmptyBoard(): (b: seq<int>)
    ensures |b| == CellCount && forall x :: 0 <= x < |b| ==> b[x] == 0
  {
    seq(CellCount, _ => 0)
  }

  /** The grid as the page builds it: 81 empty cells, nothing marked, the stored best time. */
  function Initial(stored: Option<int>): Round {
    Round(EmptyBoard(), 0, None, [], {}, {}, 0, false, stored)
  }

  /* ----- computeAllowed ----- */

  /** The first `k` offsets' targets from `from` that are on the board and empty, in offset order. */
  function TargetsUpTo(board: seq<int>, from: Coord, k: int): seq<int>
    requires |board| == CellCount && 0 <= k <= |JumpMoves|
  {
    if k == 0 then []
    else
      var n := Jump(from, k - 1);
      TargetsUpTo(board, from, k - 1) +
        if InBounds(Side, n) then
          IndexRoundTrip(Side, n);
          var i := IndexFromRowCol(Side, n);
          if board[i] == 0 then [i] else []
        else []
  }

  function Targets(board: seq<int>, from: Coord): seq<int>
    requires |board| == CellCount
  {
    TargetsUpTo(board, from, |JumpMoves|)
  }

  /** The cells `computeAllowed` marks: none before the first number, the empty jump targets of the last cell after. */
  function ClassicAllowed(g: Round): set<int>
    requires |g.board| == CellCount
  {
    if g.maxNumber == 0 then {} else SessionRules.Elements(Targets(g.board, SessionRules.FromLast(g.last)))
  }

  /**
   * `computeAllowed`: every mark removed; before the first number nothing else; otherwise the
   * targets marked, and the timer stopped when there is none and the board is neither empty
   * nor complete.
   */
  function Compute(g: Round): (r: Round)
    requires |g.board| == CellCount
  {
    if g.maxNumber == 0 then g.(allowed := {})
    else
      var moves := Targets(g.board, SessionRules.FromLast(g.last));
      g.(allowed := SessionRules.Elements(moves),
         running := if moves == [] && 0 < g.maxNumber < CellCount then false else g.running)
  }

  /* ----- handleCellClick ----- */

  /**
   * `handleCellClick`: a cell that shows a number is refused; the first number is 1, which
   * starts a new history and restarts the timer; after that only a marked cell is accepted, and
   * it receives the next number; the allowed cells are then re-marked; writing the 81st number
   * stops the timer and records the time.
   */
  function Click(g: Round, at: Coord): (r: Round)
    requires Shaped(g) && InBounds(Side, at)
    ensures Shaped(r)
  {
    IndexRoundTrip(Side, at);
    var i := IndexFromRowCol(Side, at);
    if g.board[i] != 0 then g
    else if g.maxNumber == 0 then Compute(Started(g, i, at))
    else if i !in g.allowed then g
    else Finished(Compute(Written(g, i, at)))
  }

  /** The first number: 1 written at `at`, the history restarted with it, the timer reset and started. */
  function Started(g: Round, i: int, at: Coord): (r: Round)
    requires Shaped(g) && InBounds(Side, at) && 0 <= i < CellCount
    ensures Shaped(r)
  {
    g.(maxNumber := 1, board := g.board[i := 1], last := Some(at), history := [Entry(at.row, at.col, 1)],
       seconds := 0, running := true)
  }

  /** The next number written at `at`, pushed on the history, and `at` made the last cell. */
  function Written(g: Round, i: int, at: Coord): (r: Round)
    requires Shaped(g) && InBounds(Side, at) && 0 <= i < CellCount
    ensures Shaped(r)
  {
    var n := g.maxNumber + 1;
    g.(maxNumber := n, board := g.board[i := n], last := Some(at), history := g.history + [Entry(at.row, at.col, n)])
  }

  /** On the 81st number: the timer stopped and `checkAndUpdateBestTime` applied. */
  function Finished(g: Round): Round {
    if g.maxNumber == CellCount then g.(running := false, best := BestAfter(g.best, g.seconds)) else g
  }

  /** `checkAndUpdateBestTime`: the best time becomes `t` when there is none or `t` is strictly smaller. */
  function BestAfter(best: Option<int>, t: int): (r: Option<int>)
    ensures best.None? ==> r == Some(t)
    ensures best.Some? ==> r == Some(LesserTime(best.value, t))
  {
    if best.None? || t < best.value then Some(t) else best
  }

  /** The smaller of two times. */
  function LesserTime(a: int, b: int): int {
    if a <= b then a else b
  }

  /* ----- The buttons ----- */

  /**
   * The undo button: nothing while the history holds at most one entry; otherwise the newest
   * entry is popped, its cell emptied, the count decremented, the previous entry made the last
   * cell and the allowed cells re-marked.
   */
  function Undo(g: Round): (r: Round)
    requires Shaped(g)
    ensures Shaped(r)
  {
    if |g.history| <= 1 then g else Compute(Popped(g))
  }

  function Popped(g: Round): (r: Round)
    requires Shaped(g) && |g.history| > 1
    ensures Shaped(r)
  {
    var e := g.history[|g.history| - 1];
    var h := g.history[..|g.history| - 1];
    IndexRoundTrip(Side, At(e));
    g.(history := h, board := g.board[IndexFromRowCol(Side, At(e)) := 0], maxNumber := g.maxNumber - 1,
       last := Some(At(h[|h| - 1])))
  }

  /** The clear button: every cell emptied and unmarked, no count, no last cell, no history, the timer reset. */
  function Clear(g: Round): Round {
    g.(board := EmptyBoard(), allowed := {}, hinted := {}, maxNumber := 0, last := None, history := [],
       seconds := 0, running := false)
  }

  /** The first of the cells `lo`, `lo + 1`, ..., 80 that `s` holds, in the order of the page's cells. */
  function FirstIn(s: set<int>, lo: nat): (r: Option<int>)
    ensures r.Some? ==> r.value in s && lo <= r.value < CellCount && forall j :: lo <= j < r.value ==> j !in s
    ensures r.None? ==> forall j :: lo <= j < CellCount ==> j !in s
    decreases CellCount - lo
  {
    if lo >= CellCount then None
    else if lo in s then Some(lo)
    else FirstIn(s, lo + 1)
  }

  /** The hint button: the first allowed cell also gets the hint mark; nothing when none is allowed. */
  function Hint(g: Round): Round {
    match FirstIn(g.allowed, 0)
    case None => g
    case Some(i) => g.(hinted := g.hinted + {i})
  }

  /* ----- The allowed marks are the classic jumps ----- */

  /** In classic mode a jump is legal exactly when one of the eight offsets of `computeAllowed` makes it. */
  lemma JumpIsClassic(a: Coord, b: Coord)
    ensures CanMove(Classic, a, b) <==> exists k :: 0 <= k < |JumpMoves| && Jump(a, k) == b
  {
    var dr, dc := b.row - a.row, b.col - a.col;
    if CanMove(Classic, a, b) {
      var k :=
        if dc == 3 then 0 else if dc == -3 then 1 else if dr == 3 then 2 else if dr == -3 then 3
        else if dr == 2 && dc == 2 then 4 else if dr == 2 then 5 else if dc == 2 then 6 else 7;
      assert Jump(a, k) == b;
    }
  }

  /** Every cell the scan lists is on the board. */
  lemma {:induction false} TargetsInRange(board: seq<int>, from: Coord, k: int)
    requires |board| == CellCount && 0 <= k <= |JumpMoves|
    ensures forall i :: i in TargetsUpTo(board, from, k) ==> 0 <= i < CellCount
  {
    if k > 0 {
      TargetsInRange(board, from, k - 1);
      var n := Jump(from, k - 1);
      if InBounds(Side, n) {
        IndexRoundTrip(Side, n);
      }
    }
  }

  /** The scan lists a cell exactly when it is empty and one of the first `k` offsets reaches it. */
  lemma {:induction false} TargetsUpToHas(board: seq<int>, from: Coord, k: int, x: int)
    requires |board| == CellCount && 0 <= k <= |JumpMoves| && 0 <= x < CellCount
    ensures x in TargetsUpTo(board, from, k) <==>
      board[x] == 0 && exists d :: 0 <= d < k && Jump(from, d) == RowColFromIndex(Side, x)
  {
    if k > 0 {
      TargetsUpToHas(board, from, k - 1, x);
      var n := Jump(from, k - 1);
      var c := RowColFromIndex(Side, x);
      SessionRules.NamesCell(Side, n, x);
      if InBounds(Side, n) {
        IndexRoundTrip(Side, n);
      }
      if n == c {
        assert 0 <= k - 1 < k && Jump(from, k - 1) == c;
      }
      if exists d :: 0 <= d < k && Jump(from, d) == c {
        var d :| 0 <= d < k && Jump(from, d) == c;
        assert d < k - 1 || n == c;
      }
    }
  }

  /**
   * Once a number is on the board, the marked cells are exactly the empty cells a classic jump
   * away from the last cell: the offsets of `computeAllowed` and the rule of `canMove` agree.
   */
  lemma AllowedIsClassicJump(g: Round)
    requires |g.board| == CellCount && g.maxNumber != 0
    ensures forall x :: x in ClassicAllowed(g) <==>
      0 <= x < CellCount && g.board[x] == 0 && CanMove(Classic, SessionRules.FromLast(g.last), RowColFromIndex(Side, x))
  {
    var from := SessionRules.FromLast(g.last);
    TargetsInRange(g.board, from, |JumpMoves|);
    forall x | 0 <= x < CellCount
      ensures x in ClassicAllowed(g) <==> g.board[x] == 0 && CanMove(Classic, from, RowColFromIndex(Side, x))
    {
      TargetsUpToHas(g.board, from, |JumpMoves|, x);
      JumpIsClassic(from, RowColFromIndex(Side, x));
    }
  }

  /* ----- The invariant of a game ----- */

  /**
   * The count is the history length; the i-th entry carries number i+1 and its cell shows it;
   * every cell that shows a number shows that of the entry naming it; the last cell is the
   * newest entry's; and each entry is a classic jump from the one before.
   */
  predicate Recorded(g: Round) {
    Record(g.board, g.history, g.maxNumber, g.last)
  }

  predicate Record(board: seq<int>, history: seq<Entry>, maxNumber: int, last: Option<Coord>) {
    && |board| == CellCount
    && (forall j :: 0 <= j < |history| ==> InBounds(Side, At(history[j])))
    && maxNumber == |history|
    && (forall j :: 0 <= j < |history| ==>
          history[j].number == j + 1 && board[IndexFromRowCol(Side, At(history[j]))] == j + 1)
    && (forall x :: 0 <= x < CellCount && board[x] != 0 ==>
          1 <= board[x] <= |history| && IndexFromRowCol(Side, At(history[board[x] - 1])) == x)
    && last == (if history == [] then None else Some(At(history[|history| - 1])))
    && (forall j :: 0 < j < |history| ==> CanMove(Classic, At(history[j - 1]), At(history[j])))
  }

  /** The invariant of a game: the record above, and the allowed marks are those `computeAllowed` sets. */
  predicate Numbered(g: Round) {
    Recorded(g) && g.allowed == ClassicAllowed(g)
  }

  /** The page starts from a game that keeps the invariant. */
  lemma InitialNumbered(stored: Option<int>)
    ensures Numbered(Initial(stored))
  {
  }

  /** Re-marking a recorded game makes it keep the invariant. */
  lemma ComputeNumbered(g: Round)
    requires Recorded(g)
    ensures Numbered(Compute(g))
  {
    var r := Compute(g);
    assert r.board == g.board && r.history == g.history && r.maxNumber == g.maxNumber && r.last == g.last;
  }

  /** The first number starts a record. */
  lemma StartedRecorded(g: Round, at: Coord)
    requires Numbered(g) && InBounds(Side, at) && g.maxNumber == 0
    ensures IndexFromRowCol(Side, at) < CellCount
    ensures Recorded(Started(g, IndexFromRowCol(Side, at), at))
  {
    IndexRoundTrip(Side, at);
    var i := IndexFromRowCol(Side, at);
    var r := Started(g, i, at);
    forall x | 0 <= x < CellCount && r.board[x] != 0
      ensures 1 <= r.board[x] <= |r.history| && IndexFromRowCol(Side, At(r.history[r.board[x] - 1])) == x
    {
      assert x == i;
    }
  }

  /** The next number, written on an empty cell a classic jump from the last one, extends the record. */
  lemma WrittenRecorded(g: Round, at: Coord)
    requires Numbered(g) && InBounds(Side, at) && g.maxNumber != 0
    requires IndexFromRowCol(Side, at) < CellCount && g.board[IndexFromRowCol(Side, at)] == 0
    requires CanMove(Classic, SessionRules.FromLast(g.last), at)
    ensures Recorded(Written(g, IndexFromRowCol(Side, at), at))
  {
    IndexRoundTrip(Side, at);
    var i := IndexFromRowCol(Side, at);
    var r := Written(g, i, at);
    var h := g.history;
    forall j | 0 <= j < |r.history|
      ensures r.history[j].number == j + 1 && r.board[IndexFromRowCol(Side, At(r.history[j]))] == j + 1
    {
      if j < |h| {
        assert r.history[j] == h[j];
        assert IndexFromRowCol(Side, At(h[j])) != i;
      }
    }
    forall x | 0 <= x < CellCount && r.board[x] != 0
      ensures 1 <= r.board[x] <= |r.history| && IndexFromRowCol(Side, At(r.history[r.board[x] - 1])) == x
    {
      if x != i {
        assert r.history[g.board[x] - 1] == h[g.board[x] - 1];
      }
    }
  }

  /** A click keeps the invariant. */
  lemma ClickKeepsNumbered(g: Round, at: Coord)
    requires Numbered(g) && InBounds(Side, at)
    ensures Numbered(Click(g, at))
  {
    IndexRoundTrip(Side, at);
    var i := IndexFromRowCol(Side, at);
    if g.board[i] == 0 {
      if g.maxNumber == 0 {
        StartedRecorded(g, at);
        ComputeNumbered(Started(g, i, at));
      } else if i in g.allowed {
        AllowedIsClassicJump(g);
        WrittenRecorded(g, at);
        var q := Compute(Written(g, i, at));
        ComputeNumbered(Written(g, i, at));
        FinishedNumbered(q);
        assert Click(g, at) == Finished(q);
      }
    }
  }

  /**
   * `computeAllowed` changes only the marks and the timer, and it stops the timer exactly when
   * the game is blocked: nothing marked while the board holds some but not all 81 numbers.
   */
  lemma ComputeStopsWhenBlocked(g: Round)
    requires |g.board| == CellCount
    ensures var r := Compute(g);
      && r == g.(allowed := ClassicAllowed(g), running := r.running)
      && (r.running <==> g.running && !(ClassicAllowed(g) == {} && 0 < g.maxNumber < CellCount))
  {
    if g.maxNumber != 0 {
      var moves := Targets(g.board, SessionRules.FromLast(g.last));
      if moves != [] {
        assert moves[0] in ClassicAllowed(g);
      }
    }
  }

  /**
   * A click changes the game exactly on an empty cell that is the first number or a classic
   * jump from the last one; it then writes the next number there, pushes it and makes the cell
   * the last one.
   */
  lemma ClickAcceptedIff(g: Round, at: Coord)
    requires Numbered(g) && InBounds(Side, at)
    ensures var i := IndexFromRowCol(Side, at); var r := Click(g, at);
      && 0 <= i < CellCount
      && (r != g <==> g.board[i] == 0 && (g.maxNumber == 0 || CanMove(Classic, SessionRules.FromLast(g.last), at)))
      && (r != g ==>
            && r.maxNumber == g.maxNumber + 1 && r.board == g.board[i := r.maxNumber] && r.last == Some(at)
            && r.history == g.history + [Entry(at.row, at.col, r.maxNumber)])
  {
    IndexRoundTrip(Side, at);
    var i := IndexFromRowCol(Side, at);
    if g.board[i] == 0 && g.maxNumber != 0 {
      AllowedIsClassicJump(g);
      assert i in g.allowed <==> CanMove(Classic, SessionRules.FromLast(g.last), at);
    }
    if g.board[i] == 0 && (g.maxNumber == 0 || i in g.allowed) {
      assert Click(g, at).board[i] != 0;
    }
  }

  /** Stopping the timer and recording the time keeps the invariant. */
  lemma FinishedNumbered(g: Round)
    requires Numbered(g)
    ensures Numbered(Finished(g))
  {
    var r := Finished(g);
    assert r.board == g.board && r.history == g.history && r.maxNumber == g.maxNumber && r.last == g.last;
    assert ClassicAllowed(r) == ClassicAllowed(g);
  }

  /** Popping the newest entry leaves a record. */
  lemma PoppedRecorded(g: Round)
    requires Numbered(g) && |g.history| > 1
    ensures Recorded(Popped(g))
  {
    var h := g.history;
    var e := h[|h| - 1];
    IndexRoundTrip(Side, At(e));
    var ie := IndexFromRowCol(Side, At(e));
    var r := Popped(g);
    forall j | 0 <= j < |r.history|
      ensures r.history[j].number == j + 1 && r.board[IndexFromRowCol(Side, At(r.history[j]))] == j + 1
    {
      assert r.history[j] == h[j];
      assert IndexFromRowCol(Side, At(h[j])) != ie;
    }
    forall x | 0 <= x < CellCount && r.board[x] != 0
      ensures 1 <= r.board[x] <= |r.history| && IndexFromRowCol(Side, At(r.history[r.board[x] - 1])) == x
    {
      assert x != ie;
      assert g.board[x] != |h|;
      assert r.history[g.board[x] - 1] == h[g.board[x] - 1];
    }
  }

  /** The undo button keeps the invariant. */
  lemma UndoKeepsNumbered(g: Round)
    requires Numbered(g)
    ensures Numbered(Undo(g))
  {
    if |g.history| > 1 {
      PoppedRecorded(g);
      ComputeNumbered(Popped(g));
    }
  }

  /** The clear button gives a game that keeps the invariant, with nothing on the board and nothing marked. */
  lemma ClearNumbered(g: Round)
    ensures var r := Clear(g);
      Numbered(r) && r.history == [] && r.maxNumber == 0 && r.allowed == {} && r.hinted == {}
      && forall x :: 0 <= x < CellCount ==> r.board[x] == 0
  {
  }

  /* ----- Undo against the click ----- */

  /**
   * Undo exactly inverts every accepted click after the first: the board, the history, the
   * count, the last cell and the allowed marks come back.
   */
  lemma UndoInvertsClick(g: Round, at: Coord)
    requires Numbered(g) && InBounds(Side, at) && g.maxNumber != 0 && Click(g, at) != g
    ensures var u := Undo(Click(g, at));
      && u.board == g.board && u.history == g.history && u.maxNumber == g.maxNumber
      && u.last == g.last && u.allowed == g.allowed
  {
    IndexRoundTrip(Side, at);
    var i := IndexFromRowCol(Side, at);
    assert g.board[i] == 0 && i in g.allowed;
    var w := Written(g, i, at);
    WrittenThenPopped(g, i, at);
    var c := Finished(Compute(w));
    assert Click(g, at) == c;
    assert c.board == w.board && c.history == w.history && c.maxNumber == w.maxNumber;
    var p := Popped(c);
    assert p.board == g.board && p.history == g.history && p.maxNumber == g.maxNumber && p.last == g.last;
    assert ClassicAllowed(p) == ClassicAllowed(g);
  }

  /** Writing a number on an empty cell, then popping it, gives back board, history, count and last cell. */
  lemma WrittenThenPopped(g: Round, i: int, at: Coord)
    requires Shaped(g) && InBounds(Side, at) && i == IndexFromRowCol(Side, at) && 0 <= i < CellCount
    requires g.board[i] == 0 && g.history != [] && g.maxNumber == |g.history|
    requires g.last == Some(At(g.history[|g.history| - 1]))
    ensures var w := Written(g, i, at);
      && |w.history| > 1
      && var p := Popped(w);
      && p.board == g.board && p.history == g.history && p.maxNumber == g.maxNumber && p.last == g.last
  {
    var w := Written(g, i, at);
    assert w.history[|w.history| - 1] == Entry(at.row, at.col, g.maxNumber + 1);
    assert w.history[..|w.history| - 1] == g.history;
    assert w.board[i := 0] == g.board;
  }

  /** The first number cannot be undone: the undo button leaves a one-entry history alone. */
  lemma FirstClickStays(g: Round, at: Coord)
    requires Numbered(g) && InBounds(Side, at) && g.maxNumber == 0
    ensures Undo(Click(g, at)) == Click(g, at)
  {
    IndexRoundTrip(Side, at);
  }

  /** After an undo, clicking the cell it emptied is accepted and restores board, history, count, last cell and marks. */
  lemma UndoThenClick(g: Round)
    requires Numbered(g) && |g.history| > 1
    ensures var at := At(g.history[|g.history| - 1]);
      && InBounds(Side, at)
      && var r := Click(Undo(g), at);
      && r.board == g.board && r.history == g.history && r.maxNumber == g.maxNumber
      && r.last == g.last && r.allowed == g.allowed
  {
    var h := g.history;
    var n := |h|;
    var at := At(h[n - 1]);
    IndexRoundTrip(Side, at);
    var i := IndexFromRowCol(Side, at);
    PoppedThenWritten(g);
    UndoKeepsNumbered(g);
    var u := Undo(g);
    assert u == Compute(Popped(g));
    assert u.board[i] == 0 && u.maxNumber == n - 1 && u.last == Some(At(h[n - 2]));
    assert CanMove(Classic, At(h[n - 2]), at);
    AllowedIsClassicJump(u);
    assert i in u.allowed;
    var w := Written(u, i, at);
    assert w.board == g.board && w.history == g.history && w.maxNumber == g.maxNumber && w.last == g.last;
    assert Click(u, at) == Finished(Compute(w));
    assert ClassicAllowed(w) == ClassicAllowed(g);
  }

  /** Popping the newest entry, then writing its number back on its cell, gives back board, history, count and last cell. */
  lemma PoppedThenWritten(g: Round)
    requires Shaped(g) && |g.history| > 1 && g.maxNumber == |g.history|
    requires var e := g.history[|g.history| - 1];
      e.number == |g.history| && g.board[IndexFromRowCol(Side, At(e))] == |g.history| && g.last == Some(At(e))
    ensures var e := g.history[|g.history| - 1];
      && 0 <= IndexFromRowCol(Side, At(e)) < CellCount
      && var w := Written(Popped(g), IndexFromRowCol(Side, At(e)), At(e));
      && w.board == g.board && w.history == g.history && w.maxNumber == g.maxNumber && w.last == g.last
  {
    var h := g.history;
    var e := h[|h| - 1];
    IndexRoundTrip(Side, At(e));
    var i := IndexFromRowCol(Side, At(e));
    var p := Popped(g);
    assert p.board[i := |h|] == g.board;
    assert p.history + [Entry(e.row, e.col, |h|)] == h;
  }

  /* ----- The win ----- */

  /** Every cell but `x`, in order. */
  function Others(x: int): (s: seq<int>)
    requires 0 <= x < CellCount
    ensures |s| == CellCount - 1
    ensures forall j, k :: 0 <= j < k < |s| ==> s[j] < s[k]
  {
    seq(CellCount - 1, j requires 0 <= j < CellCount - 1 => if j < x then j else j + 1)
  }

  /** A sequence without repeats has as many elements as entries. */
  lemma {:induction false} DistinctCard(s: seq<int>)
    requires forall j, k :: 0 <= j < k < |s| ==> s[j] != s[k]
    ensures |SessionRules.Elements(s)| == |s|
  {
    if s != [] {
      var t := s[..|s| - 1];
      DistinctCard(t);
      assert SessionRules.Elements(s) == SessionRules.Elements(t) + {s[|s| - 1]};
    }
  }

  /** A subset is no larger than its superset. */
  lemma SubsetCard(a: set<int>, b: set<int>)
    requires a <= b
    ensures |a| <= |b|
  {
    assert b == a + (b - a);
  }

  /** The cells of the history entries, oldest first. */
  function HistoryCells(g: Round): (s: seq<int>)
    requires Shaped(g)
    ensures |s| == |g.history|
  {
    seq(|g.history|, j requires 0 <= j < |g.history| => IndexFromRowCol(Side, At(g.history[j])))
  }

  /** Writing the 81st number means every cell shows a number: the message "all 81 cells filled" is right. */
  lemma WinFillsBoard(g: Round)
    requires Numbered(g) && g.maxNumber == CellCount
    ensures forall x :: 0 <= x < CellCount ==> g.board[x] != 0
  {
    var s := HistoryCells(g);
    forall j, k | 0 <= j < k < |s|
      ensures s[j] != s[k]
    {
      assert g.board[s[j]] == j + 1 && g.board[s[k]] == k + 1;
    }
    DistinctCard(s);
    forall x | 0 <= x < CellCount
      ensures g.board[x] != 0
    {
      if g.board[x] == 0 {
        var o := Others(x);
        forall y | y in SessionRules.Elements(s)
          ensures y in SessionRules.Elements(o)
        {
          var j :| 0 <= j < |s| && s[j] == y;
          assert g.board[y] == j + 1;
          assert 0 <= y < CellCount && y != x;
          assert o[if y < x then y else y - 1] == y;
        }
        SubsetCard(SessionRules.Elements(s), SessionRules.Elements(o));
        DistinctCard(o);
        assert false;
      }
    }
  }

  /* ----- Hint and best time ----- */

  /** The hint button marks the first allowed cell in the page's order, and changes nothing else. */
  lemma HintMarksFirstAllowed(g: Round)
    requires Numbered(g)
    ensures var r := Hint(g);
      && r == g.(hinted := r.hinted)
      && (g.allowed == {} ==> r.hinted == g.hinted)
      && (g.allowed != {} ==>
            exists m :: m in g.allowed && r.hinted == g.hinted + {m} && forall y :: y in g.allowed ==> m <= y)
  {
    if g.maxNumber != 0 {
      TargetsInRange(g.board, SessionRules.FromLast(g.last), |JumpMoves|);
    }
    var f := FirstIn(g.allowed, 0);
    if f.None? {
      assert forall y :: y in g.allowed ==> 0 <= y < CellCount;
      assert g.allowed == {};
    } else {
      var m := f.value;
      assert forall y :: y in g.allowed ==> m <= y;
    }
  }

  /** The best time after a run of finished games, each checked in turn. */
  function BestOver(best: Option<int>, times: seq<int>): Option<int> {
    if times == [] then best else BestAfter(BestOver(best, times[..|times| - 1]), times[|times| - 1])
  }

  /**
   * Checking finished games one after another keeps the least time: the best time is no larger
   * than any of them or the stored one, and is one of them or the stored one.
   */
  lemma {:induction false} BestIsLeast(best: Option<int>, times: seq<int>)
    requires best.Some? || times != []
    ensures var r := BestOver(best, times);
      && r.Some?
      && (forall j :: 0 <= j < |times| ==> r.value <= times[j])
      && (best.Some? ==> r.value <= best.value)
      && (r == best || exists j :: 0 <= j < |times| && r.value == times[j])
  {
    if times != [] {
      var t := times[..|times| - 1];
      var last := times[|times| - 1];
      var prev := BestOver(best, t);
      if best.Some? || t != [] {
        BestIsLeast(best, t);
        if prev != best {
          var j :| 0 <= j < |t| && prev.value == t[j];
          assert times[j] == t[j];
        }
      }
      var r := BestOver(best, times);
      if r.value == last {
        assert times[|times| - 1] == r.value;
      }
    }
  }

  /* ----- The page's handlers, step by step ----- */

  /** The offset loop of `computeAllowed`: the in-bounds empty targets of `from`, in offset order. */
  method JumpTargetList(board: seq<int>, from: Coord) returns (moves: seq<int>)
    requires |board| == CellCount
    ensures moves == Targets(board, from)
  {
    moves := [];
    for k := 0 to |JumpMoves|
      invariant moves == TargetsUpTo(board, from, k)
    {
      var nr := from.row + JumpMoves[k].0;
      var nc := from.col + JumpMoves[k].1;
      if nr >= 0 && nr < Side && nc >= 0 && nc < Side {
        var idx := nr * Side + nc;
        if board[idx] == 0 {
          moves := moves + [idx];
        }
      }
    }
  }

  /** The clear button's pass over the cells: every text emptied. */
  method EmptyCells(board: seq<int>) returns (r: seq<int>)
    requires |board| == CellCount
    ensures r == EmptyBoard()
  {
    r := board;
    for i := 0 to |board|
      invariant |r| == CellCount
      invariant forall j :: 0 <= j < i ==> r[j] == 0
    {
      r := r[i := 0];
    }
  }

  /** The hint button's filter over the cells, in page order: the first marked cell, if any. */
  method FirstAllowedCell(allowed: set<int>) returns (first: Option<int>)
    ensures first == FirstIn(allowed, 0)
  {
    first := None;
    for i := 0 to CellCount
      invariant first.None? ==> FirstIn(allowed, 0) == FirstIn(allowed, i)
      invariant first.Some? ==> first == FirstIn(allowed, 0)
    {
      if first.None? && i in allowed {
        first := Some(i);
      }
    }
  }

  /** The page's game: the cells' texts and marks, and the global variables the handlers update. */
  class Game {
    var board: seq<int>
    var maxNumber: int
    var last: Option<Coord>
    var history: seq<Entry>
    var allowed: set<int>
    var hinted: set<int>
    var seconds: nat
    var running: bool
    var best: Option<int>

    ghost function Snapshot(): Round
      reads this
    {
      Round(board, maxNumber, last, history, allowed, hinted, seconds, running, best)
    }

    ghost predicate Valid()
      reads this
    {
      Shaped(Snapshot())
    }

    /** The grid built empty, with the best time loaded from storage. */
    constructor(stored: Option<int>)
      ensures Valid() && Snapshot() == Initial(stored)
    {
      board := EmptyBoard();
      maxNumber := 0;
      last := None;
      history := [];
      allowed := {};
      hinted := {};
      seconds := 0;
      running := false;
      best := stored;
    }

    /** `computeAllowed`: unmark every cell; after the first number mark the targets, and stop the timer when blocked. */
    method ComputeAllowed()
      requires Valid()
      modifies this
      ensures Valid()
      ensures Snapshot() == Compute(old(Snapshot()))
    {
      allowed := {};
      if maxNumber == 0 {
        return;
      }
      var moves := JumpTargetList(board, SessionRules.FromLast(last));
      allowed := Session.MarkCandidates(moves);
      if |moves| == 0 && maxNumber > 0 && maxNumber < CellCount {
        running := false;
      }
    }

    /** `handleCellClick(row, col, cell)`. */
    method HandleCellClick(row: int, col: int)
      requires Valid() && InBounds(Side, Coord(row, col))
      modifies this
      ensures Valid()
      ensures Snapshot() == Click(old(Snapshot()), Coord(row, col))
    {
      var at := Coord(row, col);
      IndexRoundTrip(Side, at);
      var idx := IndexFromRowCol(Side, at);
      if board[idx] != 0 {
        return;
      }
      if maxNumber == 0 {
        StartWith(idx, at);
        ComputeAllowed();
        return;
      }
      if idx !in allowed {
        return;
      }
      WriteNext(idx, at);
      ComputeAllowed();
      if maxNumber == CellCount {
        running := false;
        CheckAndUpdateBestTime();
      }
    }

    /** The first click: 1 written, the history restarted with it, the timer reset and started. */
    method StartWith(idx: int, at: Coord)
      requires Valid() && InBounds(Side, at) && 0 <= idx < CellCount
      modifies this
      ensures Valid()
      ensures Snapshot() == Started(old(Snapshot()), idx, at)
    {
      maxNumber := 1;
      board := board[idx := 1];
      last := Some(at);
      history := [Entry(at.row, at.col, 1)];
      seconds := 0;
      running := true;
    }

    /** A later click on a marked cell: the next number written, pushed, and the cell made the last one. */
    method WriteNext(idx: int, at: Coord)
      requires Valid() && InBounds(Side, at) && 0 <= idx < CellCount
      modifies this
      ensures Valid()
      ensures Snapshot() == Written(old(Snapshot()), idx, at)
    {
      maxNumber := maxNumber + 1;
      board := board[idx := maxNumber];
      last := Some(at);
      history := history + [Entry(at.row, at.col, maxNumber)];
    }

    /** `checkAndUpdateBestTime`: keep the elapsed seconds when there is no best time or they beat it. */
    method CheckAndUpdateBestTime()
      requires Valid()
      modifies this
      ensures Valid()
      ensures Snapshot() == old(Snapshot()).(best := BestAfter(old(best), old(seconds)))
    {
      if best.None? || seconds < best.value {
        best := Some(seconds);
      }
    }

    /** The undo button. */
    method UndoButton()
      requires Valid()
      modifies this
      ensures Valid()
      ensures Snapshot() == Undo(old(Snapshot()))
    {
      if |history| <= 1 {
        return;
      }
      PopEntry();
      ComputeAllowed();
    }

    /** The undo itself: pop the newest entry, empty its cell, decrement the count, make the previous entry the last cell. */
    method PopEntry()
      requires Valid() && |history| > 1
      modifies this
      ensures Valid()
      ensures Snapshot() == Popped(old(Snapshot()))
    {
      var e := history[|history| - 1];
      assert InBounds(Side, At(e));
      history := history[..|history| - 1];
      IndexRoundTrip(Side, At(e));
      var idx := IndexFromRowCol(Side, At(e));
      board := board[idx := 0];
      maxNumber := maxNumber - 1;
      var prev := history[|history| - 1];
      last := Some(Coord(prev.row, prev.col));
    }

    /** The clear button. */
    method ClearButton()
      requires Valid()
      modifies this
      ensures Valid()
      ensures Snapshot() == Clear(old(Snapshot()))
    {
      board := EmptyCells(board);
      allowed := {};
      hinted := {};
      maxNumber := 0;
      last := None;
      history := [];
      seconds := 0;
      running := false;
    }

    /** The hint button. */
    method HintButton()
      requires Valid()
      modifies this
      ensures Valid()
      ensures Snapshot() == Hint(old(Snapshot()))
    {
      var first := FirstAllowedCell(allowed);
      if first.Some? {
        hinted := hinted + {first.value};
      }
    }
  }
}
