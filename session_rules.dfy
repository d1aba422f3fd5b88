// The removal game's session as values: which cells may be cleared next, what clearing and
// undoing do to the cells, the history of cleared cells, the count and the last cell, and the
// two hint policies (the degree hint and the correction of a mistyped sequence).

module SessionRules {
  import opened Grid
  import opened Moves
  import opened Warnsdorff
  import opened StateParser

  /**
   * The session variables: the cells, `moveHistory` (indices of the cleared cells, oldest
   * first), `maxNumber` (the cleared count), `lastRow`/`lastCol` (None for null),
   * `targetToClear`, the cells carrying the `allowed` and `hint` classes, `hasStarted` (whether
   * play has begun; the timer itself is not part of the state), and the undo and hint counters.
   */
  datatype Play = Play(
    cells: seq<Cell>,
    history: seq<int>,
    maxNumber: nat,
    last: Option<Coord>,
    targetToClear: int,
    allowed: set<int>,
    hint: Option<int>,
    hasStarted: bool,
    undosUsed: nat,
    hintsUsed: nat)

  predicate Shaped(size: Size, p: Play) {
    && |p.cells| == size * size
    && forall j :: 0 <= j < |p.history| ==> 0 <= p.history[j] < size * size
  }

  /** The last cell as `canMove` reads it: JavaScript arithmetic turns a null row or column into 0. */
  function FromLast(last: Option<Coord>): Coord {
    if last.Some? then last.value else Coord(0, 0)
  }

  /** The elements of a sequence. */
  function Elements(s: seq<int>): set<int> {
    set i | i in s
  }

  /* ----- The allowed cells ----- */

  /**
   * `updateAllowedCells` marks a cell that still holds a logo and, once play has begun, is a
   * legal move from the last cell; it reads only the cells, the count and the last cell.
   */
  predicate IsAllowed(size: Size, mode: Mode, cells: seq<Cell>, maxNumber: int, last: Option<Coord>, i: int)
    requires 0 <= i < |cells|
  {
    cells[i].state == Full && (maxNumber == 0 || CanMove(mode, FromLast(last), RowColFromIndex(size, i)))
  }

  /** The allowed cells among the first `n` indices. */
  function AllowedBelow(size: Size, mode: Mode, cells: seq<Cell>, maxNumber: int, last: Option<Coord>, n: int): set<int>
    requires 0 <= n <= |cells|
  {
    set i | 0 <= i < n && IsAllowed(size, mode, cells, maxNumber, last, i)
  }

  function AllowedOf(size: Size, mode: Mode, p: Play): set<int>
    requires Shaped(size, p)
  {
    AllowedBelow(size, mode, p.cells, p.maxNumber, p.last, size * size)
  }

  /** `updateAllowedCells`: every class is reset, then the allowed cells are marked. */
  function UpdateAllowed(size: Size, mode: Mode, p: Play): Play
    requires Shaped(size, p)
  {
    p.(allowed := AllowedOf(size, mode, p), hint := None)
  }

  /** The blocked status: no cell is allowed and the target has not been reached. */
  predicate Blocked(size: Size, mode: Mode, p: Play)
    requires Shaped(size, p)
  {
    AllowedOf(size, mode, p) == {} && p.maxNumber < p.targetToClear
  }

  /* ----- Clearing a cell and undoing it ----- */

  /** A rejected click, a cleared cell, or the cleared cell that reaches the target. */
  datatype PlaceOutcome = Rejected | Cleared | Won

  datatype Placement = Placement(outcome: PlaceOutcome, play: Play)

  /**
   * `placeNextNumber`: a cell without a logo, or one that is not a legal move from the last cell
   * once play has begun, is refused; otherwise the cell is emptied, its index pushed, the count
   * set to the history length and the cell made the last one; reaching the target clears every
   * mark, anything else re-marks the allowed cells.
   */
  function Place(size: Size, mode: Mode, p: Play, at: Coord): (r: Placement)
    requires Shaped(size, p) && InBounds(size, at)
    ensures Shaped(size, r.play)
  {
    IndexRoundTrip(size, at);
    var i := IndexFromRowCol(size, at);
    if p.cells[i].state != Full then Placement(Rejected, p)
    else if p.maxNumber > 0 && !CanMove(mode, FromLast(p.last), at) then Placement(Rejected, p)
    else
      var q := Emptied(size, p, i, at);
      if q.maxNumber == q.targetToClear then Placement(Won, q.(allowed := {}, hint := None))
      else Placement(Cleared, UpdateAllowed(size, mode, q))
  }

  /** Cell `i`, at `at`, cleared: emptied, pushed on the history, counted, made the last cell, and `hasStarted` set. */
  function Emptied(size: Size, p: Play, i: int, at: Coord): (r: Play)
    requires Shaped(size, p) && 0 <= i < |p.cells|
    ensures Shaped(size, r)
  {
    var h := p.history + [i];
    p.(cells := p.cells[i := p.cells[i].(state := Empty, text := Blank)], history := h,
       maxNumber := |h|, last := Some(at), hasStarted := true)
  }

  /** The last cell that a history designates: its newest entry, or null when it is empty. */
  function LastOf(size: Size, h: seq<int>): Option<Coord> {
    if h == [] then None else Some(RowColFromIndex(size, h[|h| - 1]))
  }

  /**
   * `undoLastMove`: nothing on an empty history; otherwise the newest entry is popped, its cell
   * refilled if it is empty, the count set to the history length, the last cell taken from the
   * new newest entry (null when none is left) and the allowed cells re-marked.
   */
  function Undo(size: Size, mode: Mode, p: Play): (r: Play)
    requires Shaped(size, p)
    ensures Shaped(size, r)
  {
    if |p.history| == 0 then p
    else UpdateAllowed(size, mode, Popped(size, p))
  }

  /** The newest entry popped: the undo counted, its cell refilled if it is empty, the count and the last cell taken from what remains. */
  function Popped(size: Size, p: Play): (r: Play)
    requires Shaped(size, p) && |p.history| > 0
    ensures Shaped(size, r)
  {
    var i := p.history[|p.history| - 1];
    var h := p.history[..|p.history| - 1];
    var cells := if p.cells[i].state == Empty then p.cells[i := p.cells[i].(state := Full, text := Blank)] else p.cells;
    p.(undosUsed := p.undosUsed + 1, history := h, cells := cells, maxNumber := |h|, last := LastOf(size, h))
  }

  /** The count and the last cell agree with the history. */
  predicate Consistent(size: Size, p: Play) {
    p.maxNumber == |p.history| && p.last == LastOf(size, p.history)
  }

  /** The emptied cells are exactly the cells the history lists. */
  predicate EmptiedExactly(cells: seq<Cell>, h: seq<int>) {
    forall x :: 0 <= x < |cells| ==> (cells[x].state == Empty <==> x in h)
  }

  /** The history lists no cell twice. */
  predicate Distinct(h: seq<int>) {
    forall j, k :: 0 <= j < k < |h| ==> h[j] != h[k]
  }

  /** Each cell of the history is a legal move from the one before. */
  predicate Chained(size: Size, mode: Mode, h: seq<int>) {
    forall j :: 0 < j < |h| ==> CanMove(mode, RowColFromIndex(size, h[j - 1]), RowColFromIndex(size, h[j]))
  }

  /** Every cell shows a logo or nothing: no cell carries text. */
  predicate NoText(cells: seq<Cell>) {
    forall x :: 0 <= x < |cells| ==> cells[x].text == Blank
  }

  /**
   * The invariant of a session: the count and the last cell agree with the history, the emptied
   * cells are exactly the cells of the history, which lists no cell twice and in which each
   * cell is a legal move from the one before, and no cell carries text.
   */
  predicate Walk(size: Size, mode: Mode, p: Play)
    requires Shaped(size, p)
  {
    && Consistent(size, p)
    && EmptiedExactly(p.cells, p.history)
    && Distinct(p.history)
    && Chained(size, mode, p.history)
    && NoText(p.cells)
  }

  /** Emptying a logo cell that is a legal move from the newest history cell, and pushing it, keeps the history invariants. */
  lemma PushKeeps(size: Size, mode: Mode, cells: seq<Cell>, h: seq<int>, i: int)
    requires EmptiedExactly(cells, h) && Distinct(h) && Chained(size, mode, h) && NoText(cells)
    requires 0 <= i < |cells| && cells[i].state == Full
    requires h != [] ==> CanMove(mode, RowColFromIndex(size, h[|h| - 1]), RowColFromIndex(size, i))
    ensures var c := cells[i := Cell(Empty, Blank, cells[i].fixed)]; var h' := h + [i];
      EmptiedExactly(c, h') && Distinct(h') && Chained(size, mode, h') && NoText(c)
  {
    var c := cells[i := Cell(Empty, Blank, cells[i].fixed)];
    var h' := h + [i];
    assert i !in h;
    forall x | 0 <= x < |c|
      ensures c[x].state == Empty <==> x in h'
    {
      if x != i {
        assert x in h' <==> x in h;
      }
    }
    forall j, k | 0 <= j < k < |h'|
      ensures h'[j] != h'[k]
    {
      assert h'[j] == h[j];
      if k == |h| {
        assert h[j] in h;
      } else {
        assert h'[k] == h[k];
      }
    }
    forall j | 0 < j < |h'|
      ensures CanMove(mode, RowColFromIndex(size, h'[j - 1]), RowColFromIndex(size, h'[j]))
    {
      assert h'[j - 1] == h[j - 1];
      if j < |h| {
        assert h'[j] == h[j];
      }
    }
  }

  /** Popping the newest history cell and refilling it keeps the history invariants. */
  lemma PopKeeps(size: Size, mode: Mode, cells: seq<Cell>, h: seq<int>)
    requires EmptiedExactly(cells, h) && Distinct(h) && Chained(size, mode, h) && NoText(cells)
    requires |h| > 0 && 0 <= h[|h| - 1] < |cells|
    ensures var i := h[|h| - 1]; var c := cells[i := Cell(Full, Blank, cells[i].fixed)]; var h' := h[..|h| - 1];
      EmptiedExactly(c, h') && Distinct(h') && Chained(size, mode, h') && NoText(c)
  {
    var i := h[|h| - 1];
    var c := cells[i := Cell(Full, Blank, cells[i].fixed)];
    var h' := h[..|h| - 1];
    assert h == h' + [i];
    assert i !in h' by {
      forall j | 0 <= j < |h'|
        ensures h'[j] != i
      {
        assert h'[j] == h[j];
      }
    }
    forall x | 0 <= x < |c|
      ensures c[x].state == Empty <==> x in h'
    {
      if x != i {
        assert x in h <==> x in h';
      }
    }
    forall j, k | 0 <= j < k < |h'|
      ensures h'[j] != h'[k]
    {
      assert h'[j] == h[j] && h'[k] == h[k];
    }
    forall j | 0 < j < |h'|
      ensures CanMove(mode, RowColFromIndex(size, h'[j - 1]), RowColFromIndex(size, h'[j]))
    {
      assert h'[j - 1] == h[j - 1] && h'[j] == h[j];
    }
  }

  /** A click is refused exactly on a cell that is not marked allowed, and a refused click changes nothing. */
  lemma PlaceRejectedIffNotAllowed(size: Size, mode: Mode, p: Play, at: Coord)
    requires Shaped(size, p) && InBounds(size, at)
    ensures Place(size, mode, p, at).outcome == Rejected <==> IndexFromRowCol(size, at) !in AllowedOf(size, mode, p)
    ensures Place(size, mode, p, at).outcome == Rejected ==> Place(size, mode, p, at).play == p
  {
    IndexRoundTrip(size, at);
    var i := IndexFromRowCol(size, at);
    assert RowColFromIndex(size, i) == at;
    assert i in AllowedOf(size, mode, p) <==> IsAllowed(size, mode, p.cells, p.maxNumber, p.last, i);
    assert IsAllowed(size, mode, p.cells, p.maxNumber, p.last, i) <==>
      p.cells[i].state == Full && (p.maxNumber == 0 || CanMove(mode, FromLast(p.last), at));
  }

  /**
   * A click is accepted exactly on a cell holding a logo that, once play has begun, is a legal
   * move from the last cell; an accepted click empties that cell and nothing else, pushes its
   * index, sets the count to the new history length, makes it the last cell and sets
   * `hasStarted`, and it wins exactly when the new count reaches the target. A plain clear re-marks
   * the allowed cells, a win clears every mark, and the target and counters stay as they were.
   */
  lemma PlaceClears(size: Size, mode: Mode, p: Play, at: Coord)
    requires Shaped(size, p) && InBounds(size, at)
    ensures var i := IndexFromRowCol(size, at); var r := Place(size, mode, p, at);
      && 0 <= i < size * size
      && (r.outcome != Rejected <==> p.cells[i].state == Full && (p.maxNumber == 0 || CanMove(mode, FromLast(p.last), at)))
      && (r.outcome != Rejected ==>
            && r.play.cells == p.cells[i := Cell(Empty, Blank, p.cells[i].fixed)]
            && r.play.history == p.history + [i]
            && r.play.maxNumber == |r.play.history|
            && r.play.last == Some(at)
            && r.play.hasStarted
            && r.play.targetToClear == p.targetToClear
            && r.play == p.(cells := r.play.cells, history := r.play.history, maxNumber := r.play.maxNumber,
                            last := r.play.last, hasStarted := true, allowed := r.play.allowed, hint := r.play.hint)
            && (r.outcome == Won <==> r.play.maxNumber == p.targetToClear))
      && (r.outcome == Cleared ==> r.play.allowed == AllowedOf(size, mode, r.play) && r.play.hint == None)
      && (r.outcome == Won ==> r.play.allowed == {} && r.play.hint == None)
  {
    IndexRoundTrip(size, at);
  }

  /** A successful clear keeps the session invariant. */
  lemma PlaceKeepsWalk(size: Size, mode: Mode, p: Play, at: Coord)
    requires Shaped(size, p) && InBounds(size, at) && Walk(size, mode, p)
    ensures Walk(size, mode, Place(size, mode, p, at).play)
  {
    PlaceClears(size, mode, p, at);
    IndexRoundTrip(size, at);
    var i := IndexFromRowCol(size, at);
    if Place(size, mode, p, at).outcome != Rejected {
      if p.history != [] {
        assert FromLast(p.last) == RowColFromIndex(size, p.history[|p.history| - 1]);
      }
      PushKeeps(size, mode, p.cells, p.history, i);
    }
  }

  /** An undo keeps the session invariant. */
  lemma UndoKeepsWalk(size: Size, mode: Mode, p: Play)
    requires Shaped(size, p) && Walk(size, mode, p)
    ensures Walk(size, mode, Undo(size, mode, p))
  {
    var n := |p.history|;
    if n > 0 {
      assert p.history[n - 1] in p.history;
      UndoRefills(size, mode, p);
      PopKeeps(size, mode, p.cells, p.history);
    }
  }

  /** Undo exactly inverts a successful clear: cells, history, count and last cell come back. */
  lemma PlaceThenUndo(size: Size, mode: Mode, p: Play, at: Coord)
    requires Shaped(size, p) && InBounds(size, at) && Consistent(size, p) && NoText(p.cells)
    requires Place(size, mode, p, at).outcome != Rejected
    ensures var u := Undo(size, mode, Place(size, mode, p, at).play);
      && u.cells == p.cells && u.history == p.history && u.maxNumber == p.maxNumber && u.last == p.last
      && u.targetToClear == p.targetToClear && u.allowed == AllowedOf(size, mode, p) && u.hint == None
  {
    PlaceClears(size, mode, p, at);
    var i := IndexFromRowCol(size, at);
    var q := Place(size, mode, p, at).play;
    assert q.history[|q.history| - 1] == i && q.history[..|q.history| - 1] == p.history;
    var emptied := p.cells[i := Cell(Empty, Blank, p.cells[i].fixed)];
    assert emptied[i := emptied[i].(state := Full, text := Blank)] == p.cells by {
      assert p.cells[i].text == Blank;
    }
    var w := Popped(size, q);
    assert w.cells == p.cells && w.history == p.history && w.last == p.last;
  }

  /** An undo refills the newest cell and makes its predecessor the last cell. */
  lemma UndoRefills(size: Size, mode: Mode, p: Play)
    requires Shaped(size, p) && Consistent(size, p) && |p.history| > 0
    requires p.cells[p.history[|p.history| - 1]].state == Empty
    ensures var n := |p.history|; var i := p.history[n - 1]; var u := Undo(size, mode, p);
      && u.cells == p.cells[i := Cell(Full, Blank, p.cells[i].fixed)]
      && u.history == p.history[..n - 1] && u.maxNumber == n - 1
      && u.last == (if n == 1 then None else Some(RowColFromIndex(size, p.history[n - 2])))
  {
  }

  /** Clearing the cell an undo refilled is legal again and restores cells, history, count and last cell. */
  lemma UndoThenPlace(size: Size, mode: Mode, p: Play)
    requires Shaped(size, p) && Walk(size, mode, p) && |p.history| > 0
    ensures var at := RowColFromIndex(size, p.history[|p.history| - 1]);
      && InBounds(size, at)
      && var r := Place(size, mode, Undo(size, mode, p), at);
      && r.outcome != Rejected
      && r.play.cells == p.cells && r.play.history == p.history
      && r.play.maxNumber == p.maxNumber && r.play.last == p.last
  {
    var n := |p.history|;
    var i := p.history[n - 1];
    CoordRoundTrip(size, i);
    var at := RowColFromIndex(size, i);
    assert p.cells[i] == Cell(Empty, Blank, p.cells[i].fixed);
    UndoRefills(size, mode, p);
    var u := Undo(size, mode, p);
    if n > 1 {
      assert CanMove(mode, FromLast(u.last), at);
    }
    PlaceClears(size, mode, u, at);
    assert p.cells[i := Cell(Full, Blank, p.cells[i].fixed)][i := Cell(Empty, Blank, p.cells[i].fixed)] == p.cells;
    assert p.history[..n - 1] + [i] == p.history;
  }

  /* ----- The degree hint ----- */

  /** The indices of the cells still holding a logo among the first `n`, in index order. */
  function FullCellsBelow(cells: seq<Cell>, n: int): seq<int>
    requires 0 <= n <= |cells|
  {
    if n == 0 then []
    else FullCellsBelow(cells, n - 1) + (if cells[n - 1].state == Full then [n - 1] else [])
  }

  /** The first `k` delta targets from `from` that are in bounds, hold a logo and that `canMove` accepts, in delta order. */
  function DeltaTargetsUpTo(size: Size, mode: Mode, cells: seq<Cell>, from: Coord, k: int): seq<int>
    requires |cells| == size * size && 0 <= k <= |MoveDeltas|
  {
    if k == 0 then []
    else
      var n := Step(from, k - 1);
      DeltaTargetsUpTo(size, mode, cells, from, k - 1) +
        if InBounds(size, n) then
          IndexRoundTrip(size, n);
          var i := IndexFromRowCol(size, n);
          if cells[i].state == Full && CanMove(mode, from, n) then [i] else []
        else []
  }

  function DeltaTargets(size: Size, mode: Mode, cells: seq<Cell>, from: Coord): seq<int>
    requires |cells| == size * size
  {
    DeltaTargetsUpTo(size, mode, cells, from, |MoveDeltas|)
  }

  /** `degreeFrom`: how many delta targets a cell has on the current board. */
  function DegreeFrom(size: Size, mode: Mode, cells: seq<Cell>, c: Coord): nat
    requires |cells| == size * size
  {
    |DeltaTargets(size, mode, cells, c)|
  }

  /** The hint candidates: every logo cell before the first clear, the delta targets of the last cell after it. */
  function HintCandidates(size: Size, mode: Mode, p: Play): seq<int>
    requires Shaped(size, p)
  {
    if p.maxNumber == 0 || p.last.None? then FullCellsBelow(p.cells, size * size)
    else DeltaTargets(size, mode, p.cells, p.last.value)
  }

  /**
   * The position of the first minimum: the scan that starts from an infinite best and replaces
   * it only on a strictly smaller value.
   */
  function FirstMin(ds: seq<int>): (k: nat)
    requires |ds| > 0
    ensures k < |ds|
  {
    if |ds| == 1 then 0
    else
      var k := FirstMin(ds[..|ds| - 1]);
      if ds[|ds| - 1] < ds[k] then |ds| - 1 else k
  }

  /** The degrees of the hint candidates, in candidate order. */
  function HintDegrees(size: Size, mode: Mode, cells: seq<Cell>, cs: seq<int>): (ds: seq<int>)
    requires |cells| == size * size
    ensures |ds| == |cs|
  {
    seq(|cs|, j requires 0 <= j < |cs| => DegreeFrom(size, mode, cells, RowColFromIndex(size, cs[j])))
  }

  /**
   * `suggestHintMoveV2`: the marks are reset; with no candidate nothing is marked; otherwise the
   * hint is the first candidate (before the first clear) or the first candidate of least degree,
   * and every other candidate is marked allowed.
   */
  function HintV2(size: Size, mode: Mode, p: Play): Play
    requires Shaped(size, p)
  {
    var cs := HintCandidates(size, mode, p);
    var q := p.(allowed := {}, hint := None);
    if cs == [] then q
    else
      var best := if p.maxNumber > 0 then cs[FirstMin(HintDegrees(size, mode, p.cells, cs))] else cs[0];
      q.(allowed := Elements(cs) - {best}, hint := Some(best))
  }

  /** The hint button: one more hint used, then the degree hint. */
  function HintPressed(size: Size, mode: Mode, p: Play): Play
    requires Shaped(size, p)
  {
    HintV2(size, mode, p.(hintsUsed := p.hintsUsed + 1))
  }

  /** The scan keeps the first of the least values: no value is smaller, every earlier one is larger. */
  lemma {:induction false} FirstMinIsFirstLeast(ds: seq<int>)
    requires |ds| > 0
    ensures forall j :: 0 <= j < |ds| ==> ds[FirstMin(ds)] <= ds[j]
    ensures forall j :: 0 <= j < FirstMin(ds) ==> ds[FirstMin(ds)] < ds[j]
  {
    if |ds| > 1 {
      var init := ds[..|ds| - 1];
      FirstMinIsFirstLeast(init);
      assert forall j :: 0 <= j < |init| ==> init[j] == ds[j];
    }
  }

  /** The index order scan lists exactly the logo cells below `n`. */
  lemma {:induction false} FullCellsBelowExact(cells: seq<Cell>, n: int)
    requires 0 <= n <= |cells|
    ensures forall i :: i in FullCellsBelow(cells, n) <==> 0 <= i < n && cells[i].state == Full
  {
    if n > 0 {
      FullCellsBelowExact(cells, n - 1);
    }
  }

  /** A cell index names the coordinate `n` exactly when `n` is on the board and indexes to it. */
  lemma NamesCell(size: Size, n: Coord, i: int)
    requires 0 <= i < size * size
    ensures n == RowColFromIndex(size, i) <==> InBounds(size, n) && i == IndexFromRowCol(size, n)
  {
    CoordRoundTrip(size, i);
    if InBounds(size, n) {
      IndexRoundTrip(size, n);
    }
  }

  /** One more delta adds its target, when that is an in-bounds logo cell `canMove` accepts, and nothing else. */
  lemma DeltaTargetsUpToStep(size: Size, mode: Mode, cells: seq<Cell>, from: Coord, k: int)
    requires |cells| == size * size && 0 < k <= |MoveDeltas|
    ensures var n := Step(from, k - 1);
      forall i :: i in DeltaTargetsUpTo(size, mode, cells, from, k) <==>
        || i in DeltaTargetsUpTo(size, mode, cells, from, k - 1)
        || (InBounds(size, n) && i == IndexFromRowCol(size, n) && cells[i].state == Full && CanMove(mode, from, n))
  {
    var n := Step(from, k - 1);
    if InBounds(size, n) {
      IndexRoundTrip(size, n);
    }
  }

  /** Every cell the delta scan lists is on the board. */
  lemma {:induction false} DeltaTargetsInRange(size: Size, mode: Mode, cells: seq<Cell>, from: Coord, k: int)
    requires |cells| == size * size && 0 <= k <= |MoveDeltas|
    ensures forall i :: i in DeltaTargetsUpTo(size, mode, cells, from, k) ==> 0 <= i < size * size
  {
    if k > 0 {
      DeltaTargetsInRange(size, mode, cells, from, k - 1);
      var n := Step(from, k - 1);
      if InBounds(size, n) {
        IndexRoundTrip(size, n);
      }
    }
  }

  /** The delta scan lists a cell exactly when it holds a logo, `canMove` accepts it and one of the first `k` deltas reaches it. */
  lemma {:induction false} DeltaTargetsUpToHas(size: Size, mode: Mode, cells: seq<Cell>, from: Coord, k: int, i: int)
    requires |cells| == size * size && 0 <= k <= |MoveDeltas| && 0 <= i < size * size
    ensures i in DeltaTargetsUpTo(size, mode, cells, from, k) <==>
      && cells[i].state == Full && CanMove(mode, from, RowColFromIndex(size, i))
      && exists d :: 0 <= d < k && Step(from, d) == RowColFromIndex(size, i)
  {
    if k > 0 {
      DeltaTargetsUpToHas(size, mode, cells, from, k - 1, i);
      DeltaTargetsUpToStep(size, mode, cells, from, k);
      var n := Step(from, k - 1);
      var c := RowColFromIndex(size, i);
      NamesCell(size, n, i);
      if n == c {
        assert 0 <= k - 1 < k && Step(from, k - 1) == c;
      }
      if exists d :: 0 <= d < k && Step(from, d) == c {
        var d :| 0 <= d < k && Step(from, d) == c;
        assert d < k - 1 || n == c;
      }
    }
  }

  /** The delta scan lists exactly the in-bounds logo cells that one of the first `k` deltas reaches and `canMove` accepts. */
  lemma DeltaTargetsUpToExact(size: Size, mode: Mode, cells: seq<Cell>, from: Coord, k: int)
    requires |cells| == size * size && 0 <= k <= |MoveDeltas|
    ensures forall i :: i in DeltaTargetsUpTo(size, mode, cells, from, k) <==>
      && 0 <= i < size * size && cells[i].state == Full && CanMove(mode, from, RowColFromIndex(size, i))
      && exists d :: 0 <= d < k && Step(from, d) == RowColFromIndex(size, i)
  {
    DeltaTargetsInRange(size, mode, cells, from, k);
    forall i | 0 <= i < size * size
      ensures i in DeltaTargetsUpTo(size, mode, cells, from, k) <==>
        && cells[i].state == Full && CanMove(mode, from, RowColFromIndex(size, i))
        && exists d :: 0 <= d < k && Step(from, d) == RowColFromIndex(size, i)
    {
      DeltaTargetsUpToHas(size, mode, cells, from, k, i);
    }
  }

  /**
   * Every hint candidate is a cell the allowed marks would accept; in classic mode, and before
   * the first clear, the candidates are exactly the allowed cells.
   */
  lemma HintCandidatesAreAllowed(size: Size, mode: Mode, p: Play)
    requires Shaped(size, p) && Consistent(size, p)
    ensures forall i :: i in HintCandidates(size, mode, p) ==> i in AllowedOf(size, mode, p)
    ensures mode == Classic || p.maxNumber == 0 ==>
      forall i :: i in AllowedOf(size, mode, p) ==> i in HintCandidates(size, mode, p)
  {
    if p.maxNumber == 0 || p.last.None? {
      FullCellsBelowExact(p.cells, size * size);
    } else {
      var from := p.last.value;
      DeltaTargetsUpToExact(size, mode, p.cells, from, |MoveDeltas|);
      if mode == Classic {
        forall i | i in AllowedOf(size, mode, p)
          ensures i in HintCandidates(size, mode, p)
        {
          ClassicMovesAreDeltas(from, RowColFromIndex(size, i));
        }
      }
    }
  }

  /** With no candidate the hint marks nothing; otherwise it picks one candidate and marks the others. */
  lemma HintV2Marks(size: Size, mode: Mode, p: Play)
    requires Shaped(size, p)
    ensures var r := HintV2(size, mode, p); var cs := HintCandidates(size, mode, p);
      && r.cells == p.cells && r.history == p.history && r.maxNumber == p.maxNumber && r.last == p.last
      && (cs == [] ==> r.hint == None && r.allowed == {})
      && (cs != [] ==> r.hint.Some? && r.hint.value in cs && r.hint.value !in r.allowed
                       && r.allowed + {r.hint.value} == Elements(cs))
  {
  }

  /** Once play has begun the hint is the first candidate of least degree. */
  lemma HintV2IsFirstLeastDegree(size: Size, mode: Mode, p: Play)
    requires Shaped(size, p) && p.maxNumber > 0 && HintCandidates(size, mode, p) != []
    ensures var cs := HintCandidates(size, mode, p);
      exists k :: 0 <= k < |cs| && HintV2(size, mode, p).hint == Some(cs[k])
        && (forall j :: 0 <= j < |cs| ==>
              DegreeFrom(size, mode, p.cells, RowColFromIndex(size, cs[k])) <= DegreeFrom(size, mode, p.cells, RowColFromIndex(size, cs[j])))
        && (forall j :: 0 <= j < k ==>
              DegreeFrom(size, mode, p.cells, RowColFromIndex(size, cs[k])) < DegreeFrom(size, mode, p.cells, RowColFromIndex(size, cs[j])))
  {
    var cs := HintCandidates(size, mode, p);
    var ds := HintDegrees(size, mode, p.cells, cs);
    FirstMinIsFirstLeast(ds);
    var k := FirstMin(ds);
    assert HintV2(size, mode, p).hint == Some(cs[k]);
    forall j | 0 <= j < |cs|
      ensures ds[j] == DegreeFrom(size, mode, p.cells, RowColFromIndex(size, cs[j]))
    {
    }
    assert 0 <= k < |cs| && HintV2(size, mode, p).hint == Some(cs[k]);
  }

  /** Under the session invariant the hinted cell can always be cleared. */
  lemma HintIsPlaceable(size: Size, mode: Mode, p: Play)
    requires Shaped(size, p) && Walk(size, mode, p) && HintV2(size, mode, p).hint.Some?
    ensures var h := HintV2(size, mode, p).hint.value;
      && 0 <= h < size * size
      && Place(size, mode, p, RowColFromIndex(size, h)).outcome != Rejected
  {
    var h := HintV2(size, mode, p).hint.value;
    HintV2Marks(size, mode, p);
    HintCandidatesAreAllowed(size, mode, p);
    assert h in AllowedOf(size, mode, p);
    CoordRoundTrip(size, h);
    PlaceRejectedIffNotAllowed(size, mode, p, RowColFromIndex(size, h));
  }


  /* ----- The correction of a mistyped sequence ----- */

  /** A cell the correction clears: not preset and holding a number above `k`. */
  predicate Exceeds(c: Cell, k: int) {
    !c.fixed && c.text.Number? && c.text.n > k
  }

  /** One cell after the clearing pass. */
  function ClearCell(c: Cell, k: int): Cell {
    if Exceeds(c, k) then c.(text := Blank) else c
  }

  /** The clearing pass over the whole board. */
  function ClearAbove(cells: seq<Cell>, k: int): (r: seq<Cell>)
    ensures |r| == |cells|
  {
    seq(|cells|, i requires 0 <= i < |cells| => ClearCell(cells[i], k))
  }

  /**
   * The correction's candidates among the first `k` deltas out of `from`, in delta order: the
   * in-bounds cells that are blank, or preset and showing the next number.
   */
  function CorrectionTargetsUpTo(size: Size, cells: seq<Cell>, from: Coord, next: int, k: int): seq<Coord>
    requires |cells| == size * size && 0 <= k <= |MoveDeltas|
  {
    if k == 0 then []
    else
      var n := Step(from, k - 1);
      CorrectionTargetsUpTo(size, cells, from, next, k - 1) +
        if InBounds(size, n) then
          IndexRoundTrip(size, n);
          var c := cells[IndexFromRowCol(size, n)];
          if c.text == Blank || (c.fixed && c.text == Number(next)) then [n] else []
        else []
  }

  function CorrectionTargets(size: Size, cells: seq<Cell>, from: Coord, next: int): seq<Coord>
    requires |cells| == size * size
  {
    CorrectionTargetsUpTo(size, cells, from, next, |MoveDeltas|)
  }

  /** The solver's degrees of the candidates on the parsed `visited` matrix, in candidate order. */
  function VisitedDegrees(size: Size, visited: seq<seq<bool>>, cs: seq<Coord>): (ds: seq<int>)
    requires IsBoard(size, visited)
    ensures |ds| == |cs|
  {
    seq(|cs|, j requires 0 <= j < |cs| => DegreeOf(size, visited, cs[j]))
  }

  /** The indices of a list of cells. */
  function Indices(size: Size, cs: seq<Coord>): set<int> {
    set c | c in cs :: IndexFromRowCol(size, c)
  }

  /**
   * `suggestLocalCorrectionOrMove`: nothing when the board does not parse; when the sequence
   * breaks after `prefixK`, every non-preset number above it is cleared, the count rolled back
   * to `prefixK`, the last cell set to the cell of `prefixK` and the allowed cells re-marked;
   * otherwise the count and last cell are set the same way, the marks reset, and among the
   * candidates the first of least degree becomes the hint and the others are marked allowed.
   */
  function Correct(size: Size, mode: Mode, p: Play): Play
    requires Shaped(size, p)
  {
    match Parse(size, mode, p.cells)
    case Failed(_) => p
    case Parsed(st) =>
      ParseBounds(size, mode, p.cells);
      ParsePrefix(size, mode, p.cells);
      CorrectFrom(size, mode, p, st)
  }

  /** What a parsed state guarantees the correction: the cell of `prefixK` is known and the matrix covers the board. */
  predicate Correctable(size: Size, st: SequenceState) {
    && 1 <= st.prefixK <= |st.positions| && st.positions[st.prefixK - 1].Some?
    && IsBoard(size, st.visited)
  }

  /** The correction given the parsed state: roll back when the sequence breaks, hint otherwise. */
  function CorrectFrom(size: Size, mode: Mode, p: Play, st: SequenceState): Play
    requires Shaped(size, p) && Correctable(size, st)
  {
    var k := st.prefixK;
    var last := st.positions[k - 1].value;
    if k < st.currentMax then RollBack(size, mode, p, k, last)
    else CorrectionHint(size, mode, p, st.visited, k, last)
  }

  /** The roll-back: numbers above `k` cleared, the count set to `k`, the last cell to `last`, and the allowed cells re-marked. */
  function RollBack(size: Size, mode: Mode, p: Play, k: nat, last: Coord): Play
    requires Shaped(size, p)
  {
    UpdateAllowed(size, mode, p.(cells := ClearAbove(p.cells, k), maxNumber := k, last := Some(last)))
  }

  /** The hint from `last`: the count set to `k`, the marks reset, then the first candidate of least degree hinted and the others marked. */
  function CorrectionHint(size: Size, mode: Mode, p: Play, visited: seq<seq<bool>>, k: nat, last: Coord): Play
    requires Shaped(size, p) && IsBoard(size, visited)
  {
    var q := p.(maxNumber := k, last := Some(last), allowed := {}, hint := None);
    var cs := CorrectionTargets(size, p.cells, last, k + 1);
    if cs == [] then q
    else
      var best := IndexFromRowCol(size, cs[FirstMin(VisitedDegrees(size, visited, cs))]);
      q.(allowed := Indices(size, cs) - {best}, hint := Some(best))
  }

  /**
   * When the sequence breaks after `prefixK`, the correction touches only the text of non-preset
   * cells above `prefixK`, leaves no such cell, rolls the count back to `prefixK`, makes the cell
   * of `prefixK` the last cell, and marks exactly the cells allowed from there; the history, the
   * target, `hasStarted` and the counters stay as they were.
   */
  lemma CorrectionRollsBack(size: Size, mode: Mode, p: Play)
    requires Shaped(size, p) && Parse(size, mode, p.cells).Parsed?
    requires Parse(size, mode, p.cells).state.prefixK < Parse(size, mode, p.cells).state.currentMax
    ensures var st := Parse(size, mode, p.cells).state; var k := st.prefixK; var r := Correct(size, mode, p);
      && 1 <= k <= |st.positions| && st.positions[k - 1].Some?
      && r.maxNumber == k && r.last == Some(st.positions[k - 1].value)
      && r.history == p.history && |r.cells| == |p.cells|
      && r == p.(cells := r.cells, maxNumber := r.maxNumber, last := r.last, allowed := r.allowed, hint := r.hint)
      && r.allowed == AllowedOf(size, mode, r) && r.hint == None
      && (forall i :: 0 <= i < |p.cells| ==>
            && r.cells[i].state == p.cells[i].state && r.cells[i].fixed == p.cells[i].fixed
            && (r.cells[i].text == p.cells[i].text || r.cells[i].text == Blank)
            && (!Exceeds(p.cells[i], k) ==> r.cells[i] == p.cells[i])
            && !Exceeds(r.cells[i], k))
  {
    ParseBounds(size, mode, p.cells);
    ParsePrefix(size, mode, p.cells);
  }

  /**
   * Otherwise the hint is the first candidate of least degree on the parsed matrix, the count
   * becomes `prefixK` and the cell of `prefixK` becomes the last cell; the cells, the history,
   * the target, `hasStarted` and the counters stay as they were.
   */
  lemma CorrectionHintIsFirstLeastDegree(size: Size, mode: Mode, p: Play)
    requires Shaped(size, p) && Parse(size, mode, p.cells).Parsed?
    requires Parse(size, mode, p.cells).state.prefixK >= Parse(size, mode, p.cells).state.currentMax
    ensures var st := Parse(size, mode, p.cells).state; var r := Correct(size, mode, p);
      && 1 <= st.prefixK && st.positions[st.prefixK - 1].Some? && IsBoard(size, st.visited)
      && var cs := CorrectionTargets(size, p.cells, st.positions[st.prefixK - 1].value, st.prefixK + 1);
      && r.maxNumber == st.prefixK && r.last == Some(st.positions[st.prefixK - 1].value) && r.cells == p.cells
      && r == p.(maxNumber := r.maxNumber, last := r.last, allowed := r.allowed, hint := r.hint)
      && (cs == [] ==> r.hint == None && r.allowed == {})
      && (cs != [] ==>
            exists k :: 0 <= k < |cs| && r.hint == Some(IndexFromRowCol(size, cs[k]))
              && r.allowed == Indices(size, cs) - {IndexFromRowCol(size, cs[k])}
              && (forall j :: 0 <= j < |cs| ==> DegreeOf(size, st.visited, cs[k]) <= DegreeOf(size, st.visited, cs[j]))
              && (forall j :: 0 <= j < k ==> DegreeOf(size, st.visited, cs[k]) < DegreeOf(size, st.visited, cs[j])))
  {
    ParseBounds(size, mode, p.cells);
    ParsePrefix(size, mode, p.cells);
    var st := Parse(size, mode, p.cells).state;
    var cs := CorrectionTargets(size, p.cells, st.positions[st.prefixK - 1].value, st.prefixK + 1);
    if cs != [] {
      var ds := VisitedDegrees(size, st.visited, cs);
      FirstMinIsFirstLeast(ds);
      var k := FirstMin(ds);
      forall j | 0 <= j < |cs|
        ensures ds[j] == DegreeOf(size, st.visited, cs[j])
      {
      }
      assert Correct(size, mode, p).hint == Some(IndexFromRowCol(size, cs[k]));
    }
  }

  /**
   * On a board whose cells carry no text, the parse fails for want of a 1 and the correction
   * changes nothing.
   */
  lemma CorrectionInertOnLogoBoard(size: Size, mode: Mode, p: Play)
    requires Shaped(size, p) && forall i :: 0 <= i < |p.cells| ==> p.cells[i].text == Blank
    ensures Parse(size, mode, p.cells).Failed?
    ensures Correct(size, mode, p) == p
  {
    ParseSucceedsIff(size, mode, p.cells);
  }
}
