// The session of the removal game as the source runs it: the board cells and the session
// variables live in one object whose methods update them step by step, each proved to leave
// exactly the state its specification in `SessionRules` (or `LevelGenerator`) describes.

module Session {
  import opened Grid
  import opened Moves
  import opened Warnsdorff
  import opened StateParser
  import opened SessionRules
  import opened LevelGenerator
  import Search
  import Solver

  /** A new best value scanned so far: the scan replaces it only on a strictly smaller value. */
  lemma FirstMinStep(ds: seq<int>, j: int)
    requires 0 < j < |ds|
    ensures FirstMin(ds[..j + 1]) == if ds[j] < ds[FirstMin(ds[..j])] then j else FirstMin(ds[..j])
  {
    assert ds[..j + 1][..j] == ds[..j];
  }

  /** The allowed cells below `n + 1`: those below `n`, and cell `n` when it is allowed. */
  lemma AllowedBelowNext(size: Size, mode: Mode, cells: seq<Cell>, maxNumber: int, last: Option<Coord>, n: int)
    requires 0 <= n < |cells|
    ensures AllowedBelow(size, mode, cells, maxNumber, last, n + 1) ==
      AllowedBelow(size, mode, cells, maxNumber, last, n) + if IsAllowed(size, mode, cells, maxNumber, last, n) then {n} else {}
  {
  }

  /** Row `r`, column `c` of the board is cell `r * size + c`, and the row ends where the next one starts. */
  lemma RowMajor(size: Size, r: int, c: int)
    requires 0 <= r < size && 0 <= c < size
    ensures IndexFromRowCol(size, Coord(r, c)) == r * size + c
    ensures r * size + c < size * size && (r + 1) * size == r * size + size
    ensures RowColFromIndex(size, r * size + c) == Coord(r, c)
  {
    IndexRoundTrip(size, Coord(r, c));
  }

  /**
   * The attempt loop of `generateLevelLayout`: fresh state with value 1 at the attempt's start
   * cell, the solver, and a stop at the first best path long enough; at most `MaxAttempts` tries.
   */
  method SearchPath(size: Size, starts: seq<Coord>, maxNeed: int) returns (s: PathSearch)
    requires StartsCover(size, starts)
    ensures s == FindPath(size, starts, maxNeed)
  {
    var bestPath: Option<seq<Coord>> := None;
    var tries := 0;
    while bestPath.None? && tries < MaxAttempts
      invariant 0 <= tries <= MaxAttempts
      invariant bestPath.None? ==> FindFrom(AttemptAt(size), starts, maxNeed, tries) == FindPath(size, starts, maxNeed)
      invariant bestPath.Some? ==> FindPath(size, starts, maxNeed) == Found(bestPath.value, tries)
      decreases MaxAttempts - tries
    {
      var start := starts[tries];
      tries := tries + 1;
      var path, len := Solver.SolveFromState(size, AttemptState(size, start));
      assert Search.SolveResult(path, len) == AttemptAt(size)(start);
      if len >= maxNeed {
        bestPath := Some(path);
      }
    }
    if bestPath.None? {
      return NotFound;
    }
    return Found(bestPath.value, tries);
  }

  /**
   * The candidate loop of the correction: the first candidate of least `degree` on the parsed
   * `visited` matrix, starting from no best and an infinite best degree.
   */
  method LeastDegreeMove(size: Size, visited: seq<seq<bool>>, cs: seq<Coord>) returns (best: Coord)
    requires IsBoard(size, visited) && |cs| > 0
    ensures best == cs[FirstMin(VisitedDegrees(size, visited, cs))]
  {
    ghost var ds := VisitedDegrees(size, visited, cs);
    var found: Option<Coord> := None;
    var bestDeg: Option<int> := None;
    ghost var bestK := 0;
    for j := 0 to |cs|
      invariant j == 0 ==> found.None? && bestDeg.None?
      invariant j > 0 ==> bestK == FirstMin(ds[..j]) && bestDeg == Some(ds[bestK]) && found == Some(cs[bestK])
    {
      var degVal := Degree(size, visited, cs[j]);
      if j > 0 {
        FirstMinStep(ds, j);
      }
      if bestDeg.None? || degVal < bestDeg.value {
        bestDeg := Some(degVal);
        found := Some(cs[j]);
        bestK := j;
      }
    }
    assert ds[..|cs|] == ds;
    best := found.value;
  }

  /** `degreeFrom`: the delta targets of `c` that hold a logo and that `canMove` accepts, counted. */
  method DegreeFromCell(size: Size, mode: Mode, cells: seq<Cell>, c: Coord) returns (d: nat)
    requires |cells| == size * size
    ensures d == DegreeFrom(size, mode, cells, c)
  {
    d := 0;
    for k := 0 to |MoveDeltas|
      invariant d == |DeltaTargetsUpTo(size, mode, cells, c, k)|
    {
      var n := Step(c, k);
      if !InBounds(size, n) {
        continue;
      }
      IndexRoundTrip(size, n);
      var idx := IndexFromRowCol(size, n);
      if cells[idx].state == Full && CanMove(mode, c, n) {
        d := d + 1;
      }
    }
  }

  /** The least-degree loop of the hint: the first candidate whose `degreeFrom` is least. */
  method LeastDegreeCell(size: Size, mode: Mode, cells: seq<Cell>, candidates: seq<int>) returns (bestIdx: int)
    requires |cells| == size * size && |candidates| > 0
    ensures bestIdx == candidates[FirstMin(HintDegrees(size, mode, cells, candidates))]
  {
    ghost var ds := HintDegrees(size, mode, cells, candidates);
    bestIdx := candidates[0];
    var bestDeg: Option<int> := None;
    ghost var bestK := 0;
    for j := 0 to |candidates|
      invariant bestDeg.None? <==> j == 0
      invariant j == 0 ==> bestIdx == candidates[0]
      invariant bestDeg.Some? ==> bestK == FirstMin(ds[..j]) && bestDeg.value == ds[bestK] && bestIdx == candidates[bestK]
    {
      var idx := candidates[j];
      var deg := DegreeFromCell(size, mode, cells, RowColFromIndex(size, idx));
      assert deg == ds[j];
      if bestDeg.Some? {
        FirstMinStep(ds, j);
      }
      if bestDeg.None? || deg < bestDeg.value {
        bestDeg := Some(deg);
        bestIdx := idx;
        bestK := j;
      }
    }
    assert ds[..|candidates|] == ds;
  }

  /** `candidates.forEach(i => add "allowed")`: the marked cells. */
  method MarkCandidates(cs: seq<int>) returns (marked: set<int>)
    ensures marked == Elements(cs)
  {
    marked := {};
    for j := 0 to |cs|
      invariant marked == Elements(cs[..j])
    {
      assert cs[..j + 1] == cs[..j] + [cs[j]];
      marked := marked + {cs[j]};
    }
    assert cs[..|cs|] == cs;
  }

  /** `candidateMoves.forEach(m => add "allowed")`: the indices of the marked moves. */
  method MarkMoves(size: Size, cs: seq<Coord>) returns (marked: set<int>)
    ensures marked == Indices(size, cs)
  {
    marked := {};
    for j := 0 to |cs|
      invariant marked == Indices(size, cs[..j])
    {
      assert cs[..j + 1] == cs[..j] + [cs[j]];
      marked := marked + {IndexFromRowCol(size, cs[j])};
    }
    assert cs[..|cs|] == cs;
  }

  /** The reset of every cell of a new level: a plain logo, not preset. */
  method ResetCells(cells: seq<Cell>) returns (r: seq<Cell>)
    ensures r == LogoBoard(|cells|)
  {
    r := cells;
    for i := 0 to |cells|
      invariant |r| == |cells|
      invariant forall j :: 0 <= j < i ==> r[j] == Cell(Full, Blank, false)
    {
      r := r[i := Cell(Full, Blank, false)];
    }
  }

  /** `ironSteps.forEach`: the cell of each listed step of the path made an iron logo, one after the other. */
  method PlaceIronSteps(size: Size, cells: seq<Cell>, path: seq<Coord>, steps: seq<int>) returns (r: seq<Cell>, ironCount: int)
    requires |cells| == size * size && StepsOnPath(size, path, steps)
    ensures r == PlaceIron(size, cells, path, steps) && ironCount == |steps|
  {
    r := cells;
    ironCount := 0;
    for j := 0 to |steps|
      invariant StepsOnPath(size, path, steps[..j])
      invariant r == PlaceIron(size, cells, path, steps[..j]) && ironCount == j
    {
      PlaceIronNext(size, cells, path, steps, j);
      var idx := IndexFromRowCol(size, path[steps[j] - 1]);
      r := r[idx := r[idx].(state := Iron, text := Blank)];
      ironCount := ironCount + 1;
    }
    assert steps[..|steps|] == steps;
  }

  /** The clearing pass of the correction, row by row: every non-preset number above `k` becomes blank. */
  method ClearNumbersAbove(size: Size, cells: seq<Cell>, k: int) returns (r: seq<Cell>)
    requires |cells| == size * size
    ensures r == ClearAbove(cells, k)
  {
    r := cells;
    for row := 0 to size
      invariant |r| == size * size
      invariant forall i :: 0 <= i < row * size ==> r[i] == ClearCell(cells[i], k)
      invariant forall i :: row * size <= i < size * size ==> r[i] == cells[i]
    {
      RowMajor(size, row, 0);
      r := ClearRow(size, r, k, row);
    }
  }

  /** One row of the clearing pass: the cells of row `row` cleared, every other cell kept. */
  method ClearRow(size: Size, cells: seq<Cell>, k: int, row: int) returns (r: seq<Cell>)
    requires |cells| == size * size && 0 <= row < size
    ensures |r| == |cells|
    ensures forall i :: 0 <= i < |r| ==>
      r[i] == if row * size <= i < row * size + size then ClearCell(cells[i], k) else cells[i]
  {
    RowMajor(size, row, 0);
    var base := row * size;
    r := cells;
    for col := 0 to size
      invariant |r| == size * size
      invariant forall i :: 0 <= i < |r| ==> r[i] == if base <= i < base + col then ClearCell(cells[i], k) else cells[i]
    {
      RowMajor(size, row, col);
      var idx := IndexFromRowCol(size, Coord(row, col));
      assert idx == base + col;
      var cell := r[idx];
      assert cell == cells[idx];
      // Preset and blank cells are skipped; text that is not a number never exceeds `k`.
      if !cell.fixed && cell.text.Number? && cell.text.n > k {
        r := r[idx := cell.(text := Blank)];
      }
      assert r[idx] == ClearCell(cells[idx], k);
    }
  }

  /** The game state of the removal variant: the cells and every session variable the engine updates. */
  class Session {
    const size: Size
    const mode: Mode
    var cells: seq<Cell>
    var history: seq<int>
    var maxNumber: nat
    var last: Option<Coord>
    var targetToClear: int
    var allowed: set<int>
    var hint: Option<int>
    var hasStarted: bool
    var undosUsed: nat
    var hintsUsed: nat

    /** The state as a value of the session specification. */
    ghost function Snapshot(): Play
      reads this
    {
      Play(cells, history, maxNumber, last, targetToClear, allowed, hint, hasStarted, undosUsed, hintsUsed)
    }

    ghost predicate Valid()
      reads this
    {
      Shaped(size, Snapshot())
    }

    /**
     * The grid as the page builds it before any level is laid out: every cell empty and not
     * preset, nothing cleared, and a target of 0 cells.
     */
    constructor (size: Size, mode: Mode)
      ensures Valid() && this.size == size && this.mode == mode
      ensures Snapshot() == Play(seq(size * size, _ => Cell(Empty, Blank, false)), [], 0, None, 0, {}, None, false, 0, 0)
    {
      this.size := size;
      this.mode := mode;
      cells := seq(size * size, _ => Cell(Empty, Blank, false));
      history := [];
      maxNumber := 0;
      last := None;
      targetToClear := 0;
      allowed := {};
      hint := None;
      hasStarted := false;
      undosUsed := 0;
      hintsUsed := 0;
    }

    /**
     * The scan of `updateAllowedCells`, row by row: the cells that hold a logo and, once play has
     * begun, are a legal move from the last cell; and whether any was found.
     */
    method AllowedScan() returns (marked: set<int>, anyAllowed: bool)
      requires Valid()
      ensures marked == AllowedOf(size, mode, Snapshot()) && anyAllowed == (marked != {})
    {
      marked := {};
      anyAllowed := false;
      for r := 0 to size
        invariant marked == AllowedBelow(size, mode, cells, maxNumber, last, r * size)
        invariant anyAllowed == (marked != {})
      {
        for c := 0 to size
          invariant marked == AllowedBelow(size, mode, cells, maxNumber, last, r * size + c)
          invariant anyAllowed == (marked != {})
        {
          RowMajor(size, r, c);
          var idx := IndexFromRowCol(size, Coord(r, c));
          AllowedBelowNext(size, mode, cells, maxNumber, last, idx);
          if cells[idx].state != Full {
            continue;
          }
          if maxNumber == 0 || CanMove(mode, FromLast(last), Coord(r, c)) {
            marked := marked + {idx};
            anyAllowed := true;
          }
        }
      }
    }

    /** `updateAllowedCells`: the marks are reset and the allowed cells marked; the result says whether the blocked status is shown. */
    method UpdateAllowedCells() returns (blocked: bool)
      requires Valid()
      modifies this
      ensures Valid()
      ensures Snapshot() == UpdateAllowed(size, mode, old(Snapshot()))
      ensures blocked == Blocked(size, mode, Snapshot())
    {
      var marked, anyAllowed := AllowedScan();
      allowed := marked;
      hint := None;
      blocked := !anyAllowed && maxNumber < targetToClear;
    }

    /**
     * `placeNextNumber`: refuse a cell without a logo or an illegal move once play has begun;
     * otherwise set `hasStarted`, empty the cell, push it, count it, make it the last cell, and
     * either stop on the target or re-mark the allowed cells.
     */
    method PlaceNextNumber(at: Coord) returns (outcome: PlaceOutcome)
      requires Valid() && InBounds(size, at)
      modifies this
      ensures Valid()
      ensures Placement(outcome, Snapshot()) == Place(size, mode, old(Snapshot()), at)
    {
      ghost var p := Snapshot();
      IndexRoundTrip(size, at);
      var idxHere := IndexFromRowCol(size, at);
      var legal := cells[idxHere].state == Full && (maxNumber == 0 || CanMove(mode, FromLast(last), at));
      if !legal {
        return Rejected;
      }
      EmptyCell(idxHere, at);
      if maxNumber == targetToClear {
        allowed := {};
        hint := None;
        return Won;
      }
      var _ := UpdateAllowedCells();
      return Cleared;
    }

    /** The clear itself: set `hasStarted`, empty cell `idx` at `at`, push it, count it and make it the last cell. */
    method EmptyCell(idx: int, at: Coord)
      requires Valid() && 0 <= idx < |cells|
      modifies this
      ensures Valid()
      ensures Snapshot() == Emptied(size, old(Snapshot()), idx, at)
    {
      hasStarted := true;
      cells := cells[idx := cells[idx].(state := Empty, text := Blank)];
      history := history + [idx];
      maxNumber := |history|;
      last := Some(at);
    }

    /**
     * `undoLastMove`: nothing on an empty history; otherwise count the undo, pop the newest
     * entry, refill its cell if it is empty, recount, take the last cell from the new newest
     * entry (null when none is left) and re-mark the allowed cells.
     */
    method UndoLastMove()
      requires Valid()
      modifies this
      ensures Valid()
      ensures Snapshot() == Undo(size, mode, old(Snapshot()))
    {
      ghost var p := Snapshot();
      if |history| == 0 {
        return;
      }
      undosUsed := undosUsed + 1;
      var lastIdx := history[|history| - 1];
      history := history[..|history| - 1];
      if cells[lastIdx].state == Empty {
        cells := cells[lastIdx := cells[lastIdx].(state := Full, text := Blank)];
      }
      maxNumber := |history|;
      if maxNumber == 0 {
        last := None;
      } else {
        var prevIdx := history[|history| - 1];
        last := Some(Coord(prevIdx / size, prevIdx % size));
      }
      assert Snapshot() == Popped(size, p);
      var _ := UpdateAllowedCells();
    }

    /** The candidates of the hint: the logo cells in index order before play, the delta targets of the last cell after. */
    method HintCandidateList() returns (candidates: seq<int>)
      requires Valid()
      ensures candidates == HintCandidates(size, mode, Snapshot())
    {
      candidates := [];
      if maxNumber == 0 || last.None? {
        for i := 0 to |cells|
          invariant candidates == FullCellsBelow(cells, i)
        {
          if cells[i].state == Full {
            candidates := candidates + [i];
          }
        }
      } else {
        var from := last.value;
        for k := 0 to |MoveDeltas|
          invariant candidates == DeltaTargetsUpTo(size, mode, cells, from, k)
        {
          var n := Step(from, k);
          if !InBounds(size, n) {
            continue;
          }
          IndexRoundTrip(size, n);
          var idx := IndexFromRowCol(size, n);
          if cells[idx].state == Full && CanMove(mode, from, n) {
            candidates := candidates + [idx];
          }
        }
      }
    }

    /**
     * `suggestHintMoveV2`: reset the marks; with no candidate stop; otherwise pick the first
     * candidate, or once play has begun the first of least degree, mark every candidate allowed
     * and turn the pick into the hint.
     */
    method SuggestHintMoveV2()
      requires Valid()
      modifies this
      ensures Valid()
      ensures Snapshot() == HintV2(size, mode, old(Snapshot()))
    {
      var candidates := HintCandidateList();
      if candidates == [] {
        allowed := {};
        hint := None;
        return;
      }
      var bestIdx := candidates[0];
      if maxNumber > 0 {
        bestIdx := LeastDegreeCell(size, mode, cells, candidates);
      }
      var marked := MarkCandidates(candidates);
      allowed := marked - {bestIdx};
      hint := Some(bestIdx);
    }

    /** The hint button: count the hint, then the degree hint. */
    method HintButton()
      requires Valid()
      modifies this
      ensures Valid()
      ensures Snapshot() == HintPressed(size, mode, old(Snapshot()))
    {
      hintsUsed := hintsUsed + 1;
      SuggestHintMoveV2();
    }

    /** The correction's candidate loop: the delta targets of `from` that are blank, or preset and showing `next`. */
    method CorrectionMoves(from: Coord, next: int) returns (cs: seq<Coord>)
      requires Valid()
      ensures cs == CorrectionTargets(size, cells, from, next)
    {
      cs := [];
      for d := 0 to |MoveDeltas|
        invariant cs == CorrectionTargetsUpTo(size, cells, from, next, d)
      {
        var n := Step(from, d);
        if InBounds(size, n) {
          IndexRoundTrip(size, n);
          var cell := cells[IndexFromRowCol(size, n)];
          if cell.text == Blank || (cell.fixed && cell.text == Number(next)) {
            cs := cs + [n];
          }
        }
      }
    }

    /**
     * `suggestLocalCorrectionOrMove`: parse the board; stop when it does not parse; when the
     * sequence breaks after `prefixK`, clear the numbers above it, roll the count and the last
     * cell back and re-mark; otherwise roll them the same way, reset the marks and make the
     * first candidate of least degree the hint, every other candidate allowed.
     */
    method SuggestLocalCorrectionOrMove()
      requires Valid()
      modifies this
      ensures Valid()
      ensures Snapshot() == Correct(size, mode, old(Snapshot()))
    {
      var res := ParseCurrentStateAllowPrefix(size, mode, cells);
      if res.Failed? {
        return;
      }
      ParseBounds(size, mode, cells);
      ParsePrefix(size, mode, cells);
      var st := res.state;
      var lastPos := st.positions[st.prefixK - 1].value;
      if st.prefixK < st.currentMax {
        RollBackTo(st.prefixK, lastPos);
      } else {
        HintFrom(st.visited, st.prefixK, lastPos);
      }
    }

    /** The roll-back branch of the correction: clear the numbers above `k`, set the count and the last cell, re-mark. */
    method RollBackTo(k: nat, lastPos: Coord)
      requires Valid()
      modifies this
      ensures Valid()
      ensures Snapshot() == RollBack(size, mode, old(Snapshot()), k, lastPos)
    {
      cells := ClearNumbersAbove(size, cells, k);
      maxNumber := k;
      last := Some(lastPos);
      var _ := UpdateAllowedCells();
    }

    /** The hint branch of the correction: set the count and the last cell, reset the marks, hint the first candidate of least degree. */
    method HintFrom(visited: seq<seq<bool>>, k: nat, lastPos: Coord)
      requires Valid() && IsBoard(size, visited)
      modifies this
      ensures Valid()
      ensures Snapshot() == CorrectionHint(size, mode, old(Snapshot()), visited, k, lastPos)
    {
      var candidateMoves := CorrectionMoves(lastPos, k + 1);
      maxNumber := k;
      last := Some(lastPos);
      allowed := {};
      hint := None;
      if candidateMoves == [] {
        return;
      }
      var best := LeastDegreeMove(size, visited, candidateMoves);
      var marked := MarkMoves(size, candidateMoves);
      var bestIdx := IndexFromRowCol(size, best);
      allowed := marked - {bestIdx};
      hint := Some(bestIdx);
    }

    /** The reset that opens `generateLevelLayout`: counters, cells, marks, history, count, last cell and `hasStarted`. */
    method ResetLevel()
      requires Valid()
      modifies this
      ensures Valid()
      ensures Snapshot() == Reset(size, old(Snapshot()))
    {
      hintsUsed := 0;
      undosUsed := 0;
      cells := ResetCells(cells);
      allowed := {};
      hint := None;
      history := [];
      maxNumber := 0;
      last := None;
      hasStarted := false;
    }

    /**
     * `generateLevelLayout(level)`: the reset; with no iron steps the target is every cell;
     * otherwise search a long enough path, and on success make the listed steps of it iron and
     * set the target to the cells left; then re-mark.
     */
    method GenerateLevelLayout(level: int, starts: seq<Coord>)
      requires Valid() && StartsCover(size, starts)
      modifies this
      ensures Valid()
      ensures Snapshot() == Generate(size, mode, level, starts, old(Snapshot()))
    {
      GenerateIsLayout(size, mode, level, starts, Snapshot());
      ResetLevel();
      var ironSteps := IronSteps(level);
      if |ironSteps| == 0 {
        targetToClear := size * size;
        var _ := UpdateAllowedCells();
        return;
      }
      var maxNeed := SeqMax(ironSteps);
      var search := SearchPath(size, starts, maxNeed);
      if search.NotFound? {
        var _ := UpdateAllowedCells();
        return;
      }
      var ironCells, ironCount := PlaceIronSteps(size, cells, search.path, ironSteps);
      cells := ironCells;
      targetToClear := size * size - ironCount;
      var _ := UpdateAllowedCells();
    }
  }
}
