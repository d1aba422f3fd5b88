// Level generation: a new board full of logos, and, on levels with iron steps, a long enough
// solver path from a start cell (one per attempt, at most 300 attempts) whose listed steps
// become iron logos that cannot be cleared.

module LevelGenerator {
  import opened Grid
  import opened Moves
  import opened StateParser
  import Search
  import opened SessionRules

  const LevelCount := 7

  /** The attempt limit of the path search. */
  const MaxAttempts := 300

  /** `FIXED_BY_LEVEL[level] || []`: the 1-based path steps whose cells become iron on each level. */
  function IronSteps(level: int): seq<int> {
    if level == 2 then [5]
    else if level == 3 then [5, 8]
    else if level == 4 then [5, 8, 9]
    else if level == 5 then [5, 8, 9, 14]
    else if level == 6 then [5, 8, 9, 14, 17, 21]
    else if level == 7 then [5, 8, 9, 14, 17, 21, 22]
    else []
  }

  /** `Math.max(...steps)`. */
  function SeqMax(s: seq<int>): (m: int)
    requires |s| > 0
    ensures m in s && forall x :: x in s ==> x <= m
  {
    if |s| == 1 then s[0]
    else
      var m := SeqMax(s[..|s| - 1]);
      assert forall x :: x in s ==> x in s[..|s| - 1] || x == s[|s| - 1];
      if s[|s| - 1] > m then s[|s| - 1] else m
  }

  /** Every level's steps are distinct, increasing numbers between 1 and 22, so they fit on a 6x6 board. */
  lemma IronStepsShape(level: int)
    ensures var s := IronSteps(level);
      && |s| <= LevelCount
      && (forall i :: 0 <= i < |s| ==> 1 <= s[i] <= 22)
      && (forall i, j :: 0 <= i < j < |s| ==> s[i] < s[j])
  {
  }

  /** The input of one attempt: value 1 at the start cell, nothing else placed, only the start visited. */
  function AttemptState(size: Size, start: Coord): (st: SequenceState)
    requires InBounds(size, start)
    ensures Search.SolverInput(size, st)
  {
    var visited := SetFlag(seq(size, _ => seq(size, _ => false)), start, true);
    SequenceState(1, [Some(start)] + seq(size * size - 1, _ => None), visited, 1)
  }

  /** One start cell for each attempt the search may make. */
  predicate StartsCover(size: Size, starts: seq<Coord>) {
    |starts| >= MaxAttempts && forall i :: 0 <= i < |starts| ==> InBounds(size, starts[i])
  }

  /** What one attempt from `start` gives: the solver's best path from value 1 placed at `start`. */
  function Attempt(size: Size, start: Coord): Search.SolveResult
    requires InBounds(size, start)
  {
    Search.Solve(size, AttemptState(size, start))
  }

  /** The outcome of the path search: a path and the number of attempts it took, or none. */
  datatype PathSearch = Found(path: seq<Coord>, tries: nat) | NotFound

  /** An attempt from any cell: the solver's result from a cell of the board, no path from a cell off it. */
  function AttemptAt(size: Size): Coord -> Search.SolveResult {
    c => if InBounds(size, c) then Attempt(size, c) else Search.SolveResult([], 0)
  }

  /**
   * The search loop from attempt `t` on, for any `attempt` rule: stop at the first attempt whose
   * best path has at least `maxNeed` cells, after at most `MaxAttempts` attempts.
   */
  function FindFrom(attempt: Coord -> Search.SolveResult, starts: seq<Coord>, maxNeed: int, t: nat): (r: PathSearch)
    requires t <= MaxAttempts <= |starts|
    ensures r.Found? ==> t < r.tries <= MaxAttempts
    decreases MaxAttempts - t
  {
    if t == MaxAttempts then NotFound
    else
      var res := attempt(starts[t]);
      if res.bestLen >= maxNeed then Found(res.bestPath, t + 1)
      else FindFrom(attempt, starts, maxNeed, t + 1)
  }

  /** The path search of `generateLevelLayout`: at most `MaxAttempts` attempts, one start cell each. */
  function FindPath(size: Size, starts: seq<Coord>, maxNeed: int): PathSearch
    requires StartsCover(size, starts)
  {
    FindFrom(AttemptAt(size), starts, maxNeed, 0)
  }

  /** A path of distinct in-bounds cells, each a classic jump from the one before. */
  predicate JumpPath(size: Size, path: seq<Coord>) {
    && (forall i :: 0 <= i < |path| ==> InBounds(size, path[i]))
    && (forall i, j :: 0 <= i < j < |path| ==> path[i] != path[j])
    && (forall i :: 0 < i < |path| ==> CanMove(Classic, path[i - 1], path[i]))
  }

  /** A result of an attempt from `start`: a jump path from `start` of its own length, at most the board size. */
  predicate GoodResult(size: Size, start: Coord, r: Search.SolveResult) {
    && |r.bestPath| == r.bestLen && 1 <= r.bestLen <= size * size
    && r.bestPath[0] == start && JumpPath(size, r.bestPath)
  }

  /** Every attempt yields a good result. */
  lemma AttemptPath(size: Size, start: Coord)
    requires InBounds(size, start)
    ensures GoodResult(size, start, Attempt(size, start))
  {
    var st := AttemptState(size, start);
    Search.SolveCorrect(size, st);
    var r := Search.Solve(size, st);
    var prefix := Search.Prefix(size, st);
    assert prefix == [start];
    assert r.bestPath[..1] == [start];
    var p := r.bestPath;
    forall i | 0 < i < |p|
      ensures InBounds(size, p[i]) && CanMove(Classic, p[i - 1], p[i]) && p[i] !in p[..i]
    {
      assert Search.FreshStep(size, st.visited, p, i);
    }
    forall i, j | 0 <= i < j < |p|
      ensures p[i] != p[j]
    {
      assert p[i] in p[..j];
    }
  }

  /** Every attempt of the path search yields a good result from its start cell. */
  predicate GoodAttempts(size: Size, attempt: Coord -> Search.SolveResult, starts: seq<Coord>) {
    forall u :: 0 <= u < |starts| ==> GoodResult(size, starts[u], attempt(starts[u]))
  }

  lemma AttemptsGood(size: Size, starts: seq<Coord>)
    requires StartsCover(size, starts)
    ensures GoodAttempts(size, AttemptAt(size), starts)
  {
    forall u | 0 <= u < |starts|
      ensures GoodResult(size, starts[u], AttemptAt(size)(starts[u]))
    {
      AttemptPath(size, starts[u]);
    }
  }

  /**
   * The loop from attempt `t` stops after at most `MaxAttempts` attempts, and a path it finds is
   * the good result of its last attempt and is long enough.
   */
  lemma {:induction false} FindFromFound(size: Size, attempt: Coord -> Search.SolveResult, starts: seq<Coord>, maxNeed: int, t: nat)
    requires t <= MaxAttempts <= |starts| && GoodAttempts(size, attempt, starts)
    ensures var r := FindFrom(attempt, starts, maxNeed, t);
      r.Found? ==>
        && t < r.tries <= MaxAttempts && maxNeed <= |r.path|
        && GoodResult(size, starts[r.tries - 1], Search.SolveResult(r.path, |r.path|))
    decreases MaxAttempts - t
  {
    if t < MaxAttempts {
      FindFromFound(size, attempt, starts, maxNeed, t + 1);
    }
  }

  /** Every attempt the loop makes before the one that succeeds, or every attempt when none does, falls short. */
  lemma {:induction false} FindFromMisses(attempt: Coord -> Search.SolveResult, starts: seq<Coord>, maxNeed: int, t: nat)
    requires t <= MaxAttempts <= |starts|
    ensures var r := FindFrom(attempt, starts, maxNeed, t);
      forall u :: t <= u < (if r.Found? then r.tries - 1 else MaxAttempts) ==> attempt(starts[u]).bestLen < maxNeed
    decreases MaxAttempts - t
  {
    if t < MaxAttempts && attempt(starts[t]).bestLen < maxNeed {
      FindFromMisses(attempt, starts, maxNeed, t + 1);
    }
  }

  /**
   * The path search makes at most `MaxAttempts` attempts; a path it finds is a long enough jump
   * path from the start of its last attempt, and every attempt before that one, or every attempt
   * when it finds nothing, gives a shorter path.
   */
  lemma FindPathFacts(size: Size, starts: seq<Coord>, maxNeed: int)
    requires StartsCover(size, starts)
    ensures var r := FindPath(size, starts, maxNeed);
      && (r.Found? ==>
            && 1 <= r.tries <= MaxAttempts && maxNeed <= |r.path| && 1 <= |r.path| <= size * size
            && r.path[0] == starts[r.tries - 1] && JumpPath(size, r.path))
      && forall u :: 0 <= u < (if r.Found? then r.tries - 1 else MaxAttempts) ==>
            Attempt(size, starts[u]).bestLen < maxNeed
  {
    AttemptsGood(size, starts);
    FindFromFound(size, AttemptAt(size), starts, maxNeed, 0);
    FindFromMisses(AttemptAt(size), starts, maxNeed, 0);
    var r := FindPath(size, starts, maxNeed);
    forall u | 0 <= u < (if r.Found? then r.tries - 1 else MaxAttempts)
      ensures Attempt(size, starts[u]).bestLen < maxNeed
    {
      assert AttemptAt(size)(starts[u]).bestLen < maxNeed;
    }
  }

  /* ----- The board of a new level ----- */

  /** `n` cells, each a plain logo that is not preset. */
  function LogoBoard(n: nat): (cells: seq<Cell>)
    ensures |cells| == n && forall i :: 0 <= i < n ==> cells[i] == Cell(Full, Blank, false)
  {
    seq(n, _ => Cell(Full, Blank, false))
  }

  /** The reset: every cell a plain logo, no history, count 0, no last cell, counters and marks cleared. */
  function Reset(size: Size, p: Play): (r: Play)
    ensures Shaped(size, r)
  {
    p.(cells := LogoBoard(size * size), history := [], maxNumber := 0, last := None,
       allowed := {}, hint := None, hasStarted := false, undosUsed := 0, hintsUsed := 0)
  }

  /** The steps that index a cell of `path`. */
  predicate StepsOnPath(size: Size, path: seq<Coord>, steps: seq<int>) {
    forall i :: 0 <= i < |steps| ==> 1 <= steps[i] <= |path| && InBounds(size, path[steps[i] - 1])
  }

  /** The cells of `path` at the given steps, made iron one after the other. */
  function PlaceIron(size: Size, cells: seq<Cell>, path: seq<Coord>, steps: seq<int>): (r: seq<Cell>)
    requires |cells| == size * size && StepsOnPath(size, path, steps)
    ensures |r| == |cells|
  {
    if steps == [] then cells
    else
      var prev := PlaceIron(size, cells, path, steps[..|steps| - 1]);
      var c := path[steps[|steps| - 1] - 1];
      IndexRoundTrip(size, c);
      var i := IndexFromRowCol(size, c);
      prev[i := prev[i].(state := Iron, text := Blank)]
  }

  /** A prefix of listed steps still names cells of the path on the board. */
  lemma StepsOnPathPrefix(size: Size, path: seq<Coord>, steps: seq<int>, j: int)
    requires StepsOnPath(size, path, steps) && 0 <= j <= |steps|
    ensures StepsOnPath(size, path, steps[..j])
  {
  }

  /** Placing one more step of the list is placing the prefix, then making that step's cell iron. */
  lemma PlaceIronNext(size: Size, cells: seq<Cell>, path: seq<Coord>, steps: seq<int>, j: int)
    requires |cells| == size * size && StepsOnPath(size, path, steps) && 0 <= j < |steps|
    ensures StepsOnPath(size, path, steps[..j]) && StepsOnPath(size, path, steps[..j + 1]) && InBounds(size, path[steps[j] - 1])
    ensures var i := IndexFromRowCol(size, path[steps[j] - 1]);
      0 <= i < size * size &&
      var prev := PlaceIron(size, cells, path, steps[..j]);
      PlaceIron(size, cells, path, steps[..j + 1]) == prev[i := prev[i].(state := Iron, text := Blank)]
  {
    StepsOnPathPrefix(size, path, steps, j);
    StepsOnPathPrefix(size, path, steps, j + 1);
    var prefix := steps[..j + 1];
    assert prefix[..j] == steps[..j];
    IndexRoundTrip(size, path[steps[j] - 1]);
  }

  /**
   * What `generateLevelLayout` does after the reset, given the outcome of its path search: with
   * no iron steps the target is every cell; a failed search leaves the target as it was and
   * places no iron; a found path makes the listed steps iron and sets the target to the cells
   * that remain; then the allowed cells are marked.
   */
  function Finish(size: Size, mode: Mode, steps: seq<int>, search: PathSearch, q: Play): (r: Play)
    requires Shaped(size, q) && (search.Found? ==> StepsOnPath(size, search.path, steps))
    ensures Shaped(size, r)
  {
    if steps == [] then UpdateAllowed(size, mode, q.(targetToClear := size * size))
    else match search
      case NotFound => UpdateAllowed(size, mode, q)
      case Found(path, _) =>
        UpdateAllowed(size, mode, q.(cells := PlaceIron(size, q.cells, path, steps), targetToClear := size * size - |steps|))
  }

  /** The board `generateLevelLayout` leaves, given the outcome of its path search: the reset, then the rest. */
  function Layout(size: Size, mode: Mode, steps: seq<int>, search: PathSearch, p: Play): (r: Play)
    requires search.Found? ==> StepsOnPath(size, search.path, steps)
    ensures Shaped(size, r)
  {
    Finish(size, mode, steps, search, Reset(size, p))
  }

  /** Steps no larger than the length of a jump path name cells of that path on the board. */
  lemma StepsOnJumpPath(size: Size, path: seq<Coord>, steps: seq<int>)
    requires JumpPath(size, path) && steps != [] && SeqMax(steps) <= |path|
    requires forall i :: 0 <= i < |steps| ==> 1 <= steps[i]
    ensures StepsOnPath(size, path, steps)
  {
    forall i | 0 <= i < |steps|
      ensures steps[i] <= |path|
    {
      assert steps[i] in steps;
    }
  }

  /** A found path is long enough for every iron step of the level, and its cells lie on the board. */
  lemma StepsFit(size: Size, level: int, starts: seq<Coord>)
    requires StartsCover(size, starts) && IronSteps(level) != []
    ensures var s := FindPath(size, starts, SeqMax(IronSteps(level)));
      s.Found? ==> StepsOnPath(size, s.path, IronSteps(level))
  {
    var steps := IronSteps(level);
    var s := FindPath(size, starts, SeqMax(steps));
    FindPathFacts(size, starts, SeqMax(steps));
    IronStepsShape(level);
    if s.Found? {
      StepsOnJumpPath(size, s.path, steps);
    }
  }

  /** `generateLevelLayout(level)`: the path search only on a level with iron steps, then the layout. */
  function Generate(size: Size, mode: Mode, level: int, starts: seq<Coord>, p: Play): (r: Play)
    requires StartsCover(size, starts)
    ensures Shaped(size, r)
  {
    var steps := IronSteps(level);
    if steps == [] then Layout(size, mode, steps, NotFound, p)
    else
      StepsFit(size, level, starts);
      Layout(size, mode, steps, FindPath(size, starts, SeqMax(steps)), p)
  }

  /** A new level is the layout for the level's steps and, when there are steps, the outcome of the path search. */
  lemma GenerateIsLayout(size: Size, mode: Mode, level: int, starts: seq<Coord>, p: Play)
    requires StartsCover(size, starts)
    ensures var steps := IronSteps(level);
      var search := if steps == [] then NotFound else FindPath(size, starts, SeqMax(steps));
      && (search.Found? ==> StepsOnPath(size, search.path, steps))
      && Generate(size, mode, level, starts, p) == Layout(size, mode, steps, search, p)
  {
    if IronSteps(level) != [] {
      StepsFit(size, level, starts);
    }
  }

  /* ----- What generation guarantees ----- */

  /** The indices of the iron cells. */
  function IronCells(cells: seq<Cell>): set<int> {
    set i | 0 <= i < |cells| && cells[i].state == Iron
  }

  /** The indices of the cells of `path` at the given steps. */
  function StepCells(size: Size, path: seq<Coord>, steps: seq<int>): set<int>
    requires StepsOnPath(size, path, steps)
  {
    if steps == [] then {}
    else StepCells(size, path, steps[..|steps| - 1]) + {IndexFromRowCol(size, path[steps[|steps| - 1] - 1])}
  }

  /** Every step cell is a cell of the board. */
  lemma {:induction false} StepCellsOnBoard(size: Size, path: seq<Coord>, steps: seq<int>)
    requires StepsOnPath(size, path, steps)
    ensures forall x :: x in StepCells(size, path, steps) ==> 0 <= x < size * size
  {
    if steps != [] {
      StepCellsOnBoard(size, path, steps[..|steps| - 1]);
      IndexRoundTrip(size, path[steps[|steps| - 1] - 1]);
    }
  }

  /**
   * Placing iron changes nothing but the state and text of the step cells: they become iron,
   * every other cell is as before.
   */
  lemma {:induction false} PlaceIronCells(size: Size, cells: seq<Cell>, path: seq<Coord>, steps: seq<int>)
    requires |cells| == size * size && StepsOnPath(size, path, steps)
    ensures var r := PlaceIron(size, cells, path, steps);
      forall i :: 0 <= i < |cells| ==>
        if i in StepCells(size, path, steps) then r[i] == cells[i].(state := Iron, text := Blank) else r[i] == cells[i]
  {
    if steps != [] {
      PlaceIronCells(size, cells, path, steps[..|steps| - 1]);
      IndexRoundTrip(size, path[steps[|steps| - 1] - 1]);
    }
  }

  /** The cell of a step the list does not name is not among the step cells. */
  lemma {:induction false} StepCellsAvoid(size: Size, path: seq<Coord>, steps: seq<int>, m: int)
    requires JumpPath(size, path) && StepsOnPath(size, path, steps)
    requires 1 <= m <= |path| && forall i :: 0 <= i < |steps| ==> steps[i] != m
    ensures IndexFromRowCol(size, path[m - 1]) !in StepCells(size, path, steps)
  {
    if steps != [] {
      var init := steps[..|steps| - 1];
      var n := steps[|steps| - 1];
      assert forall i :: 0 <= i < |init| ==> init[i] == steps[i];
      StepCellsAvoid(size, path, init, m);
      if IndexFromRowCol(size, path[m - 1]) == IndexFromRowCol(size, path[n - 1]) {
        IndexInjective(size, path[m - 1], path[n - 1]);
        assert false;
      }
    }
  }

  /** Distinct steps of a jump path name distinct cells: there are exactly as many step cells as steps. */
  lemma {:induction false} StepCellsCount(size: Size, path: seq<Coord>, steps: seq<int>)
    requires JumpPath(size, path) && StepsOnPath(size, path, steps)
    requires forall i, j :: 0 <= i < j < |steps| ==> steps[i] != steps[j]
    ensures |StepCells(size, path, steps)| == |steps|
  {
    if steps != [] {
      var init := steps[..|steps| - 1];
      var n := steps[|steps| - 1];
      assert forall i :: 0 <= i < |init| ==> init[i] == steps[i];
      StepCellsCount(size, path, init);
      StepCellsAvoid(size, path, init, n);
    }
  }

  /** The layout without iron steps: every cell a logo, nothing iron, and the target is every cell. */
  lemma LayoutWithoutIron(size: Size, mode: Mode, search: PathSearch, p: Play)
    requires search.Found? ==> StepsOnPath(size, search.path, [])
    ensures var r := Layout(size, mode, [], search, p);
      && r.targetToClear == size * size && IronCells(r.cells) == {}
      && forall i :: 0 <= i < |r.cells| ==> r.cells[i].state == Full
  {
  }

  /** A level without iron steps: every cell a logo, nothing iron, and the target is every cell. */
  lemma GenerateWithoutIron(size: Size, mode: Mode, level: int, starts: seq<Coord>, p: Play)
    requires StartsCover(size, starts) && IronSteps(level) == []
    ensures var r := Generate(size, mode, level, starts, p);
      && r.targetToClear == size * size && IronCells(r.cells) == {}
      && forall i :: 0 <= i < |r.cells| ==> r.cells[i].state == Full
  {
    LayoutWithoutIron(size, mode, NotFound, p);
  }

  /** A failed path search places no iron and leaves the target as it was. */
  lemma GenerateFailure(size: Size, mode: Mode, level: int, starts: seq<Coord>, p: Play)
    requires StartsCover(size, starts) && IronSteps(level) != []
    requires FindPath(size, starts, SeqMax(IronSteps(level))).NotFound?
    ensures var r := Generate(size, mode, level, starts, p);
      && r.targetToClear == p.targetToClear && IronCells(r.cells) == {}
  {
    var steps := IronSteps(level);
    assert Generate(size, mode, level, starts, p) == Layout(size, mode, steps, NotFound, p);
  }

  /** Placing iron on a board without iron makes exactly the step cells iron and leaves the others as they were. */
  lemma IronOfPlaced(size: Size, cells: seq<Cell>, path: seq<Coord>, steps: seq<int>)
    requires |cells| == size * size && StepsOnPath(size, path, steps)
    requires forall i :: 0 <= i < |cells| ==> cells[i].state == Full
    ensures var r := PlaceIron(size, cells, path, steps);
      && IronCells(r) == StepCells(size, path, steps)
      && forall i :: 0 <= i < |r| && i !in IronCells(r) ==> r[i].state == Full
  {
    var r := PlaceIron(size, cells, path, steps);
    PlaceIronCells(size, cells, path, steps);
    StepCellsOnBoard(size, path, steps);
  }

  /** The iron a found path gets: exactly its step cells, one per step, and the target is the cells left. */
  lemma LayoutIron(size: Size, mode: Mode, steps: seq<int>, path: seq<Coord>, tries: nat, p: Play)
    requires steps != [] && JumpPath(size, path) && StepsOnPath(size, path, steps)
    requires forall i, j :: 0 <= i < j < |steps| ==> steps[i] != steps[j]
    ensures var r := Layout(size, mode, steps, Found(path, tries), p);
      && IronCells(r.cells) == StepCells(size, path, steps)
      && |IronCells(r.cells)| == |steps|
      && r.targetToClear == size * size - |IronCells(r.cells)|
      && forall i :: 0 <= i < |r.cells| && i !in IronCells(r.cells) ==> r.cells[i].state == Full
  {
    var q := Reset(size, p);
    IronOfPlaced(size, q.cells, path, steps);
    StepCellsCount(size, path, steps);
    var r := Layout(size, mode, steps, Found(path, tries), p);
    assert r.cells == PlaceIron(size, q.cells, path, steps);
    assert r.targetToClear == size * size - |steps|;
  }

  /**
   * A successful path search makes exactly the cells at the level's steps of the found path
   * iron, as many of them as there are steps, and sets the target to the cells left.
   */
  lemma GenerateSuccess(size: Size, mode: Mode, level: int, starts: seq<Coord>, p: Play)
    requires StartsCover(size, starts) && IronSteps(level) != []
    requires FindPath(size, starts, SeqMax(IronSteps(level))).Found?
    ensures var steps := IronSteps(level); var path := FindPath(size, starts, SeqMax(steps)).path;
      var r := Generate(size, mode, level, starts, p);
      && StepsOnPath(size, path, steps)
      && IronCells(r.cells) == StepCells(size, path, steps)
      && |IronCells(r.cells)| == |steps|
      && r.targetToClear == size * size - |IronCells(r.cells)|
      && forall i :: 0 <= i < |r.cells| && i !in IronCells(r.cells) ==> r.cells[i].state == Full
  {
    var steps := IronSteps(level);
    var s := FindPath(size, starts, SeqMax(steps));
    FindPathFacts(size, starts, SeqMax(steps));
    StepsFit(size, level, starts);
    IronStepsShape(level);
    assert Generate(size, mode, level, starts, p) == Layout(size, mode, steps, s, p);
    LayoutIron(size, mode, steps, s.path, s.tries, p);
  }

  /** Every cell of a layout shows a logo, plain or iron, and carries no preset value. */
  lemma LayoutCells(size: Size, mode: Mode, steps: seq<int>, search: PathSearch, p: Play)
    requires search.Found? ==> StepsOnPath(size, search.path, steps)
    ensures var r := Layout(size, mode, steps, search, p);
      forall i :: 0 <= i < |r.cells| ==>
        (r.cells[i].state == Full || r.cells[i].state == Iron) && r.cells[i].text == Blank && !r.cells[i].fixed
  {
    if steps != [] && search.Found? {
      PlaceIronCells(size, Reset(size, p).cells, search.path, steps);
    }
  }

  /** Every cell of a new level shows a logo, plain or iron, and carries no preset value. */
  lemma GeneratedCells(size: Size, mode: Mode, level: int, starts: seq<Coord>, p: Play)
    requires StartsCover(size, starts)
    ensures var r := Generate(size, mode, level, starts, p);
      forall i :: 0 <= i < |r.cells| ==>
        (r.cells[i].state == Full || r.cells[i].state == Iron) && r.cells[i].text == Blank && !r.cells[i].fixed
  {
    var steps := IronSteps(level);
    if steps == [] {
      LayoutCells(size, mode, steps, NotFound, p);
    } else {
      var s := FindPath(size, starts, SeqMax(steps));
      StepsFit(size, level, starts);
      assert Generate(size, mode, level, starts, p) == Layout(size, mode, steps, s, p);
      LayoutCells(size, mode, steps, s, p);
    }
  }

  /** A layout starts a fresh session: no history, count 0, no last cell, and the session invariant holds. */
  lemma LayoutFresh(size: Size, mode: Mode, steps: seq<int>, search: PathSearch, p: Play)
    requires search.Found? ==> StepsOnPath(size, search.path, steps)
    ensures var r := Layout(size, mode, steps, search, p);
      && r.history == [] && r.maxNumber == 0 && r.last == None && !r.hasStarted
      && r.undosUsed == 0 && r.hintsUsed == 0 && r.hint == None
      && Walk(size, mode, r)
  {
    LayoutCells(size, mode, steps, search, p);
  }

  /** A new level starts a fresh session: no history, count 0, no last cell, and the session invariant holds. */
  lemma GenerateStartsFresh(size: Size, mode: Mode, level: int, starts: seq<Coord>, p: Play)
    requires StartsCover(size, starts)
    ensures var r := Generate(size, mode, level, starts, p);
      && r.history == [] && r.maxNumber == 0 && r.last == None && !r.hasStarted
      && r.undosUsed == 0 && r.hintsUsed == 0 && r.hint == None
      && Walk(size, mode, r)
  {
    var steps := IronSteps(level);
    if steps == [] {
      LayoutFresh(size, mode, steps, NotFound, p);
    } else {
      var s := FindPath(size, starts, SeqMax(steps));
      StepsFit(size, level, starts);
      assert Generate(size, mode, level, starts, p) == Layout(size, mode, steps, s, p);
      LayoutFresh(size, mode, steps, s, p);
    }
  }
}
