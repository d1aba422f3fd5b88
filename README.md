# yawp — a verified model of the puzzle engine

yawp is a browser puzzle played on a square grid. A sequence of cells is visited so that each
cell is one jump away from the one before: three cells orthogonally, or two cells diagonally. In
easy mode, jumps of two cells orthogonally and knight moves are allowed as well. The repository holds two builds:

- `yawp_v2.js` is the removal variant. Every cell starts with a logo, and a click removes the logo of
  a cell that is one legal jump away from the last removed cell. Later levels add *iron* logos,
  which cannot be removed. The generator places them on a jump path that the Warnsdorff-ordered
  backtracking solver finds from a random start cell. This build also has an undo stack,
  a least-degree hint, and a correction routine. The correction parses a numbered board into
  its longest legal prefix, then rolls the board back to that prefix or hints the next move.
- `yawp.js` is the classic build. It is a 9x9 grid where the numbers 1..81 are written one per
  click, each a classic jump from the one before. It has undo, clear and hint buttons, a timer,
  and a stored best time.

The model has one Dafny module per part of the engine:

| module | file | what it holds |
|---|---|---|
| `Grid` | `grid.dfy` | coordinates, row-major indices, cells, `visited` matrices |
| `Moves` | `moves.dfy` | `canMove` for both modes and the table `moveDeltas` |
| `TimeFormat` | `time_format.dfy` | the `mm:ss` clock text (`formatSeconds`, and `formatTime` of the classic build) |
| `StateParser` | `state_parser.dfy` | `parseCurrentStateAllowPrefix`: the function and the row-by-row scan method |
| `Warnsdorff` | `warnsdorff.dfy` | `degree`, the solver's move list and its stable sort by degree |
| `Search` | `search.dfy` | `backtrack` and `solveFromState` as functions, with their soundness proof |
| `Solver` | `solver.dfy` | the class `SearchRun`: `backtrack` over a mutable matrix and path array |
| `SessionRules` | `session_rules.dfy` | the removal variant's session as values: clear, undo, allowed cells, hint, correction |
| `LevelGenerator` | `level_generator.dfy` | `generateLevelLayout` as functions: the iron table, the attempt loop, the layout |
| `Session` | `session.dfy` | the class `Session`, whose methods run those operations on mutable state |
| `ClassicGame` | `classic_game.dfy` | the classic build: the handlers as functions, their invariant, and the class `Game` |

Each state-changing method is proved against a specification function on a snapshot of the state. The method's
postcondition is `Snapshot() == Spec(old(Snapshot()))`. The properties of the game are lemmas
about those functions: round trips, preserved invariants, and exact characterisations.

Some behaviours of the code are easy to miss; the model follows the code:

- The solver and both hints enumerate the eight classic offsets in both modes. In easy
  mode a hint therefore never suggests one of the extra easy-only jumps, although `canMove`
  accepts them (`SessionRules.HintCandidatesAreAllowed` states both directions only for classic mode
  or before the first clear).
- When the correction routine cannot parse the board, it returns without changing anything.
- When level generation fails, no iron is placed and `targetToClear` keeps its previous value.
- In the classic build, the guard at `yawp.js:87` reduces to "the cell shows a number", and it is modelled as that.

## Model

| member | source | states |
|---|---|---|
| Grid.IndexRoundTrip | yawp_v2.js:502-508 | every in-bounds cell has an index below `size*size` that decodes back to the same cell |
| Grid.CoordRoundTrip | yawp_v2.js:502-508 | every board index decodes to an in-bounds cell that encodes back to the index |
| Grid.IndexInjective | yawp_v2.js:502-504 | two in-bounds cells with the same index are the same cell |
| Moves.ClassicMovesAreDeltas | yawp_v2.js:741-763 | in classic mode a move is legal exactly when one of the eight `moveDeltas` makes it |
| Moves.EasyExtendsClassic | yawp_v2.js:741-763 | easy mode allows exactly the classic jumps plus orthogonal jumps of 2 and knight moves |
| Moves.CanMoveSymmetric | yawp_v2.js:741-763 | a move is legal exactly when the move back is legal, in both modes |
| Moves.CanMoveNoSelfJump | yawp_v2.js:741-763 | no mode allows a move onto the same cell |
| Moves.CanMoveDependsOnDistance | yawp_v2.js:741-763 | legality depends only on the absolute row and column distances |
| Moves.DeltaStepIsLegal | yawp_v2.js:485-494 | every entry of the delta table is a legal move in both modes |
| Moves.DeltasDistinctAndSymmetric | yawp_v2.js:485-494 | the table lists eight distinct offsets and is closed under reversal |
| TimeFormat.FormatSecondsRoundTrip | yawp_v2.js:670-674 | reading the `mm:ss` text back (minutes times 60 plus seconds) gives the seconds it was made from |
| TimeFormat.FormatSecondsShape | yawp_v2.js:670-674 | below 100 minutes the text is five characters: two digits, a colon, two digits |
| TimeFormat.DecimalRoundTrip | yawp_v2.js:671-672 | the decimal digits of `String(n)` read back to `n` |
| TimeFormat.PaddedNumber | yawp.js:37-38 | `formatTime`, the same computation as `formatSeconds`: each `padStart(2, "0")` field keeps the number's value and has exactly two digits below 100 |
| StateParser.ParseCurrentStateAllowPrefix | yawp_v2.js:874-947 | the scan, the prefix walk and the visited matrix compute exactly the parse function's result |
| StateParser.ParseSucceedsIff | yawp_v2.js:880-916 | the parse succeeds exactly when every cell is blank or a new in-range number and some cell holds 1 |
| StateParser.ParseFailsAtFirstBadCell | yawp_v2.js:880-903 | a malformed, out-of-range or repeated number fails the parse with the diagnostic of the first such cell in row-major order |
| StateParser.ParseFailsWithoutOne | yawp_v2.js:907-916 | without a 1 on a well-formed board, the parse fails as a grid without 1, or as an empty grid when no player number exists |
| StateParser.ParseBounds | yawp_v2.js:880-931 | on success every cell is blank or in range, and `1 <= prefixK <= currentMax <= size*size` |
| StateParser.ParsePositions | yawp_v2.js:880-903 | on success `positions[v-1]` is exactly the cell that holds `v` |
| StateParser.ParseCurrentMax | yawp_v2.js:895-907 | `currentMax` is the largest non-preset number, or 1 when that is smaller |
| StateParser.ParsePrefix | yawp_v2.js:918-931 | `prefixK` is the longest prefix of placed values, each a legal move from its predecessor, stopping at the first break |
| StateParser.ParseVisited | yawp_v2.js:933-939 | `visited` is true exactly at the cells that hold one of `1..prefixK` |
| StateParser.ScanFacts | yawp_v2.js:880-903 | the scan of the first `n` cells fails exactly at the first bad one, and otherwise keeps counts, positions and maximum exact |
| StateParser.PrefixFromFacts | yawp_v2.js:918-931 | the prefix walk stops at the first missing value or illegal move |
| Warnsdorff.Degree | yawp_v2.js:949-959 | the counting loop returns the number of free cells that are one classic jump away |
| Warnsdorff.CollectMoves | yawp_v2.js:994-1002 | the solver's move list, built one delta at a time, equals the candidate function |
| Warnsdorff.CandidatesOfExact | yawp_v2.js:994-1002 | the move list holds exactly one candidate per free classic jump target, with its own degree |
| Warnsdorff.DegreeAtMostEight | yawp_v2.js:949-959 | a cell has at most eight onward moves |
| Warnsdorff.MarkingLowersDegree | yawp_v2.js:949-959 | marking a cell visited never raises any cell's degree |
| Warnsdorff.SortByDegreeCorrect | yawp_v2.js:1004 | the sort is ascending by degree, a permutation, and stable: moves of equal degree keep their order |
| Search.SortedMovesFree | yawp_v2.js:994-1004 | every move the search tries is a free cell a classic jump away |
| Search.BacktrackSound | yawp_v2.js:984-1014 | a call keeps the best path a legal extension of the prefix, never shortens it, and reports success exactly at full length |
| Search.TryMovesSound | yawp_v2.js:1006-1013 | the loop over the sorted moves keeps the same guarantee |
| Search.UnmarkRestores | yawp_v2.js:1007-1010 | unmarking a cell that was free before it was marked gives back the same matrix |
| Search.SolveCorrect | yawp_v2.js:961-1022 | `solveFromState` returns nothing for an empty prefix; otherwise a path of its own length, between `prefixK` and `size*size`, extending the prefix with fresh classic jumps |
| Solver.SolveFromState | yawp_v2.js:961-1022 | the array-based search returns exactly the search function's best path and length |
| Solver.CopyMatrix | yawp_v2.js:963-971 | the cell-by-cell copy equals the input matrix |
| LevelGenerator.IronStepsShape | yawp_v2.js:430-438 | every level's iron steps are increasing and lie between 1 and 22 |
| LevelGenerator.AttemptPath | yawp_v2.js:1426-1435 | every attempt yields a jump path from its start cell, no longer than the board |
| LevelGenerator.FindPathFacts | yawp_v2.js:1421-1440 | at most 300 attempts; a found path is a long enough jump path from its attempt's start, and every earlier attempt fell short |
| LevelGenerator.StepsFit | yawp_v2.js:1418-1453 | a found path is long enough for every iron step of the level, and its cells lie on the board |
| LevelGenerator.GenerateWithoutIron | yawp_v2.js:1408-1416 | a level without iron steps has every cell a logo, nothing iron, and every cell to clear |
| LevelGenerator.GenerateFailure | yawp_v2.js:1442-1448 | a failed path search places no iron and leaves the target as it was |
| LevelGenerator.GenerateSuccess | yawp_v2.js:1450-1460 | exactly the cells at the level's steps of the found path are iron, one per step, and the target is the remaining cells |
| LevelGenerator.GeneratedCells | yawp_v2.js:1389-1395 | every cell of a new level shows a logo, plain or iron, and carries no preset value |
| LevelGenerator.GenerateStartsFresh | yawp_v2.js:1383-1405 | a new level starts with no history, count 0, no last cell, no counters or hint, and the session invariant holds |
| LevelGenerator.StepCellsCount | yawp_v2.js:1451-1458 | distinct steps of a jump path name distinct cells, so `ironCount` equals the number of iron cells |
| SessionRules.PlaceRejectedIffNotAllowed | yawp_v2.js:821-838 | a click is refused exactly on a cell that `updateAllowedCells` does not mark, and a refused click changes nothing |
| SessionRules.PlaceClears | yawp_v2.js:821-871 | an accepted click empties the cell, pushes it, counts it, makes it the last cell and starts play; it wins exactly at the target count; a plain clear re-marks the allowed cells and a win clears every mark; the target and the counters are unchanged |
| SessionRules.PlaceKeepsWalk | yawp_v2.js:821-871 | a click keeps the session invariant: the emptied cells are exactly the distinct history cells, each a legal move from the one before |
| SessionRules.UndoKeepsWalk | yawp_v2.js:1133-1167 | an undo keeps the session invariant |
| SessionRules.PlaceThenUndo | yawp_v2.js:1133-1167 | undo exactly inverts an accepted click: cells, history, count, last cell, target and allowed marks come back |
| SessionRules.UndoRefills | yawp_v2.js:1133-1167 | an undo refills the newest cell, pops it and makes its predecessor, or null, the last cell |
| SessionRules.UndoThenPlace | yawp_v2.js:1133-1167 | clicking the cell an undo refilled is accepted and restores cells, history, count and last cell |
| SessionRules.HintCandidatesAreAllowed | yawp_v2.js:1176-1191 | every hint candidate is an allowed cell, and in classic mode or before play every allowed cell is a candidate |
| SessionRules.HintV2Marks | yawp_v2.js:1174-1227 | with no candidate nothing is marked; otherwise one candidate is hinted and exactly the others are marked allowed |
| SessionRules.HintV2IsFirstLeastDegree | yawp_v2.js:1199-1220 | once play has begun, the hint is the first candidate of least `degreeFrom` |
| SessionRules.HintIsPlaceable | yawp_v2.js:1174-1227 | under the session invariant the hinted cell can always be cleared |
| SessionRules.FirstMinIsFirstLeast | yawp_v2.js:1211-1220 | the strict-less scan keeps the first of the least values |
| SessionRules.DeltaTargetsUpToExact | yawp_v2.js:1183-1190 | the delta scan lists exactly the in-bounds logo cells one delta away that `canMove` accepts |
| SessionRules.CorrectionRollsBack | yawp_v2.js:1053-1082 | when the sequence breaks, exactly the non-preset numbers above `prefixK` are blanked, the count becomes `prefixK`, the cell of `prefixK` becomes the last cell, and exactly the cells allowed from there are marked; history, target, `hasStarted` and counters are unchanged |
| SessionRules.CorrectionHintIsFirstLeastDegree | yawp_v2.js:1084-1131 | otherwise the count becomes `prefixK` and its cell the last cell, the cells are untouched, the hint is the first candidate of least `degree` on the parsed matrix, and the other candidates are marked; history, target, `hasStarted` and counters are unchanged |
| SessionRules.CorrectionInertOnLogoBoard | yawp_v2.js:1053-1055 | on a board of logos without text the parse fails and the correction changes nothing |
| Session.SearchPath | yawp_v2.js:1421-1440 | the attempt loop returns exactly the path-search function's result |
| Session.DegreeFromCell | yawp_v2.js:1199-1209 | the counting loop of `degreeFrom` equals its specification |
| Session.LeastDegreeCell | yawp_v2.js:1211-1220 | the loop returns the candidate at the first minimum of the degrees |
| Session.LeastDegreeMove | yawp_v2.js:1111-1119 | the correction's loop returns the move at the first minimum of the solver's degrees |
| Session.MarkCandidates | yawp_v2.js:1222 | the marked cells are exactly the candidates |
| Session.MarkMoves | yawp_v2.js:1121-1123 | the correction marks exactly the indices of its candidate moves |
| Session.ResetCells | yawp_v2.js:1390-1395 | every cell becomes a plain logo that is not preset |
| Session.PlaceIronSteps | yawp_v2.js:1451-1458 | the loop makes each step's cell iron in turn, and counts the steps |
| Session.ClearNumbersAbove | yawp_v2.js:1057-1070 | the row-by-row pass blanks exactly the non-preset numbers above `k` |
| Session.Session.constructor | yawp_v2.js:1304-1352 | the grid as `rebuildGrid` leaves it before a level is laid out: every cell empty and not preset, nothing cleared, no last cell, and the target 0 of line 472 |
| Session.Session.AllowedScan | yawp_v2.js:770-790 | the scan marks exactly the allowed cells and reports whether any is marked |
| Session.Session.UpdateAllowedCells | yawp_v2.js:770-807 | the marks become the allowed cells, and the result is the blocked status |
| Session.Session.PlaceNextNumber | yawp_v2.js:821-871 | the new state and the outcome (refused, cleared, won) are those of the clear function |
| Session.Session.UndoLastMove | yawp_v2.js:1133-1167 | the new state is that of the undo function |
| Session.Session.HintCandidateList | yawp_v2.js:1176-1191 | the candidate list equals the hint candidates |
| Session.Session.SuggestHintMoveV2 | yawp_v2.js:1174-1227 | the new state is that of the hint function |
| Session.Session.HintButton | yawp_v2.js:1229-1232 | one more hint counted, then the hint |
| Session.Session.CorrectionMoves | yawp_v2.js:1089-1101 | the candidate loop equals the correction's candidate function |
| Session.Session.SuggestLocalCorrectionOrMove | yawp_v2.js:1053-1131 | the new state is that of the correction function |
| Session.Session.ResetLevel | yawp_v2.js:1383-1405 | the state after the reset that opens a level |
| Session.Session.GenerateLevelLayout | yawp_v2.js:1383-1464 | the new state is that of the generation function for the given start cells |
| ClassicGame.AllowedIsClassicJump | yawp.js:124-147 | once a number is down, the marked cells are exactly the empty cells a classic `canMove` jump from the last cell |
| ClassicGame.ComputeStopsWhenBlocked | yawp.js:124-153 | `computeAllowed` changes only the marks and the timer, and stops the timer exactly when nothing is marked and 0 < count < 81 |
| ClassicGame.ClickAcceptedIff | yawp.js:86-116 | a click changes the game exactly on an empty cell that is the first number or a classic jump from the last; it writes the next number there, pushes it and makes the cell the last one |
| ClassicGame.ClickKeepsNumbered | yawp.js:86-122 | a click keeps the invariant: count is the history length, entry j shows j+1 at its cell, entries chain by classic jumps, marks match |
| ClassicGame.InitialNumbered | yawp.js:71-83 | the empty grid keeps the invariant |
| ClassicGame.UndoKeepsNumbered | yawp.js:157-173 | the undo button keeps the invariant |
| ClassicGame.UndoInvertsClick | yawp.js:157-173 | undo exactly inverts every accepted click after the first: board, history, count, last cell and marks come back |
| ClassicGame.FirstClickStays | yawp.js:158 | the first number cannot be undone |
| ClassicGame.UndoThenClick | yawp.js:157-173 | clicking the cell an undo emptied is accepted and restores board, history, count, last cell and marks |
| ClassicGame.ClearNumbered | yawp.js:177-188 | the clear button empties every cell, history, count and mark, and keeps the invariant |
| ClassicGame.WinFillsBoard | yawp.js:117-121 | when the 81st number is written every cell shows a number |
| ClassicGame.HintMarksFirstAllowed | yawp.js:192-198 | the hint marks the first allowed cell in page order, or nothing when none is allowed, and changes nothing else |
| ClassicGame.BestAfter | yawp.js:61-67 | the best time becomes the new time when there is none, otherwise the smaller of the two |
| ClassicGame.BestIsLeast | yawp.js:61-67 | over a run of finished games the best time is one of the times (or the stored one) and no larger than any |
| ClassicGame.JumpTargetList | yawp.js:129-145 | the offset loop lists exactly the target function's cells |
| ClassicGame.FirstAllowedCell | yawp.js:193-195 | the filter returns the first marked cell in page order |
| ClassicGame.Game.constructor | yawp.js:71-83 | an empty grid with the stored best time |
| ClassicGame.Game.ComputeAllowed | yawp.js:124-153 | the new state is that of the `computeAllowed` function |
| ClassicGame.Game.HandleCellClick | yawp.js:86-122 | the new state is that of the click function |
| ClassicGame.Game.CheckAndUpdateBestTime | yawp.js:61-67 | only the best time changes, to the best after the elapsed seconds |
| ClassicGame.Game.UndoButton | yawp.js:157-173 | the new state is that of the undo function |
| ClassicGame.Game.ClearButton | yawp.js:177-188 | the new state is that of the clear function |
| ClassicGame.Game.HintButton | yawp.js:192-198 | the new state is that of the hint function |

## Left out

- The page itself is not modelled: the DOM, CSS classes other than the allowed and hint marks, status messages, toasts, vibration, audio, confetti and the victory overlay.
- `localStorage` is not modelled. The classic best time is loaded as a constructor parameter and updated in a field. The removal variant's per-level best statistics and unlocked level are not modelled.
- Timers are not modelled as clocks. In the classic build the elapsed seconds are a field, the interval tick is not modelled, and starting and stopping the timer is a `running` flag.
- The removal variant's timer is not modelled beyond `hasStarted`: the `resetTimer` when a level is laid out (`yawp_v2.js:1405`), the `resetTimer`/`startTimer` on the first clear (`yawp_v2.js:842-843`) and the `stopTimer` on a win (`yawp_v2.js:859`) have no counterpart. Only `hasStarted`, set by the first clear and cleared by the level reset, is modelled.
- `Math.random()` is replaced by the `starts` parameter of generation: one start cell per attempt, supplied by the caller.
- The game mode is fixed for the life of a `Session`. The source's mode selector changes the global `gameMode` that `canMove` reads and then lays out the level again (`yawp_v2.js:131-134`). A mode change is modelled only as a new `Session` whose level is generated afresh.
- Cell text is modelled by what `parseInt` makes of it (blank, a number, or not a number). Whitespace trimming and the exact text are not modelled.
- `solveBtn`/`applySolution`, the direction buttons, swipes, `highlightHighest`, the remaining badge, the unreachable marks and the level select are outside the modelled core.
- The remaining badge's number is not modelled as cell text. `renderRemainingBadge` (`yawp_v2.js:542-573`) appends a badge showing `String(remaining)` inside the active cell, which is the cell just cleared, so in the page that cell's `textContent` is a number. The model makes a cleared cell blank, and the session invariant `SessionRules.Walk` assumes that no cell carries text. With the badge, a board with one logo left would parse with `prefixK` 1, and the correction would hint from the active cell instead of doing nothing. `suggestLocalCorrectionOrMove` has no caller in `yawp_v2.js`, so play is unaffected.
- The cells of the removal variant and the solver's matrix are values reassigned in fields, so sharing of the cells between DOM nodes and arrays is not modelled. Only the solver's path stays an array.
- LevelGenerator.FindPath: the attempt rule is passed as a function parameter (the solver's result per start cell), so the 300-attempt loop is stated for any attempt rule and then used with the solver.
- Session.Session.PlaceNextNumber: the method's postcondition is the clear function. The session invariant that it keeps is proved as a lemma (SessionRules.PlaceKeepsWalk) and is not carried in the class invariant. The correction changes the count and the last cell without touching `moveHistory`, so it does not keep that invariant.
- ClassicGame.Game.HintButton: the hint mark accumulates across presses, as in the source; nothing removes it except the clear button.
