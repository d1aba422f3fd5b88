// The backtracking search of `solveFromState` as functions of its state, and what it guarantees:
// the best path it reports starts with the given prefix and continues with classic jumps to
// cells that were free, never revisiting one.

module Search {
  import opened Grid
  import opened Moves
  import opened Warnsdorff
  import opened StateParser

  /**
   * The state the recursion works on: the `visited` matrix, the current `path` (one entry per
   * cell of the grid; entries at and after the current position are leftovers), and the best
   * length and path recorded so far.
   */
  datatype Search = Search(visited: seq<seq<bool>>, path: seq<Coord>, bestLen: int, bestPath: seq<Coord>)

  /** What a call of `backtrack` returns, with the state it leaves behind. */
  datatype Outcome = Outcome(found: bool, s: Search)

  datatype SolveResult = SolveResult(bestPath: seq<Coord>, bestLen: int)

  predicate Shaped(size: Size, s: Search) {
    IsBoard(size, s.visited) && |s.path| == size * size
  }

  /**
   * `backtrack(pos)`: record the path so far if it is the longest yet, stop with success at full
   * length, otherwise try the free classic jumps out of the last cell in ascending degree order.
   */
  function Backtrack(size: Size, pos: int, s: Search): (o: Outcome)
    requires Shaped(size, s) && 1 <= pos <= size * size
    ensures Shaped(size, o.s)
    decreases size * size - pos, 1, 0, 0
  {
    var s1 := if pos > s.bestLen then s.(bestLen := pos, bestPath := s.path[..pos]) else s;
    if pos == size * size then Outcome(true, s1)
    else
      SortedMovesFree(size, s1.visited, s1.path[pos - 1]);
      TryMoves(size, pos, SortedMoves(size, s1.visited, s1.path[pos - 1]), s1)
  }

  /** The moves out of `from` in the order the search tries them. */
  function SortedMoves(size: Size, visited: seq<seq<bool>>, from: Coord): seq<Candidate>
    requires IsBoard(size, visited)
  {
    SortByDegree(CandidatesOf(size, visited, from))
  }

  /** Every candidate lies on the board, is free and is one legal jump away from `from`. */
  predicate LegalMoves(size: Size, visited: seq<seq<bool>>, from: Coord, moves: seq<Candidate>)
    requires IsBoard(size, visited)
  {
    forall i :: 0 <= i < |moves| ==>
      InBounds(size, moves[i].cell) && Free(size, visited, moves[i].cell) && CanMove(Classic, from, moves[i].cell)
  }

  /** Every move the search tries is a classic jump to a free cell. */
  lemma SortedMovesFree(size: Size, visited: seq<seq<bool>>, from: Coord)
    requires IsBoard(size, visited)
    ensures LegalMoves(size, visited, from, SortedMoves(size, visited, from))
  {
    var candidates := CandidatesOf(size, visited, from);
    CandidatesOfExact(size, visited, from);
    SortByDegreeCorrect(candidates);
    assert forall i :: 0 <= i < |SortByDegree(candidates)| ==> SortByDegree(candidates)[i] in multiset(candidates);
  }

  /** The state after marking `c` and writing it at `pos`. */
  function Advance(size: Size, s: Search, pos: int, c: Coord): (r: Search)
    requires Shaped(size, s) && 0 <= pos < size * size && InBounds(size, c)
    ensures Shaped(size, r)
  {
    assert |s.visited[c.row]| == size;
    s.(visited := SetFlag(s.visited, c, true), path := s.path[pos := c])
  }

  /** The state after unmarking `c`. */
  function Retreat(size: Size, s: Search, c: Coord): (r: Search)
    requires Shaped(size, s) && InBounds(size, c)
    ensures Shaped(size, r)
  {
    assert |s.visited[c.row]| == size;
    s.(visited := SetFlag(s.visited, c, false))
  }

  /**
   * The loop over the sorted moves: mark the cell, extend the path, recurse; stop on success,
   * otherwise unmark the cell and try the next move.
   */
  function TryMoves(size: Size, pos: int, moves: seq<Candidate>, s: Search): (o: Outcome)
    requires Shaped(size, s) && 1 <= pos < size * size
    requires forall i :: 0 <= i < |moves| ==> InBounds(size, moves[i].cell)
    ensures Shaped(size, o.s)
    decreases size * size - pos, 0, |moves|, 0
  {
    if moves == [] then Outcome(false, s)
    else
      var c := moves[0].cell;
      var o := Backtrack(size, pos + 1, Advance(size, s, pos, c));
      if o.found then o
      else TryMoves(size, pos, moves[1..], Retreat(size, o.s, c))
  }

  /** One round of the loop over the moves: the first move, then the rest unless it succeeded. */
  lemma TryMovesFirst(size: Size, pos: int, moves: seq<Candidate>, s: Search)
    requires Shaped(size, s) && 1 <= pos < size * size && moves != []
    requires forall i :: 0 <= i < |moves| ==> InBounds(size, moves[i].cell)
    ensures var c := moves[0].cell;
      var o := Backtrack(size, pos + 1, Advance(size, s, pos, c));
      TryMoves(size, pos, moves, s) == if o.found then o else TryMoves(size, pos, moves[1..], Retreat(size, o.s, c))
  {
  }

  /** What the solver needs of its input: values 1..prefixK placed, and a visited matrix of the grid's size. */
  predicate SolverInput(size: Size, st: SequenceState) {
    && st.prefixK <= |st.positions| && st.prefixK <= size * size
    && IsBoard(size, st.visited)
    && forall j :: 0 <= j < st.prefixK ==> st.positions[j].Some?
  }

  /** The cells of values 1..prefixK, in order. */
  function Prefix(size: Size, st: SequenceState): (p: seq<Coord>)
    requires SolverInput(size, st)
    ensures |p| == st.prefixK && forall j :: 0 <= j < st.prefixK ==> p[j] == st.positions[j].value
  {
    seq(st.prefixK, j requires 0 <= j < st.prefixK => st.positions[j].value)
  }

  /** The state before the first call: the prefix copied into the path, the best so far the prefix itself. */
  function InitialSearch(size: Size, st: SequenceState): (s: Search)
    requires SolverInput(size, st)
    ensures Shaped(size, s)
  {
    Search(st.visited, Prefix(size, st) + seq(size * size - st.prefixK, _ => Coord(0, 0)), st.prefixK, Prefix(size, st))
  }

  /** `solveFromState`: nothing for an empty prefix, otherwise the best path of the search from the prefix. */
  function Solve(size: Size, st: SequenceState): SolveResult
    requires SolverInput(size, st)
  {
    if st.prefixK == 0 then SolveResult([], 0)
    else
      var o := Backtrack(size, st.prefixK, InitialSearch(size, st));
      SolveResult(o.s.bestPath, o.s.bestLen)
  }

  /* ----- What the search guarantees ----- */

  predicate AllInBounds(size: Size, cs: seq<Coord>) {
    forall i :: 0 <= i < |cs| ==> InBounds(size, cs[i])
  }

  /** The cells of `cs` marked on top of `b`. */
  function MarkAll(size: Size, b: seq<seq<bool>>, cs: seq<Coord>): (r: seq<seq<bool>>)
    requires IsBoard(size, b) && AllInBounds(size, cs)
    ensures IsBoard(size, r)
  {
    if cs == [] then b
    else
      var last := cs[|cs| - 1];
      var r := MarkAll(size, b, cs[..|cs| - 1]);
      assert InBounds(size, last) && |r[last.row]| == size;
      SetFlag(r, last, true)
  }

  /** A cell is marked after `MarkAll` exactly when it was marked before or is one of the cells. */
  lemma {:induction false} MarkAllCovers(size: Size, b: seq<seq<bool>>, cs: seq<Coord>, c: Coord)
    requires IsBoard(size, b) && AllInBounds(size, cs)
    requires InBounds(size, c)
    ensures MarkAll(size, b, cs)[c.row][c.col] <==> b[c.row][c.col] || c in cs
  {
    if cs != [] {
      var init := cs[..|cs| - 1];
      assert cs == init + [cs[|cs| - 1]];
      MarkAllCovers(size, b, init, c);
    }
  }

  /** Entry `i` of `p` is a classic jump from entry `i - 1` to a cell free on `base` and not earlier on `p`. */
  predicate FreshStep(size: Size, base: seq<seq<bool>>, p: seq<Coord>, i: int)
    requires IsBoard(size, base) && 0 <= i < |p|
  {
    && 0 < i
    && InBounds(size, p[i])
    && !base[p[i].row][p[i].col]
    && CanMove(Classic, p[i - 1], p[i])
    && p[i] !in p[..i]
  }

  /** `p` begins with `prefix` and every later entry is a fresh step. */
  predicate Extends(size: Size, base: seq<seq<bool>>, prefix: seq<Coord>, p: seq<Coord>)
    requires IsBoard(size, base)
  {
    && |prefix| <= |p|
    && p[..|prefix|] == prefix
    && forall i {:trigger FreshStep(size, base, p, i)} :: |prefix| <= i < |p| ==> FreshStep(size, base, p, i)
  }

  /** The recorded best is a path of its own length that extends the prefix. */
  predicate BestInv(size: Size, base: seq<seq<bool>>, prefix: seq<Coord>, bestLen: int, bestPath: seq<Coord>)
    requires IsBoard(size, base)
  {
    && |bestPath| == bestLen
    && |prefix| <= bestLen <= size * size
    && Extends(size, base, prefix, bestPath)
  }

  /**
   * The invariant of a call at position `pos`: the path up to `pos` extends the prefix, the
   * visited matrix is the input matrix plus the cells the search has added, the prefix cells are
   * marked, and the best so far is sound (and short of full length unless `pos` is).
   */
  predicate SearchInv(size: Size, base: seq<seq<bool>>, prefix: seq<Coord>, pos: int, s: Search) {
    && Shaped(size, s) && IsBoard(size, base)
    && 1 <= |prefix| <= pos <= size * size
    && (forall i :: 0 <= i < |prefix| ==> InBounds(size, prefix[i]) && base[prefix[i].row][prefix[i].col])
    && Extends(size, base, prefix, s.path[..pos])
    && AllInBounds(size, s.path[|prefix|..pos])
    && s.visited == MarkAll(size, base, s.path[|prefix|..pos])
    && BestInv(size, base, prefix, s.bestLen, s.bestPath)
    && (pos < size * size ==> s.bestLen < size * size)
  }

  /** Writing a fresh step at `pos` extends the path and marks one more cell. */
  lemma PathStep(size: Size, base: seq<seq<bool>>, prefix: seq<Coord>, pos: int, path: seq<Coord>, c: Coord)
    requires IsBoard(size, base) && 1 <= |prefix| <= pos < |path|
    requires Extends(size, base, prefix, path[..pos]) && AllInBounds(size, path[|prefix|..pos])
    requires InBounds(size, c) && !base[c.row][c.col] && CanMove(Classic, path[pos - 1], c) && c !in path[..pos]
    ensures Extends(size, base, prefix, path[pos := c][..pos + 1])
    ensures AllInBounds(size, path[pos := c][|prefix|..pos + 1])
    ensures MarkAll(size, base, path[pos := c][|prefix|..pos + 1]) == SetFlag(MarkAll(size, base, path[|prefix|..pos]), c, true)
  {
    var k := |prefix|;
    var cs := path[k..pos];
    assert path[pos := c][..pos + 1] == path[..pos] + [c];
    ExtendsSnoc(size, base, prefix, path[..pos], c);
    assert path[pos := c][k..pos + 1] == cs + [c];
    assert (cs + [c])[..|cs|] == cs;
  }

  /** Unmarking a cell that was free before it was marked gives back the same matrix. */
  lemma UnmarkRestores(size: Size, b: seq<seq<bool>>, c: Coord)
    requires IsBoard(size, b) && InBounds(size, c) && !b[c.row][c.col]
    ensures SetFlag(SetFlag(b, c, true), c, false) == b
  {
    var u := SetFlag(SetFlag(b, c, true), c, false);
    forall r | 0 <= r < size
      ensures u[r] == b[r]
    {
      assert forall k :: 0 <= k < size ==> u[r][k] == b[r][k];
    }
  }

  /** A fresh step appended to an extension of the prefix gives an extension. */
  lemma ExtendsSnoc(size: Size, base: seq<seq<bool>>, prefix: seq<Coord>, p: seq<Coord>, c: Coord)
    requires IsBoard(size, base) && Extends(size, base, prefix, p) && 1 <= |prefix|
    requires InBounds(size, c) && !base[c.row][c.col] && CanMove(Classic, p[|p| - 1], c) && c !in p
    ensures Extends(size, base, prefix, p + [c])
  {
    var q := p + [c];
    assert q[..|p|] == p;
    assert q[..|prefix|] == p[..|prefix|];
    forall i | |prefix| <= i < |q|
      ensures FreshStep(size, base, q, i)
    {
      if i < |p| {
        assert FreshStep(size, base, p, i);
        assert q[..i] == p[..i];
      }
    }
  }

  /** A cell free on the visited matrix is on neither the input matrix nor the path so far. */
  lemma FreeIsOffPath(size: Size, base: seq<seq<bool>>, prefix: seq<Coord>, pos: int, s: Search, c: Coord)
    requires SearchInv(size, base, prefix, pos, s)
    requires InBounds(size, c) && !s.visited[c.row][c.col]
    ensures !base[c.row][c.col] && c !in s.path[..pos]
  {
    var p := s.path[..pos];
    assert p == p[..|prefix|] + s.path[|prefix|..pos];
    MarkAllCovers(size, base, s.path[|prefix|..pos], c);
  }

  /** The state after marking `c` and writing it at `pos` satisfies the invariant one position further. */
  lemma AdvanceKeeps(size: Size, base: seq<seq<bool>>, prefix: seq<Coord>, pos: int, s: Search, c: Coord)
    requires SearchInv(size, base, prefix, pos, s) && pos < size * size
    requires Free(size, s.visited, c) && CanMove(Classic, s.path[pos - 1], c)
    ensures SearchInv(size, base, prefix, pos + 1,
      Advance(size, s, pos, c))
  {
    FreeIsOffPath(size, base, prefix, pos, s, c);
    PathStep(size, base, prefix, pos, s.path, c);
  }

  /** The state after a failed attempt and the unmarking satisfies the invariant at `pos` again. */
  lemma RetreatKeeps(size: Size, base: seq<seq<bool>>, prefix: seq<Coord>, pos: int, s: Search, c: Coord, t: Search)
    requires SearchInv(size, base, prefix, pos, s) && pos < size * size
    requires Free(size, s.visited, c)
    requires Shaped(size, t) && t.visited == SetFlag(s.visited, c, true)
    requires t.path[..pos + 1] == s.path[pos := c][..pos + 1]
    requires BestInv(size, base, prefix, t.bestLen, t.bestPath) && t.bestLen < size * size
    ensures Retreat(size, t, c).visited == s.visited
    ensures t.path[..pos] == s.path[..pos]
    ensures SearchInv(size, base, prefix, pos, Retreat(size, t, c))
  {
    UnmarkRestores(size, s.visited, c);
    assert t.path[..pos] == t.path[..pos + 1][..pos];
    assert s.path[pos := c][..pos + 1][..pos] == s.path[..pos];
    assert t.path[|prefix|..pos] == t.path[..pos][|prefix|..];
    assert s.path[|prefix|..pos] == s.path[..pos][|prefix|..];
  }

  /**
   * What a call at `pos` from state `s` guarantees about its outcome `o`: the best stays sound and
   * never shrinks, success means a full-length best, and a failure leaves the visited matrix and
   * the path up to `pos` as they were.
   */
  predicate Settled(size: Size, base: seq<seq<bool>>, prefix: seq<Coord>, pos: int, s: Search, o: Outcome)
    requires IsBoard(size, base) && Shaped(size, s) && Shaped(size, o.s) && 0 <= pos <= size * size
  {
    && BestInv(size, base, prefix, o.s.bestLen, o.s.bestPath)
    && s.bestLen <= o.s.bestLen
    && (o.found <==> o.s.bestLen == size * size)
    && (!o.found ==> o.s.visited == s.visited && o.s.path[..pos] == s.path[..pos])
  }

  /**
   * A call at `pos` keeps the best sound and never shortens it, reaches full length exactly when it
   * reports success, and on failure leaves the visited matrix and the path up to `pos` as it found them.
   */
  lemma {:induction false} BacktrackSound(size: Size, base: seq<seq<bool>>, prefix: seq<Coord>, pos: int, s: Search)
    requires SearchInv(size, base, prefix, pos, s)
    ensures Settled(size, base, prefix, pos, s, Backtrack(size, pos, s))
    ensures pos <= Backtrack(size, pos, s).s.bestLen
    decreases size * size - pos, 1, 0, 0
  {
    var s1 := if pos > s.bestLen then s.(bestLen := pos, bestPath := s.path[..pos]) else s;
    assert SearchInv(size, base, prefix, pos, s1);
    if pos < size * size {
      var moves := SortedMoves(size, s1.visited, s1.path[pos - 1]);
      SortedMovesFree(size, s1.visited, s1.path[pos - 1]);
      TryMovesSound(size, base, prefix, pos, moves, s1);
      assert Backtrack(size, pos, s) == TryMoves(size, pos, moves, s1);
    } else {
      assert Backtrack(size, pos, s) == Outcome(true, s1);
    }
  }

  lemma {:induction false} TryMovesSound(size: Size, base: seq<seq<bool>>, prefix: seq<Coord>, pos: int, moves: seq<Candidate>, s: Search)
    requires SearchInv(size, base, prefix, pos, s) && pos < size * size
    requires LegalMoves(size, s.visited, s.path[pos - 1], moves)
    ensures Settled(size, base, prefix, pos, s, TryMoves(size, pos, moves, s))
    decreases size * size - pos, 0, |moves|, 1
  {
    if moves != [] {
      var c := moves[0].cell;
      var s1 := Advance(size, s, pos, c);
      AdvanceKeeps(size, base, prefix, pos, s, c);
      BacktrackSound(size, base, prefix, pos + 1, s1);
      if !Backtrack(size, pos + 1, s1).found {
        AfterFailure(size, base, prefix, pos, moves, s);
      }
    }
  }

  /** After the first move failed and was unmarked, the remaining moves are tried from the restored state. */
  lemma {:induction false} AfterFailure(size: Size, base: seq<seq<bool>>, prefix: seq<Coord>, pos: int, moves: seq<Candidate>, s: Search)
    requires SearchInv(size, base, prefix, pos, s) && pos < size * size && moves != []
    requires LegalMoves(size, s.visited, s.path[pos - 1], moves)
    requires var s1 := Advance(size, s, pos, moves[0].cell);
      && SearchInv(size, base, prefix, pos + 1, s1)
      && Settled(size, base, prefix, pos + 1, s1, Backtrack(size, pos + 1, s1))
      && !Backtrack(size, pos + 1, s1).found
    ensures Settled(size, base, prefix, pos, s, TryMoves(size, pos, moves, s))
    decreases size * size - pos, 0, |moves|, 0
  {
    var c := moves[0].cell;
    var s1 := Advance(size, s, pos, c);
    var t := Backtrack(size, pos + 1, s1).s;
    assert t.path[..pos + 1] == s1.path[..pos + 1];
    RetreatKeeps(size, base, prefix, pos, s, c, t);
    var s2 := Retreat(size, t, c);
    assert s2.path[pos - 1] == s.path[pos - 1] by {
      assert s2.path[..pos][pos - 1] == s.path[..pos][pos - 1];
    }
    TryMovesSound(size, base, prefix, pos, moves[1..], s2);
    assert TryMoves(size, pos, moves, s) == TryMoves(size, pos, moves[1..], s2);
  }


  /**
   * `solveFromState` on a prefix whose cells are on the board and marked: the result is a path of
   * its own length; for an empty prefix it is empty, otherwise it is at least as long as the
   * prefix, at most the board, begins with the prefix and continues with fresh classic jumps.
   */
  lemma SolveCorrect(size: Size, st: SequenceState)
    requires SolverInput(size, st)
    requires forall j :: 0 <= j < st.prefixK ==>
      InBounds(size, st.positions[j].value) && st.visited[st.positions[j].value.row][st.positions[j].value.col]
    ensures var r := Solve(size, st);
      && |r.bestPath| == r.bestLen
      && (st.prefixK == 0 ==> r == SolveResult([], 0))
      && (st.prefixK > 0 ==>
            && st.prefixK <= r.bestLen <= size * size
            && Extends(size, st.visited, Prefix(size, st), r.bestPath))
  {
    if st.prefixK > 0 {
      var prefix := Prefix(size, st);
      var s := InitialSearch(size, st);
      assert s.path[..st.prefixK] == prefix;
      assert s.path[st.prefixK..st.prefixK] == [];
      assert SearchInv(size, st.visited, prefix, st.prefixK, s);
      BacktrackSound(size, st.visited, prefix, st.prefixK, s);
    }
  }
}
