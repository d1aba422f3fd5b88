// `solveFromState` as the source runs it: a copied visited matrix and a path array that the
// nested `backtrack` closure marks, extends, unmarks and records the best of, in place.

module Solver {
  import opened Grid
  import opened Warnsdorff
  import opened StateParser
  import Search

  /** The variables `backtrack` shares with `solveFromState`: the matrix, the path and the best so far. */
  class SearchRun {
    const size: Size
    var visited: seq<seq<bool>>
    const path: array<Coord>
    var bestLen: int
    var bestPath: seq<Coord>

    ghost predicate Valid()
      reads this
    {
      IsBoard(size, visited) && path.Length == size * size
    }

    /** The run as a value of the search specification. */
    ghost function State(): Search.Search
      reads this, path
    {
      Search.Search(visited, path[..], bestLen, bestPath)
    }

    /** Copies the input matrix cell by cell and the prefix cells into the path and into the best path. */
    constructor (size: Size, st: SequenceState)
      requires Search.SolverInput(size, st)
      ensures Valid() && fresh(path)
      ensures State() == Search.InitialSearch(size, st)
    {
      this.size := size;
      path := new Coord[size * size](_ => Coord(0, 0));
      new;
      visited := CopyMatrix(size, st.visited);
      for n := 0 to st.prefixK
        modifies path
        invariant forall j :: 0 <= j < n ==> path[j] == st.positions[j].value
        invariant forall j :: n <= j < path.Length ==> path[j] == Coord(0, 0)
      {
        path[n] := st.positions[n].value;
      }
      bestLen := st.prefixK;
      bestPath := [];
      ghost var copied := visited;
      for i := 0 to st.prefixK
        modifies this
        invariant visited == copied
        invariant bestLen == st.prefixK && bestPath == Search.Prefix(size, st)[..i]
      {
        bestPath := bestPath + [st.positions[i].value];
      }
      assert path[..] == Search.InitialSearch(size, st).path;
      assert bestPath == Search.Prefix(size, st);
    }

    /**
     * `backtrack(pos)`: the same outcome and the same final state (matrix, path, best) as the
     * search specification from the state it starts in.
     */
    method Backtrack(pos: int) returns (found: bool)
      requires Valid() && 1 <= pos <= size * size
      modifies this, path
      ensures Valid()
      ensures var o := Search.Backtrack(size, pos, old(State()));
        found == o.found && State() == o.s
      decreases size * size - pos, 2
    {
      if pos > bestLen {
        bestLen := pos;
        bestPath := path[..pos];
      }
      if pos == size * size {
        return true;
      }
      var prev := path[pos - 1];
      var candidates := CollectMoves(size, visited, prev);
      var moves := SortByDegree(candidates);
      Search.SortedMovesFree(size, visited, prev);
      assert Search.Backtrack(size, pos, old(State())) == Search.TryMoves(size, pos, moves, State());
      found := TryAll(pos, moves);
    }

    /** The loop over the sorted moves: stop at the first that succeeds. */
    method TryAll(pos: int, moves: seq<Candidate>) returns (found: bool)
      requires Valid() && 1 <= pos < size * size
      requires forall i :: 0 <= i < |moves| ==> InBounds(size, moves[i].cell)
      modifies this, path
      ensures Valid()
      ensures var o := Search.TryMoves(size, pos, moves, old(State()));
        found == o.found && State() == o.s
      decreases size * size - pos, 1
    {
      ghost var start := State();
      var j := 0;
      while j < |moves|
        invariant 0 <= j <= |moves|
        invariant Valid()
        invariant Search.TryMoves(size, pos, moves[j..], State()) == Search.TryMoves(size, pos, moves, start)
      {
        ghost var s := State();
        var c := moves[j].cell;
        Search.TryMovesFirst(size, pos, moves[j..], s);
        assert moves[j..][0] == moves[j] && moves[j..][1..] == moves[j + 1..];
        ghost var o := Search.Backtrack(size, pos + 1, Search.Advance(size, s, pos, c));
        found := TryMove(pos, c);
        if found {
          assert Search.TryMoves(size, pos, moves[j..], s) == o;
          return;
        }
        assert Search.TryMoves(size, pos, moves[j..], s) == Search.TryMoves(size, pos, moves[j + 1..], State());
        assert Search.TryMoves(size, pos, moves[j + 1..], State()) == Search.TryMoves(size, pos, moves, start);
        j := j + 1;
      }
      return false;
    }

    /** One move of the loop: mark the cell, write it at `pos`, recurse, and unmark it unless that succeeded. */
    method TryMove(pos: int, c: Coord) returns (found: bool)
      requires Valid() && 1 <= pos < size * size && InBounds(size, c)
      modifies this, path
      ensures Valid()
      ensures var s := old(State());
        var o := Search.Backtrack(size, pos + 1, Search.Advance(size, s, pos, c));
        found == o.found && State() == if found then o.s else Search.Retreat(size, o.s, c)
      decreases size * size - pos, 0
    {
      ghost var s := State();
      visited := SetFlag(visited, c, true);
      path[pos] := c;
      assert path[..] == s.path[pos := c];
      ghost var marked := Search.Advance(size, s, pos, c);
      assert State() == marked;
      found := Backtrack(pos + 1);
      ghost var o := Search.Backtrack(size, pos + 1, marked);
      assert found == o.found && State() == o.s;
      if !found {
        visited := SetFlag(visited, c, false);
        assert State() == Search.Retreat(size, o.s, c);
      }
    }
  }

  /** The copy of the input matrix into a fresh all-false matrix, one cell at a time. */
  method CopyMatrix(size: Size, src: seq<seq<bool>>) returns (b: seq<seq<bool>>)
    requires IsBoard(size, src)
    ensures b == src
  {
    b := seq(size, _ => seq(size, _ => false));
    for r := 0 to size
      invariant IsBoard(size, b)
      invariant forall i :: 0 <= i < r ==> b[i] == src[i]
      invariant forall i :: r <= i < size ==> b[i] == seq(size, _ => false)
    {
      for c := 0 to size
        invariant IsBoard(size, b)
        invariant forall i :: 0 <= i < r ==> b[i] == src[i]
        invariant forall i :: r < i < size ==> b[i] == seq(size, _ => false)
        invariant b[r][..c] == src[r][..c] && b[r][c..] == seq(size - c, _ => false)
      {
        b := SetFlag(b, Coord(r, c), src[r][c]);
      }
      assert b[r] == b[r][..size];
    }
  }

  /** `solveFromState`: the best path and its length, exactly as the search specification gives them. */
  method SolveFromState(size: Size, st: SequenceState) returns (bestPath: seq<Coord>, bestLen: int)
    requires Search.SolverInput(size, st)
    ensures Search.SolveResult(bestPath, bestLen) == Search.Solve(size, st)
  {
    var run := new SearchRun(size, st);
    if st.prefixK == 0 {
      return run.bestPath, 0;
    }
    var _ := run.Backtrack(st.prefixK);
    return run.bestPath, run.bestLen;
  }
}
