// Warnsdorff's ordering for the backtracking solver: the onward degree of a cell, the candidate
// moves out of a cell, and the stable ascending sort of those candidates by degree.

module Warnsdorff {
  import opened Grid
  import opened Moves

  /** An in-bounds cell not yet marked on the board. */
  predicate Free(size: Size, visited: seq<seq<bool>>, c: Coord)
    requires IsBoard(size, visited)
  {
    InBounds(size, c) && !visited[c.row][c.col]
  }

  /** How many of the first `k` deltas lead from `c` to a free cell. */
  function DegreeUpTo(size: Size, visited: seq<seq<bool>>, c: Coord, k: int): nat
    requires IsBoard(size, visited) && 0 <= k <= |MoveDeltas|
  {
    if k == 0 then 0
    else DegreeUpTo(size, visited, c, k - 1) + (if Free(size, visited, Step(c, k - 1)) then 1 else 0)
  }

  /** The function `degree`: the number of free cells one classic jump away from `c`. */
  function DegreeOf(size: Size, visited: seq<seq<bool>>, c: Coord): nat
    requires IsBoard(size, visited)
  {
    DegreeUpTo(size, visited, c, |MoveDeltas|)
  }

  /** `degree` as the source runs it: a counting loop over the delta table, reading the array. */
  method Degree(size: Size, visited: seq<seq<bool>>, c: Coord) returns (count: int)
    requires IsBoard(size, visited)
    ensures count == DegreeOf(size, visited, c)
  {
    count := 0;
    for k := 0 to |MoveDeltas|
      invariant count == DegreeUpTo(size, visited, c, k)
    {
      var next := Step(c, k);
      if InBounds(size, next) && !visited[next.row][next.col] {
        count := count + 1;
      }
    }
  }

  /** A candidate move of the solver: the target cell and its degree. */
  datatype Candidate = Candidate(cell: Coord, deg: nat)

  /** The candidates among the first `k` deltas out of `from`, in delta order. */
  function CandidatesUpTo(size: Size, visited: seq<seq<bool>>, from: Coord, k: int): seq<Candidate>
    requires IsBoard(size, visited) && 0 <= k <= |MoveDeltas|
  {
    if k == 0 then []
    else
      var next := Step(from, k - 1);
      CandidatesUpTo(size, visited, from, k - 1) +
        (if Free(size, visited, next) then [Candidate(next, DegreeOf(size, visited, next))] else [])
  }

  /** The unsorted move list of the solver at `from`. */
  function CandidatesOf(size: Size, visited: seq<seq<bool>>, from: Coord): seq<Candidate>
    requires IsBoard(size, visited)
  {
    CandidatesUpTo(size, visited, from, |MoveDeltas|)
  }

  /** The move list as the source builds it: one delta at a time, reading the array. */
  method CollectMoves(size: Size, visited: seq<seq<bool>>, from: Coord) returns (moves: seq<Candidate>)
    requires IsBoard(size, visited)
    ensures moves == CandidatesOf(size, visited, from)
  {
    moves := [];
    for k := 0 to |MoveDeltas|
      invariant moves == CandidatesUpTo(size, visited, from, k)
    {
      var next := Step(from, k);
      if InBounds(size, next) && !visited[next.row][next.col] {
        var deg := Degree(size, visited, next);
        moves := moves + [Candidate(next, deg)];
      }
    }
  }

  /** The candidates are exactly the free delta steps, each once and carrying its own degree. */
  lemma {:induction false} CandidatesUpToExact(size: Size, visited: seq<seq<bool>>, from: Coord, k: int)
    requires IsBoard(size, visited) && 0 <= k <= |MoveDeltas|
    ensures |CandidatesUpTo(size, visited, from, k)| == DegreeUpTo(size, visited, from, k)
    ensures forall m :: m in CandidatesUpTo(size, visited, from, k) ==>
      Free(size, visited, m.cell) && m.deg == DegreeOf(size, visited, m.cell) &&
      exists d :: 0 <= d < k && m.cell == Step(from, d)
    ensures forall d :: 0 <= d < k && Free(size, visited, Step(from, d)) ==>
      Candidate(Step(from, d), DegreeOf(size, visited, Step(from, d))) in CandidatesUpTo(size, visited, from, k)
  {
    if k > 0 {
      CandidatesUpToExact(size, visited, from, k - 1);
    }
  }

  /**
   * The move list out of `from` holds one candidate per free cell a classic jump away, with its
   * degree, and nothing else; its length is the degree of `from` itself.
   */
  lemma CandidatesOfExact(size: Size, visited: seq<seq<bool>>, from: Coord)
    requires IsBoard(size, visited)
    ensures |CandidatesOf(size, visited, from)| == DegreeOf(size, visited, from)
    ensures forall m :: m in CandidatesOf(size, visited, from) ==>
      Free(size, visited, m.cell) && CanMove(Classic, from, m.cell) && m.deg == DegreeOf(size, visited, m.cell)
    ensures forall c :: Free(size, visited, c) && CanMove(Classic, from, c) ==>
      Candidate(c, DegreeOf(size, visited, c)) in CandidatesOf(size, visited, from)
  {
    CandidatesUpToExact(size, visited, from, |MoveDeltas|);
    forall m | m in CandidatesOf(size, visited, from)
      ensures CanMove(Classic, from, m.cell)
    {
      ClassicMovesAreDeltas(from, m.cell);
    }
    forall c | Free(size, visited, c) && CanMove(Classic, from, c)
      ensures Candidate(c, DegreeOf(size, visited, c)) in CandidatesOf(size, visited, from)
    {
      ClassicMovesAreDeltas(from, c);
    }
  }

  /** A cell has at most eight onward moves. */
  lemma {:induction false} DegreeAtMostEight(size: Size, visited: seq<seq<bool>>, c: Coord, k: int)
    requires IsBoard(size, visited) && 0 <= k <= |MoveDeltas|
    ensures DegreeUpTo(size, visited, c, k) <= k
  {
    if k > 0 {
      DegreeAtMostEight(size, visited, c, k - 1);
    }
  }

  /** Marking a cell visited never raises the degree of any cell. */
  lemma {:induction false} MarkingLowersDegree(size: Size, visited: seq<seq<bool>>, x: Coord, c: Coord, k: int)
    requires IsBoard(size, visited) && InBounds(size, x) && 0 <= k <= |MoveDeltas|
    ensures IsBoard(size, SetFlag(visited, x, true))
    ensures DegreeUpTo(size, SetFlag(visited, x, true), c, k) <= DegreeUpTo(size, visited, c, k)
  {
    if k > 0 {
      MarkingLowersDegree(size, visited, x, c, k - 1);
    }
  }

  /* ----- The stable sort by ascending degree ----- */

  /** Puts `x` before the first element of `s` whose degree is at least its own. */
  function Insert(x: Candidate, s: seq<Candidate>): seq<Candidate> {
    if s == [] || x.deg <= s[0].deg then [x] + s
    else [s[0]] + Insert(x, s[1..])
  }

  /** The stable ascending sort of `moves.sort((a, b) => a.deg - b.deg)`. */
  function SortByDegree(s: seq<Candidate>): (r: seq<Candidate>)
    ensures multiset(r) == multiset(s)
  {
    if s == [] then []
    else
      InsertCount(s[0], SortByDegree(s[1..]));
      assert s == [s[0]] + s[1..];
      Insert(s[0], SortByDegree(s[1..]))
  }

  predicate SortedByDegree(s: seq<Candidate>) {
    forall i, j :: 0 <= i < j < |s| ==> s[i].deg <= s[j].deg
  }

  /** The candidates of degree `d`, in their order in `s`. */
  function OfDegree(s: seq<Candidate>, d: int): seq<Candidate> {
    if s == [] then []
    else (if s[0].deg == d then [s[0]] else []) + OfDegree(s[1..], d)
  }

  lemma {:induction false} InsertCount(x: Candidate, s: seq<Candidate>)
    ensures multiset(Insert(x, s)) == multiset([x]) + multiset(s)
  {
    if s != [] && x.deg > s[0].deg {
      InsertCount(x, s[1..]);
      assert s == [s[0]] + s[1..];
    }
  }

  lemma {:induction false} InsertSorted(x: Candidate, s: seq<Candidate>)
    requires SortedByDegree(s)
    ensures SortedByDegree(Insert(x, s))
  {
    if s != [] && x.deg > s[0].deg {
      InsertSorted(x, s[1..]);
      InsertCount(x, s[1..]);
      var t := Insert(x, s[1..]);
      forall k | 0 <= k < |t|
        ensures s[0].deg <= t[k].deg
      {
        assert t[k] in multiset(t);
      }
    }
  }

  /** Inserting into a sorted list puts `x` after every element of its own degree. */
  lemma {:induction false} InsertOfDegree(x: Candidate, s: seq<Candidate>, d: int)
    requires SortedByDegree(s)
    ensures OfDegree(Insert(x, s), d) == (if x.deg == d then [x] else []) + OfDegree(s, d)
  {
    if s == [] {
    } else if x.deg <= s[0].deg {
      assert Insert(x, s)[1..] == s;
    } else {
      InsertOfDegree(x, s[1..], d);
      assert Insert(x, s)[1..] == Insert(x, s[1..]);
      if s[0].deg == d {
        // x.deg > d here, so x is not among the elements of degree d
        assert x.deg != d;
      }
    }
  }

  /**
   * The sort orders the moves by ascending degree, keeps exactly the same moves, and keeps moves of
   * equal degree in their original (delta-table) order.
   */
  lemma {:induction false} SortByDegreeCorrect(s: seq<Candidate>)
    ensures SortedByDegree(SortByDegree(s))
    ensures multiset(SortByDegree(s)) == multiset(s)
    ensures forall d :: OfDegree(SortByDegree(s), d) == OfDegree(s, d)
  {
    if s != [] {
      SortByDegreeCorrect(s[1..]);
      InsertSorted(s[0], SortByDegree(s[1..]));
      forall d
        ensures OfDegree(SortByDegree(s), d) == OfDegree(s, d)
      {
        InsertOfDegree(s[0], SortByDegree(s[1..]), d);
      }
    }
  }
}
