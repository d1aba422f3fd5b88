// The jump-move rule of both game variants and the fixed delta table the solver uses.

module Moves {
  import opened Grid

  /** Classic allows orthogonal jumps of 3 and diagonal jumps of (2,2); Easy adds jumps of 2 and knight moves. */
  datatype Mode = Classic | Easy

  function Abs(x: int): nat {
    if x < 0 then -x else x
  }

  /** The move predicate `canMove`: whether a number may follow its predecessor at these positions. */
  predicate CanMove(mode: Mode, from: Coord, to: Coord) {
    var dr := to.row - from.row;
    var dc := to.col - from.col;
    var orthoDelta := if mode == Easy then [2, 3] else [3];
    var isOrthogonal := (dr == 0 && Abs(dc) in orthoDelta) || (dc == 0 && Abs(dr) in orthoDelta);
    var isDiagonal := Abs(dr) == 2 && Abs(dc) == 2;
    var isKnight := mode == Easy && ((Abs(dr) == 2 && Abs(dc) == 1) || (Abs(dr) == 1 && Abs(dc) == 2));
    isOrthogonal || isDiagonal || isKnight
  }

  /** The eight classic (row, column) offsets, in the order the solver and the hint try them. */
  const MoveDeltas: seq<(int, int)> := [(-3, 0), (3, 0), (0, -3), (0, 3), (-2, -2), (-2, 2), (2, -2), (2, 2)]

  /** The cell reached from `c` by the `k`-th delta. */
  function Step(c: Coord, k: int): Coord
    requires 0 <= k < |MoveDeltas|
  {
    Coord(c.row + MoveDeltas[k].0, c.col + MoveDeltas[k].1)
  }

  /** The rule is symmetric: a jump is legal exactly when the jump back is. */
  lemma CanMoveSymmetric(mode: Mode, a: Coord, b: Coord)
    ensures CanMove(mode, a, b) == CanMove(mode, b, a)
  {
  }

  /** No mode allows a jump onto the same cell. */
  lemma CanMoveNoSelfJump(mode: Mode, a: Coord)
    ensures !CanMove(mode, a, a)
  {
  }

  /** The rule looks only at the absolute row and column distances. */
  lemma CanMoveDependsOnDistance(mode: Mode, a: Coord, b: Coord, a': Coord, b': Coord)
    requires Abs(b.row - a.row) == Abs(b'.row - a'.row)
    requires Abs(b.col - a.col) == Abs(b'.col - a'.col)
    ensures CanMove(mode, a, b) == CanMove(mode, a', b')
  {
  }

  /** In classic mode a jump is legal exactly when it is one of the eight entries of `MoveDeltas`. */
  lemma ClassicMovesAreDeltas(a: Coord, b: Coord)
    ensures CanMove(Classic, a, b) <==> exists k :: 0 <= k < |MoveDeltas| && Step(a, k) == b
  {
    var dr, dc := b.row - a.row, b.col - a.col;
    if CanMove(Classic, a, b) {
      var k :=
        if dr == -3 then 0 else if dr == 3 then 1 else if dc == -3 then 2 else if dc == 3 then 3
        else if dr == -2 && dc == -2 then 4 else if dr == -2 then 5 else if dc == -2 then 6 else 7;
      assert Step(a, k) == b;
    }
  }

  /** Easy mode allows everything classic mode allows, plus jumps of (0,±2), (±2,0), (±2,±1) and (±1,±2). */
  lemma EasyExtendsClassic(a: Coord, b: Coord)
    ensures CanMove(Easy, a, b) <==>
      CanMove(Classic, a, b) ||
      (Abs(b.row - a.row), Abs(b.col - a.col)) in {(0, 2), (2, 0), (2, 1), (1, 2)}
  {
  }

  /** Every delta of the table is a legal move in both modes. */
  lemma DeltaStepIsLegal(mode: Mode, a: Coord, k: int)
    requires 0 <= k < |MoveDeltas|
    ensures CanMove(mode, a, Step(a, k))
  {
  }

  /** The table lists eight distinct offsets and is closed under reversal. */
  lemma DeltasDistinctAndSymmetric()
    ensures forall i, j :: 0 <= i < j < |MoveDeltas| ==> MoveDeltas[i] != MoveDeltas[j]
    ensures forall i :: 0 <= i < |MoveDeltas| ==> (-MoveDeltas[i].0, -MoveDeltas[i].1) in MoveDeltas
  {
  }
}
