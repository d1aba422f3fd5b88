// The board: coordinates, the row-major cell index, and the state a cell carries.

module Grid {

  datatype Option<T> = None | Some(value: T)

  /** A board is 6x6 or 9x9; any other stored size falls back to 9. */
  type Size = n: int | n == 6 || n == 9 witness 9

  datatype Coord = Coord(row: int, col: int)

  /** What a cell shows in the removal variant: a logo to clear, a cleared cell, or an iron logo. */
  datatype CellState = Full | Empty | Iron

  /** The trimmed text of a cell, as `parseInt(text, 10)` reads it. */
  datatype CellText = Blank | Number(n: int) | NotANumber

  /** One grid cell: its removal state, its text and whether it carries a preset ("fixed") value. */
  datatype Cell = Cell(state: CellState, text: CellText, fixed: bool)

  predicate InBounds(size: int, c: Coord) {
    0 <= c.row < size && 0 <= c.col < size
  }

  /** A size-by-size matrix of flags indexed `[row][col]`, like the `visited` matrices of the solver. */
  predicate IsBoard(size: int, b: seq<seq<bool>>) {
    |b| == size && forall r :: 0 <= r < size ==> |b[r]| == size
  }

  /** The matrix with one flag replaced. */
  function SetFlag(b: seq<seq<bool>>, c: Coord, v: bool): seq<seq<bool>>
    requires 0 <= c.row < |b| && 0 <= c.col < |b[c.row]|
  {
    b[c.row := b[c.row][c.col := v]]
  }

  /** Row-major index of a cell. */
  function IndexFromRowCol(size: int, c: Coord): int {
    c.row * size + c.col
  }

  /** The inverse used by undo: row `floor(i / size)`, column `i % size`. */
  function RowColFromIndex(size: int, i: int): Coord
    requires size > 0
  {
    Coord(i / size, i % size)
  }

  lemma MulLess(a: int, b: int, n: int)
    requires 0 <= a < n && 0 < b
    ensures a * b + b <= n * b
  {
    assert (a + 1) * b <= n * b;
  }

  /** Every in-bounds coordinate has an index in `0 .. size*size - 1`, and the index decodes back to it. */
  lemma IndexRoundTrip(size: int, c: Coord)
    requires size > 0 && InBounds(size, c)
    ensures 0 <= IndexFromRowCol(size, c) < size * size
    ensures RowColFromIndex(size, IndexFromRowCol(size, c)) == c
  {
    var i := IndexFromRowCol(size, c);
    MulLess(c.row, size, size);
    assert size * size == size * size;
    DivModUnique(i, size, c.row, c.col);
  }

  /** Every index of the board decodes to an in-bounds coordinate that encodes back to it. */
  lemma CoordRoundTrip(size: int, i: int)
    requires size > 0 && 0 <= i < size * size
    ensures InBounds(size, RowColFromIndex(size, i))
    ensures IndexFromRowCol(size, RowColFromIndex(size, i)) == i
  {
    var q, r := i / size, i % size;
    assert i == q * size + r;
    if q >= size {
      MulMono(size, q, size);
    }
  }

  /** Two in-bounds coordinates with the same index are the same coordinate. */
  lemma IndexInjective(size: int, a: Coord, b: Coord)
    requires size > 0 && InBounds(size, a) && InBounds(size, b)
    requires IndexFromRowCol(size, a) == IndexFromRowCol(size, b)
    ensures a == b
  {
    IndexRoundTrip(size, a);
    IndexRoundTrip(size, b);
  }

  lemma MulMono(a: int, b: int, n: int)
    requires a <= b && n > 0
    ensures a * n <= b * n
  {
  }

  lemma DivModUnique(i: int, n: int, q: int, r: int)
    requires n > 0 && 0 <= r < n && i == q * n + r
    ensures i / n == q && i % n == r
  {
    var q', r' := i / n, i % n;
    assert i == q' * n + r';
    if q' < q {
      MulMono(q' + 1, q, n);
    } else if q' > q {
      MulMono(q + 1, q', n);
    }
  }
}
