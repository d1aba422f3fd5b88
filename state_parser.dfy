// The state parser `parseCurrentStateAllowPrefix`: rebuilds the positions of the numbers on a
// grid snapshot, the longest legal prefix 1..prefixK and the cells that prefix covers, or
// rejects the snapshot.

module StateParser {
  import opened Grid
  import opened Moves

  datatype ParseError =
    | InvalidValue(at: Coord)   // a cell whose text is not an integer in 1..size*size
    | Duplicate(value: int)     // a value written in two cells
    | EmptyGrid                 // no number the player wrote, and no 1
    | MissingOne                // numbers present, but no 1

  /**
   * The rebuilt sequence: `positions[v-1]` is where value v stands (None when absent),
   * `visited[row][col]` marks the cells of values 1..prefixK, and `currentMax` is the
   * largest value among cells that are not preset ("fixed"), at least 1.
   */
  datatype SequenceState = SequenceState(prefixK: nat, positions: seq<Option<Coord>>, visited: seq<seq<bool>>, currentMax: nat)

  datatype ParseResult = Failed(error: ParseError) | Parsed(state: SequenceState)

  function Max(a: int, b: int): int {
    if a < b then b else a
  }

  /* ----- The specification: the scan of the cells in row-major order, then the walk ----- */

  /** What the scan has gathered so far: the `freq` counts, the positions and the largest non-fixed value. */
  datatype Scan = Scan(freq: seq<int>, positions: seq<Option<Coord>>, dynMax: int)

  datatype ScanResult = ScanFailed(error: ParseError) | Scanned(scan: Scan)

  predicate ScanShape(maxCells: int, sc: Scan) {
    |sc.freq| == maxCells + 1 && |sc.positions| == maxCells && 0 <= sc.dynMax <= maxCells
  }

  /** One step of the scan: the cell with row-major index `i`. */
  function ScanCell(size: Size, cells: seq<Cell>, i: int, sc: Scan): (r: ScanResult)
    requires |cells| == size * size && 0 <= i < |cells| && ScanShape(size * size, sc)
    ensures r.Scanned? ==> ScanShape(size * size, r.scan)
  {
    match cells[i].text
    case Blank => Scanned(sc)
    case NotANumber => ScanFailed(InvalidValue(RowColFromIndex(size, i)))
    case Number(v) =>
      if v < 1 || v > size * size then ScanFailed(InvalidValue(RowColFromIndex(size, i)))
      else if sc.freq[v] + 1 > 1 then ScanFailed(Duplicate(v))
      else Scanned(Record(size, cells, i, sc, v))
  }

  /** Counts value `v` of cell `i`, records its position and, for a non-fixed cell, raises the maximum. */
  function Record(size: Size, cells: seq<Cell>, i: int, sc: Scan, v: int): (r: Scan)
    requires |cells| == size * size && 0 <= i < |cells| && ScanShape(size * size, sc) && 1 <= v <= size * size
    ensures ScanShape(size * size, r)
  {
    var dynMax := if cells[i].fixed then sc.dynMax else Max(sc.dynMax, v);
    Scan(sc.freq[v := sc.freq[v] + 1], sc.positions[v - 1 := Some(RowColFromIndex(size, i))], dynMax)
  }

  function InitialScan(maxCells: nat): Scan {
    Scan(seq(maxCells + 1, _ => 0), seq(maxCells, _ => None), 0)
  }

  /** The scan of the first `n` cells. */
  function ScanUpTo(size: Size, cells: seq<Cell>, n: int): (r: ScanResult)
    requires |cells| == size * size && 0 <= n <= |cells|
    ensures r.Scanned? ==> ScanShape(size * size, r.scan)
  {
    if n == 0 then Scanned(InitialScan(size * size))
    else
      match ScanUpTo(size, cells, n - 1)
      case ScanFailed(e) => ScanFailed(e)
      case Scanned(sc) => ScanCell(size, cells, n - 1, sc)
  }

  /** The scan of the first `n = i + 1` cells continues the scan of the first `i` with cell `i`. */
  lemma ScanUpToNext(size: Size, cells: seq<Cell>, i: int, n: int, sc: Scan)
    requires |cells| == size * size && 0 <= i < |cells| && n == i + 1
    requires ScanUpTo(size, cells, i) == Scanned(sc)
    ensures ScanUpTo(size, cells, n) == ScanCell(size, cells, i, sc)
  {
  }

  /** Values n-1 and n are both placed and value n stands a legal move away from value n-1. */
  predicate Linked(mode: Mode, positions: seq<Option<Coord>>, n: int)
    requires 2 <= n <= |positions|
  {
    positions[n - 2].Some? && positions[n - 1].Some? && CanMove(mode, positions[n - 2].value, positions[n - 1].value)
  }

  /** The walk n = 2..effectiveMax, given that values 1..n-1 form a legal prefix. */
  function PrefixFrom(mode: Mode, positions: seq<Option<Coord>>, n: int, effectiveMax: int): (k: nat)
    requires 2 <= n <= effectiveMax + 1 && effectiveMax <= |positions|
    ensures n - 1 <= k <= effectiveMax
    decreases effectiveMax + 1 - n
  {
    if n > effectiveMax then n - 1
    else if !Linked(mode, positions, n) then n - 1
    else PrefixFrom(mode, positions, n + 1, effectiveMax)
  }

  /** The matrix of the cells holding values 1..k. */
  function VisitedOf(size: Size, positions: seq<Option<Coord>>, k: int): seq<seq<bool>>
    requires 0 <= k <= |positions|
  {
    seq(size, r => seq(size, c => exists j :: 0 <= j < k && positions[j] == Some(Coord(r, c))))
  }

  /** The whole parser as a function of the snapshot. */
  function Parse(size: Size, mode: Mode, cells: seq<Cell>): ParseResult
    requires |cells| == size * size
  {
    match ScanUpTo(size, cells, |cells|)
    case ScanFailed(e) => Failed(e)
    case Scanned(sc) =>
      var effectiveMax := Max(sc.dynMax, if sc.positions[0].Some? then 1 else 0);
      if effectiveMax == 0 then Failed(EmptyGrid)
      else if sc.positions[0].None? then Failed(MissingOne)
      else
        var k := PrefixFrom(mode, sc.positions, 2, effectiveMax);
        Parsed(SequenceState(k, sc.positions, VisitedOf(size, sc.positions, k), effectiveMax))
  }

  /* ----- The method, as the source runs it: nested loops over rows and columns ----- */

  /** The parser: the scan, the checks on the largest value and on 1, the prefix walk and the visited cells. */
  method ParseCurrentStateAllowPrefix(size: Size, mode: Mode, cells: seq<Cell>) returns (r: ParseResult)
    requires |cells| == size * size
    ensures r == Parse(size, mode, cells)
  {
    var scan := ScanCells(size, cells);
    if scan.ScanFailed? {
      return Failed(scan.error);
    }
    var positions := scan.scan.positions;
    var effectiveMax := Max(scan.scan.dynMax, if positions[0].Some? then 1 else 0);
    if effectiveMax == 0 {
      return Failed(EmptyGrid);
    }
    if positions[0].None? {
      return Failed(MissingOne);
    }
    var prefixK := WalkPrefix(mode, positions, effectiveMax);
    ScanFacts(size, cells, |cells|);
    PrefixFromFacts(mode, positions, 2, effectiveMax);
    forall j | 0 <= j < prefixK
      ensures positions[j].Some? && InBounds(size, positions[j].value)
    {
      if j >= 1 {
        assert Linked(mode, positions, j + 1);
      }
    }
    var visited := MarkVisited(size, mode, positions, prefixK);
    return Parsed(SequenceState(prefixK, positions, visited, effectiveMax));
  }

  /** The scan of every cell, row by row. */
  method ScanCells(size: Size, cells: seq<Cell>) returns (r: ScanResult)
    requires |cells| == size * size
    ensures r == ScanUpTo(size, cells, |cells|)
  {
    var maxCells := size * size;
    r := Scanned(Scan(seq(maxCells + 1, _ => 0), seq(maxCells, _ => None), 0));
    var row := 0;
    while row < size
      invariant 0 <= row <= size && row * size <= |cells|
      invariant r == ScanUpTo(size, cells, row * size) && r.Scanned?
    {
      r := ScanRow(size, cells, row, r.scan);
      if r.ScanFailed? {
        ScanFailurePersists(size, cells, (row + 1) * size, |cells|);
        return r;
      }
      row := row + 1;
    }
  }

  /** The scan of one row, column by column, continuing the scan `sc` of the rows above it. */
  method ScanRow(size: Size, cells: seq<Cell>, row: int, sc: Scan) returns (r: ScanResult)
    requires |cells| == size * size && 0 <= row < size
    requires ScanUpTo(size, cells, row * size) == Scanned(sc)
    ensures (row + 1) * size <= |cells| && r == ScanUpTo(size, cells, (row + 1) * size)
  {
    MulLess(row, size, size);
    var start := row * size;
    var end := start + size;
    assert end == (row + 1) * size;
    var freq, positions, dynMax := sc.freq, sc.positions, sc.dynMax;
    var i := start;
    while i < end
      invariant start <= i <= end
      invariant ScanUpTo(size, cells, i) == Scanned(Scan(freq, positions, dynMax))
    {
      ScanUpToNext(size, cells, i, i + 1, Scan(freq, positions, dynMax));
      assert IndexFromRowCol(size, Coord(row, i - start)) == i;
      var step := ScanOneCell(size, cells, Coord(row, i - start), freq, positions, dynMax);
      if step.ScanFailed? {
        ScanFailurePersists(size, cells, i + 1, end);
        return step;
      }
      freq, positions, dynMax := step.scan.freq, step.scan.positions, step.scan.dynMax;
      i := i + 1;
    }
    return Scanned(Scan(freq, positions, dynMax));
  }

  /** One cell of the scan: skip a blank, reject a non-integer, an out-of-range value or a repeat, else record it. */
  method ScanOneCell(size: Size, cells: seq<Cell>, at: Coord, freq: seq<int>, positions: seq<Option<Coord>>, dynMax: int)
    returns (r: ScanResult)
    requires |cells| == size * size && InBounds(size, at) && ScanShape(size * size, Scan(freq, positions, dynMax))
    ensures r == ScanCell(size, cells, IndexFromRowCol(size, at), Scan(freq, positions, dynMax))
  {
    IndexRoundTrip(size, at);
    var idx := IndexFromRowCol(size, at);
    match cells[idx].text {
      case Blank =>
        return Scanned(Scan(freq, positions, dynMax));
      case NotANumber =>
        return ScanFailed(InvalidValue(at));
      case Number(v) =>
        if v < 1 || v > size * size {
          return ScanFailed(InvalidValue(at));
        }
        var freq' := freq[v := freq[v] + 1];
        if freq'[v] > 1 {
          return ScanFailed(Duplicate(v));
        }
        var dynMax' := dynMax;
        if !cells[idx].fixed {
          dynMax' := Max(dynMax, v);
        }
        return Scanned(Scan(freq', positions[v - 1 := Some(at)], dynMax'));
    }
  }

  /** The walk n = 2..effectiveMax that stops at the first missing value or illegal move. */
  method WalkPrefix(mode: Mode, positions: seq<Option<Coord>>, effectiveMax: int) returns (prefixK: int)
    requires 1 <= effectiveMax <= |positions| && positions[0].Some?
    ensures prefixK == PrefixFrom(mode, positions, 2, effectiveMax)
  {
    prefixK := 1;
    var n := 2;
    while n <= effectiveMax
      invariant 2 <= n <= effectiveMax + 1 && prefixK == n - 1
      invariant positions[n - 2].Some?
      invariant PrefixFrom(mode, positions, n, effectiveMax) == PrefixFrom(mode, positions, 2, effectiveMax)
    {
      if positions[n - 1].None? {
        prefixK := n - 1;
        break;
      }
      var a := positions[n - 2].value;
      var b := positions[n - 1].value;
      if !CanMove(mode, a, b) {
        prefixK := n - 1;
        break;
      }
      prefixK := n;
      n := n + 1;
    }
  }

  /** Marks the cells of values 1..prefixK. */
  method MarkVisited(size: Size, mode: Mode, positions: seq<Option<Coord>>, prefixK: int) returns (visited: seq<seq<bool>>)
    requires 0 <= prefixK <= |positions|
    requires forall j :: 0 <= j < prefixK ==> positions[j].Some? && InBounds(size, positions[j].value)
    ensures visited == VisitedOf(size, positions, prefixK)
  {
    visited := seq(size, _ => seq(size, _ => false));
    for m := 0 to prefixK
      invariant IsBoard(size, visited)
      invariant forall r, c :: 0 <= r < size && 0 <= c < size ==>
        (visited[r][c] <==> exists q :: 0 <= q < m && positions[q] == Some(Coord(r, c)))
    {
      var p := positions[m].value;
      visited := SetFlag(visited, p, true);
    }
    ghost var spec := VisitedOf(size, positions, prefixK);
    forall r | 0 <= r < size
      ensures visited[r] == spec[r]
    {
      assert forall c :: 0 <= c < size ==> visited[r][c] == spec[r][c];
    }
  }

  /* ----- What the scan establishes ----- */

  predicate ValueInRange(size: Size, t: CellText) {
    t.Blank? || (t.Number? && 1 <= t.n <= size * size)
  }

  /** The cell `i` holds a number that an earlier cell (row-major) already holds. */
  predicate RepeatsEarlier(cells: seq<Cell>, i: int)
    requires 0 <= i < |cells|
  {
    cells[i].text.Number? && exists j :: 0 <= j < i && cells[j].text == cells[i].text
  }

  /** The cell `i` makes the scan fail: not an integer, out of range, or a repeat. */
  predicate BadAt(size: Size, cells: seq<Cell>, i: int)
    requires 0 <= i < |cells|
  {
    !ValueInRange(size, cells[i].text) || RepeatsEarlier(cells, i)
  }

  predicate FirstBadAt(size: Size, cells: seq<Cell>, i: int)
    requires 0 <= i < |cells|
  {
    BadAt(size, cells, i) && forall j :: 0 <= j < i ==> !BadAt(size, cells, j)
  }

  /** The diagnostic the first bad cell produces. */
  function ErrorAt(size: Size, cells: seq<Cell>, i: int): ParseError
    requires 0 <= i < |cells|
  {
    match cells[i].text
    case Number(v) => if 1 <= v <= size * size then Duplicate(v) else InvalidValue(RowColFromIndex(size, i))
    case _ => InvalidValue(RowColFromIndex(size, i))
  }

  /** A value some cell holds. */
  predicate HasValue(cells: seq<Cell>, v: int) {
    exists i :: 0 <= i < |cells| && cells[i].text == Number(v)
  }

  /** A value some non-fixed cell holds. */
  predicate HasPlayerValue(cells: seq<Cell>, v: int) {
    exists i :: 0 <= i < |cells| && !cells[i].fixed && cells[i].text == Number(v)
  }

  /** The facts a successful scan of the first `n` cells guarantees. */
  predicate ScanInvariant(size: Size, cells: seq<Cell>, n: int, sc: Scan)
    requires |cells| == size * size && 0 <= n <= |cells| && ScanShape(size * size, sc)
  {
    && (forall j :: 0 <= j < n ==> !BadAt(size, cells, j))
    && FreqCounts(size, sc)
    && PositionsSound(size, cells, n, sc)
    && PositionsComplete(size, cells, n, sc)
    && MaxOfPlayerValues(cells, n, sc.dynMax)
  }

  /** `freq[v]` is 1 exactly when value v has a position, and 0 otherwise. */
  predicate FreqCounts(size: Size, sc: Scan)
    requires ScanShape(size * size, sc)
  {
    sc.freq[0] == 0 && forall j :: 0 <= j < size * size ==> sc.freq[j + 1] == if sc.positions[j].Some? then 1 else 0
  }

  /** Every recorded position is an in-bounds cell among the first `n` that holds that value. */
  predicate PositionsSound(size: Size, cells: seq<Cell>, n: int, sc: Scan)
    requires |cells| == size * size && 0 <= n <= |cells| && ScanShape(size * size, sc)
  {
    forall j {:trigger sc.positions[j]} :: 0 <= j < size * size && sc.positions[j].Some? ==>
      InBounds(size, sc.positions[j].value)
      && IndexFromRowCol(size, sc.positions[j].value) < n
      && cells[IndexFromRowCol(size, sc.positions[j].value)].text == Number(j + 1)
  }

  /** Every number among the first `n` cells is in range and recorded at its cell. */
  predicate PositionsComplete(size: Size, cells: seq<Cell>, n: int, sc: Scan)
    requires |cells| == size * size && 0 <= n <= |cells| && ScanShape(size * size, sc)
  {
    forall j :: 0 <= j < n && cells[j].text.Number? ==>
      1 <= cells[j].text.n <= size * size && sc.positions[cells[j].text.n - 1] == Some(RowColFromIndex(size, j))
  }

  /** `m` is the largest number among the non-fixed cells of the first `n`, or 0 when there is none. */
  predicate MaxOfPlayerValues(cells: seq<Cell>, n: int, m: int)
    requires 0 <= n <= |cells|
  {
    && (forall j :: 0 <= j < n && !cells[j].fixed && cells[j].text.Number? ==> cells[j].text.n <= m)
    && (m == 0 || exists j :: 0 <= j < n && !cells[j].fixed && cells[j].text == Number(m))
  }

  /** A failed scan stays failed with the same diagnostic. */
  lemma {:induction false} ScanFailurePersists(size: Size, cells: seq<Cell>, n: int, m: int)
    requires |cells| == size * size && 0 <= n <= m <= |cells|
    requires ScanUpTo(size, cells, n).ScanFailed?
    ensures ScanUpTo(size, cells, m) == ScanUpTo(size, cells, n)
  {
    if m > n {
      ScanFailurePersists(size, cells, n, m - 1);
    }
  }

  /**
   * The scan of the first `n` cells fails exactly when one of them is bad, and then with the
   * diagnostic of the first bad cell; when it succeeds it has gathered the positions of all
   * values in those cells and the largest non-fixed value.
   */
  lemma {:induction false} ScanFacts(size: Size, cells: seq<Cell>, n: int)
    requires |cells| == size * size && 0 <= n <= |cells|
    ensures ScanUpTo(size, cells, n).Scanned? ==> ScanInvariant(size, cells, n, ScanUpTo(size, cells, n).scan)
    ensures ScanUpTo(size, cells, n).ScanFailed? ==>
      exists i :: 0 <= i < n && FirstBadAt(size, cells, i) && ScanUpTo(size, cells, n).error == ErrorAt(size, cells, i)
  {
    if n == 0 {
      InitialScanFacts(size, cells);
    } else {
      ScanFacts(size, cells, n - 1);
      var prev := ScanUpTo(size, cells, n - 1);
      if prev.ScanFailed? {
        var i :| 0 <= i < n - 1 && FirstBadAt(size, cells, i) && prev.error == ErrorAt(size, cells, i);
        ScanFailurePersists(size, cells, n - 1, n);
      } else {
        ScanFactsStep(size, cells, n - 1, n);
      }
    }
  }

  /** Nothing scanned yet: no value recorded, no maximum. */
  lemma InitialScanFacts(size: Size, cells: seq<Cell>)
    requires |cells| == size * size
    ensures ScanUpTo(size, cells, 0) == Scanned(InitialScan(size * size))
    ensures ScanInvariant(size, cells, 0, InitialScan(size * size))
  {
  }

  /** One more cell, `i`, after a successful scan of the first `i`, giving the first `n`. */
  lemma ScanFactsStep(size: Size, cells: seq<Cell>, i: int, n: int)
    requires |cells| == size * size && 0 <= i < |cells| && n == i + 1
    requires ScanUpTo(size, cells, i).Scanned?
    requires ScanInvariant(size, cells, i, ScanUpTo(size, cells, i).scan)
    ensures ScanUpTo(size, cells, n).Scanned? ==> ScanInvariant(size, cells, n, ScanUpTo(size, cells, n).scan)
    ensures ScanUpTo(size, cells, n).ScanFailed? ==>
      FirstBadAt(size, cells, i) && ScanUpTo(size, cells, n).error == ErrorAt(size, cells, i)
  {
    var prev := ScanUpTo(size, cells, i);
    assert ScanUpTo(size, cells, i + 1) == ScanCell(size, cells, i, prev.scan);
    ScanStep(size, cells, i, prev.scan);
  }

  /** The scan step keeps the invariant, or fails at the first bad cell. */
  lemma ScanStep(size: Size, cells: seq<Cell>, i: int, sc: Scan)
    requires |cells| == size * size && 0 <= i < |cells| && ScanShape(size * size, sc)
    requires ScanInvariant(size, cells, i, sc)
    ensures ScanCell(size, cells, i, sc).Scanned? ==> ScanInvariant(size, cells, i + 1, ScanCell(size, cells, i, sc).scan)
    ensures ScanCell(size, cells, i, sc).ScanFailed? ==>
      FirstBadAt(size, cells, i) && ScanCell(size, cells, i, sc).error == ErrorAt(size, cells, i)
  {
    match cells[i].text
    case Blank =>
      BlankKeeps(size, cells, i, sc);
    case NotANumber =>
    case Number(v) =>
      if 1 <= v <= size * size {
        if sc.positions[v - 1].Some? {
          var c := sc.positions[v - 1].value;
          assert cells[IndexFromRowCol(size, c)].text == Number(v);
          assert RepeatsEarlier(cells, i);
        } else {
          PlaceKeeps(size, cells, i, sc, v);
        }
      }
  }

  lemma BlankKeeps(size: Size, cells: seq<Cell>, i: int, sc: Scan)
    requires |cells| == size * size && 0 <= i < |cells| && ScanShape(size * size, sc)
    requires ScanInvariant(size, cells, i, sc) && cells[i].text == Blank
    ensures ScanInvariant(size, cells, i + 1, sc)
  {
    assert !BadAt(size, cells, i);
    SkipKeepsSound(size, cells, i, sc);
    SkipKeepsComplete(size, cells, i, sc);
    SkipKeepsMax(cells, i, sc.dynMax);
  }

  lemma SkipKeepsSound(size: Size, cells: seq<Cell>, i: int, sc: Scan)
    requires |cells| == size * size && 0 <= i < |cells| && ScanShape(size * size, sc)
    requires PositionsSound(size, cells, i, sc)
    ensures PositionsSound(size, cells, i + 1, sc)
  {
  }

  lemma SkipKeepsComplete(size: Size, cells: seq<Cell>, i: int, sc: Scan)
    requires |cells| == size * size && 0 <= i < |cells| && ScanShape(size * size, sc)
    requires PositionsComplete(size, cells, i, sc) && !cells[i].text.Number?
    ensures PositionsComplete(size, cells, i + 1, sc)
  {
    forall j | 0 <= j < i + 1 && cells[j].text.Number?
      ensures 1 <= cells[j].text.n <= size * size && sc.positions[cells[j].text.n - 1] == Some(RowColFromIndex(size, j))
    {
      assert PositionsComplete(size, cells, i, sc);
    }
  }

  lemma SkipKeepsMax(cells: seq<Cell>, i: int, m: int)
    requires 0 <= i < |cells| && MaxOfPlayerValues(cells, i, m) && !cells[i].text.Number?
    ensures MaxOfPlayerValues(cells, i + 1, m)
  {
    if m != 0 {
      var j :| 0 <= j < i && !cells[j].fixed && cells[j].text == Number(m);
    }
  }

  lemma PlaceKeeps(size: Size, cells: seq<Cell>, i: int, sc: Scan, v: int)
    requires |cells| == size * size && 0 <= i < |cells| && ScanShape(size * size, sc)
    requires ScanInvariant(size, cells, i, sc) && cells[i].text == Number(v) && 1 <= v <= size * size
    requires sc.positions[v - 1].None?
    ensures ScanCell(size, cells, i, sc) == Scanned(Record(size, cells, i, sc, v))
    ensures ScanInvariant(size, cells, i + 1, Record(size, cells, i, sc, v))
  {
    NotRepeated(size, cells, i, sc, v);
    assert !BadAt(size, cells, i);
    PlaceKeepsFreq(size, cells, i, sc, v);
    PlaceKeepsSound(size, cells, i, sc, v);
    PlaceKeepsComplete(size, cells, i, sc, v);
    PlaceKeepsMax(size, cells, i, sc, v);
  }

  /** A value without a recorded position does not occur among the scanned cells. */
  lemma NotRepeated(size: Size, cells: seq<Cell>, i: int, sc: Scan, v: int)
    requires |cells| == size * size && 0 <= i < |cells| && ScanShape(size * size, sc)
    requires PositionsComplete(size, cells, i, sc) && cells[i].text == Number(v) && 1 <= v <= size * size
    requires sc.positions[v - 1].None?
    ensures !RepeatsEarlier(cells, i)
  {
    forall j | 0 <= j < i && cells[j].text.Number?
      ensures cells[j].text.n != v
    {
      assert sc.positions[cells[j].text.n - 1] == Some(RowColFromIndex(size, j));
    }
  }

  lemma PlaceKeepsFreq(size: Size, cells: seq<Cell>, i: int, sc: Scan, v: int)
    requires |cells| == size * size && 0 <= i < |cells| && ScanShape(size * size, sc) && 1 <= v <= size * size
    requires FreqCounts(size, sc) && sc.positions[v - 1].None?
    ensures FreqCounts(size, Record(size, cells, i, sc, v))
  {
    var r := Record(size, cells, i, sc, v);
    forall w | 0 <= w < size * size
      ensures r.freq[w + 1] == if r.positions[w].Some? then 1 else 0
    {
      if w != v - 1 {
        assert r.freq[w + 1] == sc.freq[w + 1];
        assert r.positions[w] == sc.positions[w];
      }
    }
  }

  lemma PlaceKeepsSound(size: Size, cells: seq<Cell>, i: int, sc: Scan, v: int)
    requires |cells| == size * size && 0 <= i < |cells| && ScanShape(size * size, sc) && 1 <= v <= size * size
    requires cells[i].text == Number(v) && PositionsSound(size, cells, i, sc)
    ensures PositionsSound(size, cells, i + 1, Record(size, cells, i, sc, v))
  {
    var r := Record(size, cells, i, sc, v);
    CoordRoundTrip(size, i);
    forall w | 0 <= w < size * size && r.positions[w].Some?
      ensures InBounds(size, r.positions[w].value)
      ensures IndexFromRowCol(size, r.positions[w].value) < i + 1
      ensures cells[IndexFromRowCol(size, r.positions[w].value)].text == Number(w + 1)
    {
      if w != v - 1 {
        assert r.positions[w] == sc.positions[w];
      }
    }
  }

  lemma PlaceKeepsComplete(size: Size, cells: seq<Cell>, i: int, sc: Scan, v: int)
    requires |cells| == size * size && 0 <= i < |cells| && ScanShape(size * size, sc) && 1 <= v <= size * size
    requires cells[i].text == Number(v) && !RepeatsEarlier(cells, i)
    requires PositionsComplete(size, cells, i, sc)
    ensures PositionsComplete(size, cells, i + 1, Record(size, cells, i, sc, v))
  {
    var r := Record(size, cells, i, sc, v);
    forall j | 0 <= j < i + 1 && cells[j].text.Number?
      ensures 1 <= cells[j].text.n <= size * size && r.positions[cells[j].text.n - 1] == Some(RowColFromIndex(size, j))
    {
      if j < i {
        assert cells[j].text != cells[i].text;
        assert sc.positions[cells[j].text.n - 1] == Some(RowColFromIndex(size, j));
      }
    }
  }

  lemma PlaceKeepsMax(size: Size, cells: seq<Cell>, i: int, sc: Scan, v: int)
    requires |cells| == size * size && 0 <= i < |cells| && ScanShape(size * size, sc) && 1 <= v <= size * size
    requires cells[i].text == Number(v) && MaxOfPlayerValues(cells, i, sc.dynMax)
    ensures MaxOfPlayerValues(cells, i + 1, Record(size, cells, i, sc, v).dynMax)
  {
    var m' := Record(size, cells, i, sc, v).dynMax;
    if m' == v && !cells[i].fixed {
      assert cells[i].text == Number(m');
    } else if m' != 0 {
      var j :| 0 <= j < i && !cells[j].fixed && cells[j].text == Number(sc.dynMax);
    }
  }

  /* ----- What the walk establishes ----- */

  /** The walk stops at the first value that is missing or not a legal move from its predecessor. */
  lemma {:induction false} PrefixFromFacts(mode: Mode, positions: seq<Option<Coord>>, n: int, effectiveMax: int)
    requires 2 <= n <= effectiveMax + 1 && effectiveMax <= |positions|
    ensures var k := PrefixFrom(mode, positions, n, effectiveMax);
      && n - 1 <= k <= effectiveMax
      && (forall m :: n <= m <= k ==> Linked(mode, positions, m))
      && (k < effectiveMax ==> !Linked(mode, positions, k + 1))
    decreases effectiveMax + 1 - n
  {
    if n <= effectiveMax && Linked(mode, positions, n) {
      PrefixFromFacts(mode, positions, n + 1, effectiveMax);
    }
  }

  /* ----- The properties of the parser ----- */

  /** A bad cell makes the parser fail with the diagnostic of the first bad cell in row-major order. */
  lemma ParseFailsAtFirstBadCell(size: Size, mode: Mode, cells: seq<Cell>, b: int)
    requires |cells| == size * size && 0 <= b < |cells| && BadAt(size, cells, b)
    ensures exists i :: 0 <= i <= b && FirstBadAt(size, cells, i) && Parse(size, mode, cells) == Failed(ErrorAt(size, cells, i))
  {
    ScanFacts(size, cells, |cells|);
    var r := ScanUpTo(size, cells, |cells|);
    if r.ScanFailed? {
      var i :| 0 <= i < |cells| && FirstBadAt(size, cells, i) && r.error == ErrorAt(size, cells, i);
    }
  }

  /**
   * When every cell is well formed but none holds 1, the parser reports a grid without 1, or an
   * empty grid when no non-fixed cell holds a number either.
   */
  lemma ParseFailsWithoutOne(size: Size, mode: Mode, cells: seq<Cell>)
    requires |cells| == size * size
    requires forall i :: 0 <= i < |cells| ==> !BadAt(size, cells, i)
    requires !HasValue(cells, 1)
    ensures Parse(size, mode, cells) == Failed(if HasPlayerValueAtAll(cells) then MissingOne else EmptyGrid)
  {
    ScanFacts(size, cells, |cells|);
    var r := ScanUpTo(size, cells, |cells|);
    assert r.Scanned?;
    var sc := r.scan;
    assert sc.positions[0].None?;
    assert Parse(size, mode, cells) == if sc.dynMax == 0 then Failed(EmptyGrid) else Failed(MissingOne);
    assert HasPlayerValueAtAll(cells) <==> sc.dynMax != 0 by {
      if HasPlayerValueAtAll(cells) {
        var i :| 0 <= i < |cells| && !cells[i].fixed && cells[i].text.Number?;
        assert !BadAt(size, cells, i);
        assert 1 <= cells[i].text.n <= sc.dynMax;
      }
    }
  }

  /** The parser succeeds exactly when every cell is well formed and some cell holds 1. */
  lemma ParseSucceedsIff(size: Size, mode: Mode, cells: seq<Cell>)
    requires |cells| == size * size
    ensures Parse(size, mode, cells).Parsed? <==>
      (forall i :: 0 <= i < |cells| ==> !BadAt(size, cells, i)) && HasValue(cells, 1)
  {
    ScanFacts(size, cells, |cells|);
    var r := ScanUpTo(size, cells, |cells|);
    if r.ScanFailed? {
      var i :| 0 <= i < |cells| && FirstBadAt(size, cells, i) && r.error == ErrorAt(size, cells, i);
    } else {
      var sc := r.scan;
      if sc.positions[0].Some? {
        var c := sc.positions[0].value;
        assert cells[IndexFromRowCol(size, c)].text == Number(1);
      }
    }
  }

  /** Some non-fixed cell holds a number. */
  predicate HasPlayerValueAtAll(cells: seq<Cell>) {
    exists i :: 0 <= i < |cells| && !cells[i].fixed && cells[i].text.Number?
  }

  /** On success every cell holds nothing or a number in range, and 1 <= prefixK <= currentMax <= size*size. */
  lemma ParseBounds(size: Size, mode: Mode, cells: seq<Cell>)
    requires |cells| == size * size
    requires Parse(size, mode, cells).Parsed?
    ensures var st := Parse(size, mode, cells).state;
      && |st.positions| == size * size && IsBoard(size, st.visited)
      && 1 <= st.prefixK <= st.currentMax <= size * size
      && (forall i :: 0 <= i < |cells| ==> ValueInRange(size, cells[i].text))
  {
    ScanFacts(size, cells, |cells|);
    forall i | 0 <= i < |cells|
      ensures ValueInRange(size, cells[i].text)
    {
      assert !BadAt(size, cells, i);
    }
  }

  /** On success `positions` records exactly where each value stands. */
  lemma ParsePositions(size: Size, mode: Mode, cells: seq<Cell>)
    requires |cells| == size * size
    requires Parse(size, mode, cells).Parsed?
    ensures var st := Parse(size, mode, cells).state;
      && |st.positions| == size * size
      && (forall j :: 0 <= j < size * size && st.positions[j].Some? ==>
            InBounds(size, st.positions[j].value) && cells[IndexFromRowCol(size, st.positions[j].value)].text == Number(j + 1))
      && (forall i :: 0 <= i < |cells| && cells[i].text.Number? ==>
            1 <= cells[i].text.n <= size * size && st.positions[cells[i].text.n - 1] == Some(RowColFromIndex(size, i)))
  {
    ScanFacts(size, cells, |cells|);
  }

  /** On success `currentMax` is the largest number among the non-fixed cells, or 1 when that is smaller. */
  lemma ParseCurrentMax(size: Size, mode: Mode, cells: seq<Cell>)
    requires |cells| == size * size
    requires Parse(size, mode, cells).Parsed?
    ensures var st := Parse(size, mode, cells).state;
      && (forall i :: 0 <= i < |cells| && !cells[i].fixed && cells[i].text.Number? ==> cells[i].text.n <= st.currentMax)
      && (st.currentMax == 1 || HasPlayerValue(cells, st.currentMax))
  {
    ScanFacts(size, cells, |cells|);
  }

  /**
   * On success `prefixK` is the longest legal prefix: values 1..prefixK are all placed, every value
   * 2..prefixK stands a legal move from its predecessor, and when the walk stopped short of
   * `currentMax`, value prefixK + 1 is missing or not a legal move.
   */
  lemma ParsePrefix(size: Size, mode: Mode, cells: seq<Cell>)
    requires |cells| == size * size
    requires Parse(size, mode, cells).Parsed?
    ensures var st := Parse(size, mode, cells).state;
      && 1 <= st.prefixK <= st.currentMax <= |st.positions|
      && (forall j :: 0 <= j < st.prefixK ==> st.positions[j].Some?)
      && (forall n :: 2 <= n <= st.prefixK ==> Linked(mode, st.positions, n))
      && (st.prefixK < st.currentMax ==> !Linked(mode, st.positions, st.prefixK + 1))
  {
    var sc := ScanUpTo(size, cells, |cells|).scan;
    var effectiveMax := Max(sc.dynMax, if sc.positions[0].Some? then 1 else 0);
    PrefixFromFacts(mode, sc.positions, 2, effectiveMax);
    var k := PrefixFrom(mode, sc.positions, 2, effectiveMax);
    forall j | 0 <= j < k
      ensures sc.positions[j].Some?
    {
      if j >= 1 {
        assert Linked(mode, sc.positions, j + 1);
      }
    }
  }

  /** `visited` is true exactly at the cells that hold a value 1..prefixK. */
  lemma ParseVisited(size: Size, mode: Mode, cells: seq<Cell>)
    requires |cells| == size * size
    requires Parse(size, mode, cells).Parsed?
    ensures var st := Parse(size, mode, cells).state;
      && IsBoard(size, st.visited)
      && forall r, c :: 0 <= r < size && 0 <= c < size ==>
        (st.visited[r][c] <==>
          var t := cells[IndexFromRowCol(size, Coord(r, c))].text; t.Number? && 1 <= t.n <= st.prefixK)
  {
    ParseBounds(size, mode, cells);
    ParsePositions(size, mode, cells);
    var st := Parse(size, mode, cells).state;
    forall r, c | 0 <= r < size && 0 <= c < size
      ensures st.visited[r][c] <==>
        var t := cells[IndexFromRowCol(size, Coord(r, c))].text; t.Number? && 1 <= t.n <= st.prefixK
    {
      var i := IndexFromRowCol(size, Coord(r, c));
      IndexRoundTrip(size, Coord(r, c));
      if st.visited[r][c] {
        var j :| 0 <= j < st.prefixK && st.positions[j] == Some(Coord(r, c));
        assert cells[i].text == Number(j + 1);
      }
      if cells[i].text.Number? && 1 <= cells[i].text.n <= st.prefixK {
        assert st.positions[cells[i].text.n - 1] == Some(RowColFromIndex(size, i));
      }
    }
  }
}
