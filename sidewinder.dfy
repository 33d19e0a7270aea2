/**
 * Sidewinder: carves the whole first row, then every second row from row 2
 * on, left to right. Each cell carved extends the current run; after a coin
 * flip (forced at the east edge) the run closes by carving one connector
 * north, in the odd row between, above a run column whose cell two rows up
 * is carved. The column after a closed run is skipped and the next run
 * starts one further east. A run without a carved cell two rows up stays
 * open; at the east edge it is instead joined to its western neighbour.
 */
module Sidewinder {
  import opened Cells
  import opened Geometry
  import opened Walks
  import opened Carving

  /** Cell (x, y) of a grid of cols columns is carved. */
  ghost predicate Open(s: seq<Cell>, cols: int, x: int, y: int) {
    0 <= x < cols && 0 <= y && 0 <= y * cols + x < |s| && s[y * cols + x] == PATH
  }

  /** Every cell is an unweighted wall or an unweighted carved cell. */
  ghost predicate Painted(s: seq<Cell>) {
    forall k :: 0 <= k < |s| ==> s[k] == WALL || s[k] == PATH
  }

  /** Every cell of row y is carved. */
  ghost predicate RowCarved(s: seq<Cell>, cols: int, y: int) {
    forall x :: 0 <= x < cols ==> Open(s, cols, x, y)
  }

  /** Every carved cell of row y connects a carved cell above it to a carved cell below it. */
  ghost predicate Connectors(s: seq<Cell>, cols: int, y: int) {
    forall x :: 0 <= x < cols && Open(s, cols, x, y) ==> Open(s, cols, x, y - 1) && Open(s, cols, x, y + 1)
  }

  /** Row y starts carved and has no two walls side by side. */
  ghost predicate Covered(s: seq<Cell>, cols: int, y: int) {
    Open(s, cols, 0, y) && forall x :: 0 <= x < cols - 1 ==> Open(s, cols, x, y) || Open(s, cols, x + 1, y)
  }

  /** Row y has a carved cell. */
  ghost predicate Linked(s: seq<Cell>, cols: int, y: int) {
    exists x :: 0 <= x < cols && Open(s, cols, x, y)
  }

  /** Cell c is reached from cell 0 by a route through carved cells. */
  ghost predicate Reach(s: seq<Cell>, rows: int, cols: int, c: int)
    requires cols > 0
  {
    exists w :: Route(s, rows, cols, w, 0, c)
  }

  /** Cell (x, y) is reached from cell 0. */
  ghost predicate ReachAt(s: seq<Cell>, rows: int, cols: int, x: int, y: int)
    requires cols > 0
  {
    Reach(s, rows, cols, y * cols + x)
  }

  /** Every carved cell below index n is reached from cell 0. */
  ghost predicate ConnectedUpTo(s: seq<Cell>, rows: int, cols: int, n: int)
    requires cols > 0
  {
    forall c :: 0 <= c < n && c < |s| && s[c] == PATH ==> Reach(s, rows, cols, c)
  }

  /** s1 keeps every carved cell of s0. */
  ghost predicate Grows(s0: seq<Cell>, s1: seq<Cell>) {
    |s0| == |s1| && forall k :: 0 <= k < |s0| && s0[k] == PATH ==> s1[k] == PATH
  }

  // Grid arithmetic

  lemma CellIndex(x: int, y: int, rows: int, cols: int)
    requires 0 <= x < cols && 0 <= y < rows
    ensures 0 <= y * cols + x < rows * cols
  {
    RowBound(x, y, rows, cols);
    assert y * cols >= 0;
  }

  /** Cells (x, y) and (x + 1, y) share a side. */
  lemma Beside(x: int, y: int, rows: int, cols: int)
    requires 0 <= x && x + 1 < cols && 0 <= y < rows
    ensures Adjacent(y * cols + x, y * cols + x + 1, rows, cols)
    ensures Adjacent(y * cols + x + 1, y * cols + x, rows, cols)
  {
    CellIndex(x, y, rows, cols);
    CellIndex(x + 1, y, rows, cols);
    CoordinatesRoundTrip(Coordinates(x, y), cols);
    CoordinatesRoundTrip(Coordinates(x + 1, y), cols);
  }

  /** Cells (x, y) and (x, y + 1) share a side. */
  lemma Stacked(x: int, y: int, rows: int, cols: int)
    requires 0 <= x < cols && 0 <= y && y + 1 < rows
    ensures Adjacent(y * cols + x, (y + 1) * cols + x, rows, cols)
    ensures Adjacent((y + 1) * cols + x, y * cols + x, rows, cols)
  {
    CellIndex(x, y, rows, cols);
    CellIndex(x, y + 1, rows, cols);
    CoordinatesRoundTrip(Coordinates(x, y), cols);
    CoordinatesRoundTrip(Coordinates(x, y + 1), cols);
  }

  /** Painting cell (cx, cy) carves it and no other cell. */
  lemma PaintOpen(s0: seq<Cell>, s1: seq<Cell>, rows: int, cols: int, cx: int, cy: int)
    requires |s0| == rows * cols && 0 <= cx < cols && 0 <= cy < rows && 0 <= cy * cols + cx < |s0|
    requires s1 == s0[cy * cols + cx := PATH]
    ensures Grows(s0, s1) && Open(s1, cols, cx, cy)
    ensures forall x, y :: Open(s0, cols, x, y) ==> Open(s1, cols, x, y)
    ensures forall x, y :: Open(s1, cols, x, y) && (x != cx || y != cy) ==> Open(s0, cols, x, y)
  {
    forall x, y | Open(s1, cols, x, y) && (x != cx || y != cy) ensures Open(s0, cols, x, y) {
      CoordinatesRoundTrip(Coordinates(x, y), cols);
      CoordinatesRoundTrip(Coordinates(cx, cy), cols);
    }
  }

  lemma OpenGrows(s0: seq<Cell>, s1: seq<Cell>, cols: int)
    requires Grows(s0, s1)
    ensures forall x, y :: Open(s0, cols, x, y) ==> Open(s1, cols, x, y)
  {
  }

  // Routes

  lemma ReachStart(s: seq<Cell>, rows: int, cols: int)
    requires cols > 0 && |s| > 0
    ensures Reach(s, rows, cols, 0)
  {
    assert Route(s, rows, cols, [0], 0, 0);
  }

  /** A carved cell beside a reached cell is reached. */
  lemma ReachStep(s: seq<Cell>, rows: int, cols: int, c: int, d: int)
    requires cols > 0 && Reach(s, rows, cols, c) && Adjacent(c, d, rows, cols)
    requires 0 <= d < |s| && s[d] == PATH
    ensures Reach(s, rows, cols, d)
  {
    var w :| Route(s, rows, cols, w, 0, c);
    assert Route(s, rows, cols, w + [d], 0, d);
  }

  /** Carving more cells keeps every route. */
  lemma ReachGrows(s0: seq<Cell>, s1: seq<Cell>, rows: int, cols: int, c: int)
    requires cols > 0 && Reach(s0, rows, cols, c) && Grows(s0, s1) && Painted(s0)
    ensures Reach(s1, rows, cols, c)
  {
    var w :| Route(s0, rows, cols, w, 0, c);
    assert Route(s1, rows, cols, w, 0, c);
  }

  lemma ConnectedGrows(s0: seq<Cell>, s1: seq<Cell>, rows: int, cols: int, n: int)
    requires cols > 0 && ConnectedUpTo(s0, rows, cols, n) && Grows(s0, s1) && Painted(s0)
    requires forall c :: 0 <= c < n && c < |s1| && s1[c] == PATH ==> s0[c] == PATH
    ensures ConnectedUpTo(s1, rows, cols, n)
  {
    forall c | 0 <= c < n && c < |s1| && s1[c] == PATH ensures Reach(s1, rows, cols, c) {
      ReachGrows(s0, s1, rows, cols, c);
    }
  }

  /** In a stretch of carved cells of one row, the cells east of a reached cell are reached. */
  lemma {:induction false} SpreadRight(s: seq<Cell>, rows: int, cols: int, y: int, lo: int, hi: int)
    requires GridShape(|s|, rows, cols) && 0 <= y < rows && 0 <= lo <= hi < cols
    requires Reach(s, rows, cols, y * cols + lo)
    requires forall x :: lo <= x <= hi ==> Open(s, cols, x, y)
    ensures forall x :: lo <= x <= hi ==> ReachAt(s, rows, cols, x, y)
    decreases hi - lo
  {
    if lo < hi {
      Beside(lo, y, rows, cols);
      assert Open(s, cols, lo + 1, y);
      ReachStep(s, rows, cols, y * cols + lo, y * cols + lo + 1);
      SpreadRight(s, rows, cols, y, lo + 1, hi);
    }
    assert ReachAt(s, rows, cols, lo, y);
  }

  /** In a stretch of carved cells of one row, the cells west of a reached cell are reached. */
  lemma {:induction false} SpreadLeft(s: seq<Cell>, rows: int, cols: int, y: int, lo: int, hi: int)
    requires GridShape(|s|, rows, cols) && 0 <= y < rows && 0 <= lo <= hi < cols
    requires Reach(s, rows, cols, y * cols + hi)
    requires forall x :: lo <= x <= hi ==> Open(s, cols, x, y)
    ensures forall x :: lo <= x <= hi ==> ReachAt(s, rows, cols, x, y)
    decreases hi - lo
  {
    if lo < hi {
      Beside(hi - 1, y, rows, cols);
      assert Open(s, cols, hi - 1, y);
      ReachStep(s, rows, cols, y * cols + hi, y * cols + hi - 1);
      SpreadLeft(s, rows, cols, y, lo, hi - 1);
    }
    assert ReachAt(s, rows, cols, hi, y);
  }

  // The candidate columns of a closing run

  /** The columns in [lo, hi) whose cell in row y is carved, west to east. */
  ghost function Above(s: seq<Cell>, cols: int, y: int, lo: int, hi: int): (r: seq<int>)
    ensures forall k :: 0 <= k < |r| ==> lo <= r[k] < hi && Open(s, cols, r[k], y)
    ensures |r| <= if lo <= hi then hi - lo else 0
    decreases hi - lo
  {
    if hi <= lo then [] else Above(s, cols, y, lo, hi - 1) + (if Open(s, cols, hi - 1, y) then [hi - 1] else [])
  }

  /** There are no candidates exactly when no cell of the stretch is carved. */
  lemma {:induction false} AboveEmpty(s: seq<Cell>, cols: int, y: int, lo: int, hi: int)
    ensures Above(s, cols, y, lo, hi) == [] <==> forall x :: lo <= x < hi ==> !Open(s, cols, x, y)
    decreases hi - lo
  {
    if lo < hi {
      AboveEmpty(s, cols, y, lo, hi - 1);
      var rest := Above(s, cols, y, lo, hi - 1);
      if Open(s, cols, hi - 1, y) {
        assert Above(s, cols, y, lo, hi) == rest + [hi - 1];
      } else {
        assert Above(s, cols, y, lo, hi) == rest;
      }
    }
  }

  /**
   * The candidate loop: stores, west to east, each column of [runStart, j]
   * whose cell two rows up is carved, and returns how many it stored.
   */
  method OpenAbove(cells: array<Cell>, rows: int, cols: int, i: int, runStart: int, j: int,
                   availableNodes: array<int>)
    returns (numAvailable: int)
    requires GridShape(cells.Length, rows, cols) && Painted(cells[..])
    requires 2 <= i < rows && 0 <= runStart <= j < cols && availableNodes.Length == cols
    modifies availableNodes
    ensures 0 <= numAvailable <= j + 1 - runStart
    ensures availableNodes[..numAvailable] == Above(cells[..], cols, i - 2, runStart, j + 1)
  {
    numAvailable := 0;
    for x := runStart to j + 1
      invariant 0 <= numAvailable <= x - runStart
      invariant availableNodes[..numAvailable] == Above(cells[..], cols, i - 2, runStart, x)
    {
      var coords := Coordinates(x, i - 2);
      var index := GridIndexesToIndex(coords, cols);
      CellIndex(x, i - 2, rows, cols);
      if cells[index].color == RayWhite {
        assert Open(cells[..], cols, x, i - 2);
        ghost var before := availableNodes[..numAvailable];
        availableNodes[numAvailable] := x;
        numAvailable := numAvailable + 1;
        assert availableNodes[..numAvailable] == before + [x];
      } else {
        assert !Open(cells[..], cols, x, i - 2);
      }
    }
  }

  // The state between rows and between columns

  /**
   * The rows above row `top` are carved as a sidewinder leaves them: the
   * first row is carved, every odd row holds only connectors, every even row
   * starts carved and has no two walls side by side, and every even row
   * after the first has a connector north.
   */
  ghost predicate Upper(s: seq<Cell>, cols: int, top: int) {
    RowCarved(s, cols, 0) &&
    (forall y :: 0 < y < top && y % 2 == 1 ==> Connectors(s, cols, y)) &&
    (forall y :: 0 <= y < top && y % 2 == 0 ==> Covered(s, cols, y)) &&
    (forall y :: 2 <= y < top && y % 2 == 0 ==> Linked(s, cols, y - 1))
  }

  /** Carving cells no higher than row `top` keeps the rows above it. */
  lemma UpperKept(s0: seq<Cell>, s1: seq<Cell>, cols: int, top: int)
    requires Upper(s0, cols, top)
    requires forall x, y :: Open(s0, cols, x, y) ==> Open(s1, cols, x, y)
    requires forall x, y :: y < top && Open(s1, cols, x, y) ==> Open(s0, cols, x, y)
    ensures Upper(s1, cols, top)
  {
    forall y | 0 < y < top && y % 2 == 1 ensures Connectors(s1, cols, y) {
      assert Connectors(s0, cols, y);
    }
    forall y | 0 <= y < top && y % 2 == 0 ensures Covered(s1, cols, y) {
      assert Covered(s0, cols, y);
    }
    forall y | 2 <= y < top && y % 2 == 0 ensures Linked(s1, cols, y - 1) {
      assert Linked(s0, cols, y - 1);
    }
  }

  /**
   * Between rows: the rows above row i - 1 are carved (Upper), every cell
   * from row i - 1 on is a wall, and every carved cell is reached from cell 0.
   */
  ghost predicate Rows(s: seq<Cell>, rows: int, cols: int, i: int)
  {
    GridShape(|s|, rows, cols) && 2 <= i && i % 2 == 0 &&
    Painted(s) && Upper(s, cols, i - 1) &&
    (forall c :: (i - 1) * cols <= c < |s| ==> s[c] == WALL) &&
    ConnectedUpTo(s, rows, cols, (i - 1) * cols)
  }

  /**
   * While row i is carved, before column j: the rows above are carved
   * (row i - 1 holds the connectors made so far), every cell from column j of
   * row i on is a wall, the carved part of row i starts at column 0 and has
   * no two walls side by side, the cells of row i below column `linked` are
   * reached from cell 0, and between `linked` and j the carved cells are
   * exactly the pending run from runStart on (the column after a closed run
   * is the skipped wall).
   */
  ghost predicate RowState(s: seq<Cell>, rows: int, cols: int, i: int, j: int, runStart: int, skipNext: bool,
                           linked: int)
  {
    GridShape(|s|, rows, cols) && 2 <= i < rows && i % 2 == 0 && 0 <= j <= cols &&
    Painted(s) && Upper(s, cols, i) &&
    (forall c :: i * cols + j <= c < |s| ==> s[c] == WALL) &&
    (j > 0 ==> Open(s, cols, 0, i)) &&
    (forall x :: 0 <= x && x + 1 < j ==> Open(s, cols, x, i) || Open(s, cols, x + 1, i)) &&
    0 <= linked <= j &&
    (skipNext ==> 0 < j && linked == j && runStart == j + 1) &&
    (!skipNext ==> 0 <= runStart <= j && (linked <= runStart <= linked + 1 || linked == j == cols) &&
                   forall x :: linked <= x < j ==> (Open(s, cols, x, i) <==> runStart <= x)) &&
    (runStart > 0 ==> linked > 0) &&
    (linked > 0 ==> Open(s, cols, linked - 1, i) && Linked(s, cols, i - 1)) &&
    ConnectedUpTo(s, rows, cols, i * cols + linked)
  }

  /** A new row starts with no column carved. */
  lemma RowStart(s: seq<Cell>, rows: int, cols: int, i: int)
    requires Rows(s, rows, cols, i) && i < rows
    ensures RowState(s, rows, cols, i, 0, 0, false, 0)
  {
    EmptyRowUpper(s, rows, cols, i - 1);
    assert i * cols == (i - 1) * cols + cols;
    ConnectedPastWalls(s, rows, cols, (i - 1) * cols, i * cols);
  }

  /** An odd row of walls below the carved rows adds nothing to check. */
  lemma EmptyRowUpper(s: seq<Cell>, rows: int, cols: int, y: int)
    requires GridShape(|s|, rows, cols) && 0 < y && y % 2 == 1 && Upper(s, cols, y)
    requires forall c :: y * cols <= c < |s| ==> s[c] == WALL
    ensures Upper(s, cols, y + 1)
  {
    forall x | 0 <= x < cols ensures !Open(s, cols, x, y) {
      RowBound(x, y, y, cols);
    }
    assert Connectors(s, cols, y);
  }

  /** Cells that are not carved add nothing to reach. */
  lemma ConnectedPastWalls(s: seq<Cell>, rows: int, cols: int, a: int, b: int)
    requires cols > 0 && ConnectedUpTo(s, rows, cols, a)
    requires forall c :: a <= c < b && 0 <= c < |s| ==> s[c] != PATH
    ensures ConnectedUpTo(s, rows, cols, b)
  {
  }

  /** The skipped column stays a wall and the next run starts after it. */
  lemma SkipStep(s: seq<Cell>, rows: int, cols: int, i: int, j: int, runStart: int, linked: int)
    requires RowState(s, rows, cols, i, j, runStart, true, linked) && j < cols
    ensures RowState(s, rows, cols, i, j + 1, runStart, false, linked)
  {
    CellIndex(j, i, rows, cols);
    assert !Open(s, cols, j, i);
  }

  /** Carving cell (j, i) extends the pending run. */
  lemma PaintRunCell(s0: seq<Cell>, s1: seq<Cell>, rows: int, cols: int, i: int, j: int, runStart: int, linked: int)
    requires RowState(s0, rows, cols, i, j, runStart, false, linked) && j < cols
    requires 0 <= i * cols + j < |s0| && s1 == s0[i * cols + j := PATH]
    ensures RowState(s1, rows, cols, i, j + 1, runStart, false, linked)
    ensures runStart <= j && linked <= j
  {
    PaintOpen(s0, s1, rows, cols, j, i);
    UpperKept(s0, s1, cols, i);
    ConnectedGrows(s0, s1, rows, cols, i * cols + linked);
    if linked > 0 {
      assert Linked(s0, cols, i - 1);
    }
  }

  /**
   * A closing run with no carved cell two rows up is a single cell after the
   * first column: row y = i - 2 starts carved and has no two walls side by side.
   */
  lemma NoneAbove(s: seq<Cell>, cols: int, y: int, runStart: int, j: int)
    requires Covered(s, cols, y) && 0 <= runStart <= j < cols
    requires Above(s, cols, y, runStart, j + 1) == []
    ensures runStart == j && 1 <= j
  {
    AboveEmpty(s, cols, y, runStart, j + 1);
  }

  /** The rows above row i stay carved when connector (x, i - 1) joins two carved cells. */
  lemma UpperConnect(s0: seq<Cell>, s1: seq<Cell>, cols: int, i: int, cx: int)
    requires Upper(s0, cols, i) && 2 <= i && i % 2 == 0
    requires Open(s0, cols, cx, i - 2) && Open(s0, cols, cx, i) && Open(s1, cols, cx, i - 1)
    requires forall x, y :: Open(s0, cols, x, y) ==> Open(s1, cols, x, y)
    requires forall x, y :: Open(s1, cols, x, y) && (x != cx || y != i - 1) ==> Open(s0, cols, x, y)
    ensures Upper(s1, cols, i) && Linked(s1, cols, i - 1)
  {
    forall y | 0 < y < i && y % 2 == 1 ensures Connectors(s1, cols, y) {
      assert Connectors(s0, cols, y);
    }
    forall y | 0 <= y < i && y % 2 == 0 ensures Covered(s1, cols, y) {
      assert Covered(s0, cols, y);
    }
    forall y | 2 <= y < i && y % 2 == 0 ensures Linked(s1, cols, y - 1) {
      assert Linked(s0, cols, y - 1);
    }
  }

  /**
   * Once connector (cx, i - 1) is carved above a cell of the pending run
   * [runStart, j] of row i, the whole run is reached from cell 0.
   */
  lemma ConnectReach(s0: seq<Cell>, s1: seq<Cell>, rows: int, cols: int, i: int, j: int, runStart: int,
                     linked: int, cx: int)
    requires GridShape(|s0|, rows, cols) && 2 <= i < rows && 0 <= linked <= runStart <= cx <= j < cols
    requires Painted(s0) && ConnectedUpTo(s0, rows, cols, i * cols + linked) && Open(s0, cols, cx, i - 2)
    requires forall x :: runStart <= x <= j ==> Open(s0, cols, x, i)
    requires forall x :: linked <= x < runStart ==> !Open(s0, cols, x, i)
    requires 0 <= (i - 1) * cols + cx < |s0| && s1 == s0[(i - 1) * cols + cx := PATH]
    ensures ConnectedUpTo(s1, rows, cols, i * cols + j + 1)
  {
    PaintOpen(s0, s1, rows, cols, cx, i - 1);
    var mid := (i - 1) * cols + cx;
    var down := i * cols + cx;
    ConnectorReached(s0, s1, rows, cols, i, linked, cx);
    Stacked(cx, i - 1, rows, cols);
    assert (i - 1 + 1) * cols + cx == down;
    CellIndex(cx, i, rows, cols);
    assert Open(s0, cols, cx, i);
    ReachStep(s1, rows, cols, mid, down);
    SpreadRight(s1, rows, cols, i, cx, j);
    SpreadLeft(s1, rows, cols, i, runStart, cx);
    forall c | 0 <= c < i * cols + j + 1 && c < |s1| && s1[c] == PATH ensures Reach(s1, rows, cols, c) {
      if c == mid {
      } else if c < i * cols + linked {
        ReachGrows(s0, s1, rows, cols, c);
      } else {
        var x := c - i * cols;
        assert Open(s1, cols, x, i);
        assert ReachAt(s1, rows, cols, x, i);
      }
    }
  }

  /** The connector (cx, i - 1) is reached through the carved cell above it. */
  lemma ConnectorReached(s0: seq<Cell>, s1: seq<Cell>, rows: int, cols: int, i: int, linked: int, cx: int)
    requires GridShape(|s0|, rows, cols) && 2 <= i < rows && 0 <= linked && 0 <= cx < cols
    requires Painted(s0) && ConnectedUpTo(s0, rows, cols, i * cols + linked) && Open(s0, cols, cx, i - 2)
    requires 0 <= (i - 1) * cols + cx < |s0| && s1 == s0[(i - 1) * cols + cx := PATH]
    ensures Reach(s1, rows, cols, (i - 1) * cols + cx)
  {
    PaintOpen(s0, s1, rows, cols, cx, i - 1);
    var up := (i - 2) * cols + cx;
    RowBound(cx, i - 2, i, cols);
    ReachGrows(s0, s1, rows, cols, up);
    Stacked(cx, i - 2, rows, cols);
    assert (i - 2 + 1) * cols + cx == (i - 1) * cols + cx;
    ReachStep(s1, rows, cols, up, (i - 1) * cols + cx);
  }

  /** Carving connector (x, i - 1) closes the run: the next column is skipped. */
  lemma ConnectStep(s0: seq<Cell>, s1: seq<Cell>, rows: int, cols: int, i: int, j: int, runStart: int,
                    linked: int, cx: int)
    requires RowState(s0, rows, cols, i, j + 1, runStart, false, linked) && j < cols
    requires linked <= runStart <= cx <= j && Open(s0, cols, cx, i - 2)
    requires 0 <= (i - 1) * cols + cx < |s0| && s1 == s0[(i - 1) * cols + cx := PATH]
    ensures RowState(s1, rows, cols, i, j + 1, j + 2, true, j + 1)
  {
    PaintOpen(s0, s1, rows, cols, cx, i - 1);
    CellIndex(cx, i, rows, cols);
    assert Open(s0, cols, cx, i);
    UpperConnect(s0, s1, cols, i, cx);
    assert forall x :: runStart <= x <= j ==> Open(s0, cols, x, i);
    assert forall x :: linked <= x < runStart ==> !Open(s0, cols, x, i);
    ConnectReach(s0, s1, rows, cols, i, j, runStart, linked, cx);
    RowBound(cx, i - 1, i, cols);
    CellIndex(j, i, rows, cols);
    assert Open(s1, cols, j, i);
  }

  /**
   * At the east edge, a closing run with no carved cell two rows up is
   * joined to its western neighbour by carving cell (j - 1, i).
   */
  lemma Patch(s0: seq<Cell>, s1: seq<Cell>, rows: int, cols: int, i: int, j: int, linked: int)
    requires RowState(s0, rows, cols, i, j + 1, j, false, linked) && j == cols - 1 && 1 <= j && linked <= j
    requires 0 <= i * cols + j - 1 < |s0| && s1 == s0[i * cols + j - 1 := PATH]
    ensures RowState(s1, rows, cols, i, cols, j, false, cols)
  {
    PaintOpen(s0, s1, rows, cols, j - 1, i);
    UpperKept(s0, s1, cols, i);
    assert 1 <= linked && j - 1 <= linked <= j;
    assert Open(s0, cols, j, i) && Open(s0, cols, linked - 1, i);
    PatchReach(s0, s1, rows, cols, i, j, linked);
    assert Linked(s0, cols, i - 1);
  }

  /** The patched cell (j - 1, i) joins the last cell of the row to the reached cell west of it. */
  lemma PatchReach(s0: seq<Cell>, s1: seq<Cell>, rows: int, cols: int, i: int, j: int, linked: int)
    requires GridShape(|s0|, rows, cols) && 0 <= i < rows && j == cols - 1 && 1 <= linked && j - 1 <= linked <= j
    requires Painted(s0) && ConnectedUpTo(s0, rows, cols, i * cols + linked)
    requires Open(s0, cols, j, i) && Open(s0, cols, linked - 1, i)
    requires 0 <= i * cols + j - 1 < |s0| && s1 == s0[i * cols + j - 1 := PATH]
    ensures ConnectedUpTo(s1, rows, cols, i * cols + cols)
  {
    CellIndex(linked - 1, i, rows, cols);
    var west := i * cols + linked - 1;
    assert Grows(s0, s1);
    ReachGrows(s0, s1, rows, cols, west);
    if linked == j - 1 {
      Beside(linked - 1, i, rows, cols);
      ReachStep(s1, rows, cols, west, west + 1);
    }
    Beside(j - 1, i, rows, cols);
    CellIndex(j, i, rows, cols);
    ReachStep(s1, rows, cols, i * cols + j - 1, i * cols + j);
    forall c | 0 <= c < i * cols + cols && c < |s1| && s1[c] == PATH ensures Reach(s1, rows, cols, c) {
      if c < i * cols + linked {
        ReachGrows(s0, s1, rows, cols, c);
      }
    }
  }

  /** A finished row: every cell of it is reached or a wall, and it has a connector north. */
  lemma RowEnd(s: seq<Cell>, rows: int, cols: int, i: int, runStart: int, skipNext: bool, linked: int)
    requires RowState(s, rows, cols, i, cols, runStart, skipNext, linked)
    requires skipNext || linked == cols || runStart == cols
    ensures Rows(s, rows, cols, i + 2)
  {
    assert Covered(s, cols, i);
    assert Linked(s, cols, i - 1);
    assert (i + 1) * cols == i * cols + cols;
    if linked < cols {
      assert runStart == cols;
      forall c | i * cols + linked <= c < i * cols + cols && 0 <= c < |s| ensures s[c] != PATH {
        assert !Open(s, cols, c - i * cols, i);
      }
    }
    ConnectedPastWalls(s, rows, cols, i * cols + linked, (i + 1) * cols);
  }

  /** The first row carved whole, the rest walls. */
  ghost predicate FirstRow(s: seq<Cell>, cols: int, k: int) {
    forall c :: 0 <= c < |s| ==> s[c] == if c < k then PATH else WALL
  }

  lemma FirstRowDone(s: seq<Cell>, rows: int, cols: int)
    requires GridShape(|s|, rows, cols) && FirstRow(s, cols, cols)
    ensures Rows(s, rows, cols, 2)
  {
    MulAtLeast(cols, rows);
    ReachStart(s, rows, cols);
    SpreadRight(s, rows, cols, 0, 0, cols - 1);
    forall c | 0 <= c < cols ensures Reach(s, rows, cols, c) {
      assert ReachAt(s, rows, cols, c, 0);
    }
  }

  /**
   * The finished maze: every cell is a wall or carved, the first row is
   * carved, every odd row holds only connectors, every even row starts
   * carved and has no two walls side by side, every even row after the first
   * has a connector north, and every carved cell is reached from cell 0.
   */
  ghost predicate Maze(s: seq<Cell>, rows: int, cols: int)
    requires cols > 0
  {
    Painted(s) && Upper(s, cols, rows) &&
    forall c :: 0 <= c < |s| && s[c] == PATH ==> Reach(s, rows, cols, c)
  }

  lemma MazeDone(s: seq<Cell>, rows: int, cols: int, i: int)
    requires Rows(s, rows, cols, i) && rows <= i <= rows + 1
    ensures Maze(s, rows, cols)
  {
    if i == rows {
      EmptyRowUpper(s, rows, cols, i - 1);
    }
    ConnectedPastWalls(s, rows, cols, (i - 1) * cols, |s|);
  }

  /**
   * Closes the run [runStart, j] of row i: lists the run columns whose cell
   * two rows up is carved and carves the connector north of one of them,
   * chosen at random; with no such column, a run at the east edge is joined
   * to its western neighbour instead and any other run stays open.
   */
  method CloseRun(cells: array<Cell>, rows: int, cols: int, i: int, j: int, runStart: int, ghost linked: int)
    returns (connected: bool, ghost linked': int)
    requires RowState(cells[..], rows, cols, i, j + 1, runStart, false, linked)
    requires runStart <= j < cols && linked <= j
    modifies cells
    ensures connected ==> RowState(cells[..], rows, cols, i, j + 1, j + 2, true, j + 1)
    ensures !connected ==> RowState(cells[..], rows, cols, i, j + 1, runStart, false, linked')
    ensures !connected && j + 1 == cols ==> linked' == cols
    ensures connected <==> Above(old(cells[..]), cols, i - 2, runStart, j + 1) != []
  {
    var availableNodes := new int[cols];
    var numAvailable := OpenAbove(cells, rows, cols, i, runStart, j, availableNodes);
    linked' := linked;
    if numAvailable == 0 {
      assert Covered(cells[..], cols, i - 2);
      NoneAbove(cells[..], cols, i - 2, runStart, j);
      if j == cols - 1 {
        JoinWest(cells, rows, cols, i, j, linked);
        linked' := cols;
      }
      connected := false;
    } else {
      Connect(cells, rows, cols, i, j, runStart, linked, availableNodes, numAvailable);
      connected := true;
    }
  }

  /** Carves cell (j - 1, i), joining the last cell of row i to its western neighbour. */
  method JoinWest(cells: array<Cell>, rows: int, cols: int, i: int, j: int, ghost linked: int)
    requires RowState(cells[..], rows, cols, i, j + 1, j, false, linked) && j == cols - 1 && 1 <= j && linked <= j
    modifies cells
    ensures RowState(cells[..], rows, cols, i, cols, j, false, cols)
    ensures cells[..] == old(cells[..])[i * cols + j - 1 := PATH]
  {
    var coords := Coordinates(j - 1, i);
    var index := GridIndexesToIndex(coords, cols);
    CellIndex(j - 1, i, rows, cols);
    ghost var before := cells[..];
    cells[index] := cells[index].(color := RayWhite);
    assert cells[..] == before[index := PATH];
    Patch(before, cells[..], rows, cols, i, j, linked);
  }

  /** s1 is s0 with the connector (x, i - 1) carved between the carved cells (x, i - 2) and (x, i). */
  ghost predicate ConnectorAt(s0: seq<Cell>, s1: seq<Cell>, cols: int, i: int, x: int) {
    Open(s0, cols, x, i - 2) && Open(s0, cols, x, i) &&
    0 <= (i - 1) * cols + x < |s0| && s1 == s0[(i - 1) * cols + x := PATH]
  }

  /** Carves the connector north of a randomly chosen candidate column of the run. */
  method Connect(cells: array<Cell>, rows: int, cols: int, i: int, j: int, runStart: int, ghost linked: int,
                 availableNodes: array<int>, numAvailable: int)
    requires RowState(cells[..], rows, cols, i, j + 1, runStart, false, linked)
    requires linked <= runStart <= j < cols
    requires 0 < numAvailable <= availableNodes.Length
    requires availableNodes[..numAvailable] == Above(cells[..], cols, i - 2, runStart, j + 1)
    modifies cells
    ensures RowState(cells[..], rows, cols, i, j + 1, j + 2, true, j + 1)
    ensures exists x :: runStart <= x <= j && ConnectorAt(old(cells[..]), cells[..], cols, i, x)
  {
    var randIndex :| 0 <= randIndex <= numAvailable - 1;
    var x := availableNodes[randIndex];
    assert x == availableNodes[..numAvailable][randIndex];
    var coords := Coordinates(x, i - 1);
    var index := GridIndexesToIndex(coords, cols);
    CellIndex(x, i - 1, rows, cols);
    ghost var before := cells[..];
    cells[index] := cells[index].(color := RayWhite);
    assert cells[..] == before[index := PATH];
    ConnectStep(before, cells[..], rows, cols, i, j, runStart, linked, x);
    CellIndex(x, i, rows, cols);
    assert ConnectorAt(before, cells[..], cols, i, x);
  }

  /**
   * Carves cell (j, i) into the current run and flips a coin (forced at the
   * east edge) to close the run; a run closed by a connector makes the next
   * column a skipped wall.
   */
  method CarveStep(cells: array<Cell>, rows: int, cols: int, i: int, j: int, runStart: int, ghost linked: int)
    returns (runStart': int, skipNext: bool, ghost linked': int)
    requires RowState(cells[..], rows, cols, i, j, runStart, false, linked) && j < cols
    modifies cells
    ensures RowState(cells[..], rows, cols, i, j + 1, runStart', skipNext, linked')
    ensures j + 1 == cols ==> skipNext || linked' == cols
  {
    var coords := Coordinates(j, i);
    var index := GridIndexesToIndex(coords, cols);
    CellIndex(j, i, rows, cols);
    ghost var before := cells[..];
    cells[index] := cells[index].(color := RayWhite);
    assert cells[..] == before[index := PATH];
    PaintRunCell(before, cells[..], rows, cols, i, j, runStart, linked);
    runStart', skipNext, linked' := EndOrExtend(cells, rows, cols, i, j, runStart, linked);
  }

  /** The coin flip after carving (j, i): heads, or the east edge, closes the run. */
  method EndOrExtend(cells: array<Cell>, rows: int, cols: int, i: int, j: int, runStart: int, ghost linked: int)
    returns (runStart': int, skipNext: bool, ghost linked': int)
    requires RowState(cells[..], rows, cols, i, j + 1, runStart, false, linked)
    requires runStart <= j < cols && linked <= j
    modifies cells
    ensures RowState(cells[..], rows, cols, i, j + 1, runStart', skipNext, linked')
    ensures j + 1 == cols ==> skipNext || linked' == cols
  {
    var goEast :| 0 <= goEast <= 1;
    if j == cols - 1 {
      goEast := 0;
    }
    if j + 1 >= cols || goEast == 0 {
      var connected;
      connected, linked' := CloseRun(cells, rows, cols, i, j, runStart, linked);
      if connected {
        runStart', skipNext, linked' := j + 2, true, j + 1;
      } else {
        runStart', skipNext := runStart, false;
      }
    } else {
      runStart', skipNext, linked' := runStart, false, linked;
    }
  }

  /** Carves row i and the connectors of row i - 1, column by column. */
  method CarveRow(cells: array<Cell>, rows: int, cols: int, i: int)
    requires Rows(cells[..], rows, cols, i) && i < rows
    modifies cells
    ensures Rows(cells[..], rows, cols, i + 2)
  {
    var runStartIndex := 0;
    var skipNext := false;
    ghost var linked := 0;
    RowStart(cells[..], rows, cols, i);
    for j := 0 to cols
      invariant RowState(cells[..], rows, cols, i, j, runStartIndex, skipNext, linked)
      invariant j == cols ==> skipNext || linked == cols || runStartIndex == cols
    {
      if !skipNext {
        runStartIndex, skipNext, linked := CarveStep(cells, rows, cols, i, j, runStartIndex, linked);
      } else {
        SkipStep(cells[..], rows, cols, i, j, runStartIndex, linked);
        skipNext := false;
      }
    }
    RowEnd(cells[..], rows, cols, i, runStartIndex, skipNext, linked);
  }

  /**
   * Carves a sidewinder maze into a grid of walls: the whole first row, then
   * every second row, each run closed by a connector north.
   */
  method SidewinderMaze(cells: array<Cell>, rows: int, cols: int)
    requires GridShape(cells.Length, rows, cols) && AllWalls(cells[..])
    modifies cells
    ensures Maze(cells[..], rows, cols)
  {
    for k := 0 to cols
      invariant FirstRow(cells[..], cols, k)
    {
      MulAtLeast(cols, rows);
      cells[k] := cells[k].(color := RayWhite);
    }
    FirstRowDone(cells[..], rows, cols);
    var i := 2;
    while i < rows
      invariant 2 <= i <= rows + 1 && Rows(cells[..], rows, cols, i)
      decreases rows - i
    {
      CarveRow(cells, rows, cols, i);
      i := i + 2;
    }
    MazeDone(cells[..], rows, cols, i);
  }
}
