/**
 * Grid geometry: C integer division, row-major index <-> (x, y) conversion,
 * Manhattan distance and the up/left/down/right neighbour enumeration.
 */
module Geometry {

  datatype Coordinates = Coordinates(x: int, y: int)

  function Absolute(i: int): (r: int)
    ensures r >= 0 && (r == i || r == -i)
  {
    if i < 0 then -i else i
  }

  function ManhattanDistance(a: Coordinates, b: Coordinates): (r: int)
    ensures r >= 0
    ensures r == 0 <==> a == b
  {
    Absolute(a.x - b.x) + Absolute(a.y - b.y)
  }

  /** `a / b` on C ints: the quotient truncated toward zero. */
  function CDiv(a: int, b: int): int
    requires b != 0
  {
    if a >= 0 then
      (if b > 0 then a / b else -(a / -b))
    else
      (if b > 0 then -(-a / b) else -a / -b)
  }

  /** `a % b` on C ints. */
  function CMod(a: int, b: int): int
    requires b != 0
  {
    a - b * CDiv(a, b)
  }

  lemma EuclidNonNegative(a: int, b: int)
    requires a >= 0 && b > 0
    ensures a == b * (a / b) + a % b && 0 <= a % b < b && a / b >= 0
  {
  }

  /** What makes CDiv C's division: the remainder is smaller than |b| and has the sign of a. */
  lemma CDivTruncates(a: int, b: int)
    requires b != 0
    ensures a >= 0 ==> 0 <= CMod(a, b) < Absolute(b)
    ensures a < 0 ==> -Absolute(b) < CMod(a, b) <= 0
    ensures a >= 0 && b > 0 ==> CDiv(a, b) >= 0
  {
    if a >= 0 {
      if b > 0 {
        EuclidNonNegative(a, b);
      } else {
        NegatedDivisor(a, -b);
      }
    } else {
      if b > 0 {
        NegatedDividend(-a, b);
      } else {
        NegatedBoth(-a, -b);
      }
    }
  }

  /** For a >= 0 and d > 0, CMod(a, -d) is a % d. */
  lemma NegatedDivisor(a: int, d: int)
    requires a >= 0 && d > 0
    ensures CMod(a, -d) == a % d && 0 <= a % d < d
  {
    EuclidNonNegative(a, d);
    var q := a / d;
    assert CDiv(a, -d) == -q;
    assert (-d) * (-q) == d * q;
  }

  /** For a >= 0 and b > 0, CMod(-a, b) is -(a % b). */
  lemma NegatedDividend(a: int, b: int)
    requires a >= 0 && b > 0
    ensures CMod(-a, b) == -(a % b) && 0 <= a % b < b
  {
    EuclidNonNegative(a, b);
    var q := a / b;
    assert CDiv(-a, b) == -q;
    assert b * (-q) == -(b * q);
  }

  /** For a >= 0 and d > 0, CMod(-a, -d) is -(a % d). */
  lemma NegatedBoth(a: int, d: int)
    requires a >= 0 && d > 0
    ensures CMod(-a, -d) == -(a % d) && 0 <= a % d < d
  {
    EuclidNonNegative(a, d);
    var q := a / d;
    assert CDiv(-a, -d) == q;
    assert (-d) * q == -(d * q);
  }

  /** c * k >= c when c is positive and k at least 1. */
  lemma MulAtLeast(c: int, k: int)
    requires c > 0 && k >= 1
    ensures c * k >= c
  {
  }

  /** With 0 <= x < cols, the flat index y * cols + x is below rows * cols exactly when y < rows. */
  lemma RowBound(x: int, y: int, rows: int, cols: int)
    requires 0 <= x < cols && 0 <= y
    ensures y * cols + x < rows * cols <==> y < rows
  {
    if y < rows {
      MulAtLeast(cols, rows - y);
      assert rows * cols - y * cols == cols * (rows - y);
    } else {
      assert y * cols - rows * cols == cols * (y - rows);
      if y > rows {
        MulAtLeast(cols, y - rows);
      }
    }
  }

  /** Row-major flattening: y * cols + x. */
  function GridIndexesToIndex(c: Coordinates, cols: int): int {
    c.y * cols + c.x
  }

  function IndexToGridIndexes(index: int, cols: int): (c: Coordinates)
    requires cols != 0
    ensures GridIndexesToIndex(c, cols) == index
    ensures index >= 0 && cols > 0 ==> 0 <= c.x < cols && 0 <= c.y
  {
    CDivTruncates(index, cols);
    Coordinates(CMod(index, cols), CDiv(index, cols))
  }

  /** Within a grid of cols columns, flattening and unflattening are inverse. */
  lemma CoordinatesRoundTrip(c: Coordinates, cols: int)
    requires 0 <= c.x < cols && 0 <= c.y
    ensures IndexToGridIndexes(GridIndexesToIndex(c, cols), cols) == c
  {
    var index := GridIndexesToIndex(c, cols);
    var d := IndexToGridIndexes(index, cols);
    assert cols * (d.y - c.y) == c.x - d.x;
    if d.y > c.y {
      MulAtLeast(cols, d.y - c.y);
    } else if d.y < c.y {
      MulAtLeast(cols, c.y - d.y);
    }
  }

  predicate InGrid(index: int, rows: int, cols: int) {
    0 <= index < rows * cols
  }

  /** Two cells of a rows x cols grid that share a side. */
  predicate Adjacent(a: int, b: int, rows: int, cols: int)
    requires cols > 0
  {
    InGrid(a, rows, cols) && InGrid(b, rows, cols) &&
    ManhattanDistance(IndexToGridIndexes(a, cols), IndexToGridIndexes(b, cols)) == 1
  }

  /** Coordinates of slot 0 (up), 1 (left), 2 (down) or 3 (right) of c. */
  function Step(c: Coordinates, slot: int): Coordinates {
    if slot == 0 then Coordinates(c.x, c.y - 1)
    else if slot == 1 then Coordinates(c.x - 1, c.y)
    else if slot == 2 then Coordinates(c.x, c.y + 1)
    else Coordinates(c.x + 1, c.y)
  }

  /** The guard GetNeighbourIndexes tests before writing slot `slot`. */
  predicate HasNeighbour(index: int, cols: int, rows: int, slot: int)
    requires cols != 0
  {
    var c := IndexToGridIndexes(index, cols);
    (slot == 0 && c.y > 0) || (slot == 1 && c.x > 0) ||
    (slot == 2 && c.y < rows - 1) || (slot == 3 && c.x < cols - 1)
  }

  /** The index GetNeighbourIndexes writes into slot `slot`. */
  function NeighbourIndex(index: int, cols: int, slot: int): int
    requires cols != 0
  {
    GridIndexesToIndex(Step(IndexToGridIndexes(index, cols), slot), cols)
  }

  /**
   * Writes the index of the up, left, down and right neighbour of `index`
   * into slots 0, 1, 2 and 3 of `a`, each only when that neighbour lies in
   * the rows x cols grid; the other slots keep what the caller put there.
   */
  method GetNeighbourIndexes(index: int, cols: int, rows: int, a: array<int>)
    requires cols != 0 && a.Length == 4
    modifies a
    ensures forall slot :: 0 <= slot < 4 ==>
      a[slot] == if HasNeighbour(index, cols, rows, slot) then NeighbourIndex(index, cols, slot) else old(a[slot])
  {
    var gridIndexes := IndexToGridIndexes(index, cols);
    var neighbour: Coordinates;
    // Up
    if gridIndexes.y > 0 {
      neighbour := Coordinates(gridIndexes.x, gridIndexes.y - 1);
      a[0] := GridIndexesToIndex(neighbour, cols);
    }
    // Left
    if gridIndexes.x > 0 {
      neighbour := Coordinates(gridIndexes.x - 1, gridIndexes.y);
      a[1] := GridIndexesToIndex(neighbour, cols);
    }
    // Down
    if gridIndexes.y < rows - 1 {
      neighbour := Coordinates(gridIndexes.x, gridIndexes.y + 1);
      a[2] := GridIndexesToIndex(neighbour, cols);
    }
    // Right
    if gridIndexes.x < cols - 1 {
      neighbour := Coordinates(gridIndexes.x + 1, gridIndexes.y);
      a[3] := GridIndexesToIndex(neighbour, cols);
    }
  }

  /** Every index GetNeighbourIndexes writes is in the grid and at Manhattan distance 1. */
  lemma NeighbourIsAdjacent(index: int, cols: int, rows: int, slot: int)
    requires cols > 0 && InGrid(index, rows, cols) && 0 <= slot < 4
    requires HasNeighbour(index, cols, rows, slot)
    ensures Adjacent(index, NeighbourIndex(index, cols, slot), rows, cols)
  {
    var c := IndexToGridIndexes(index, cols);
    var n := Step(c, slot);
    RowBound(c.x, c.y, rows, cols);
    assert 0 <= n.x < cols && 0 <= n.y < rows;
    RowBound(n.x, n.y, rows, cols);
    CoordinatesRoundTrip(n, cols);
    assert IndexToGridIndexes(NeighbourIndex(index, cols, slot), cols) == n;
    assert ManhattanDistance(c, n) == 1;
  }

  /** Adjacency is symmetric. */
  lemma AdjacentSymmetric(a: int, b: int, rows: int, cols: int)
    requires cols > 0 && Adjacent(a, b, rows, cols)
    ensures Adjacent(b, a, rows, cols)
  {
    var c := IndexToGridIndexes(a, cols);
    var d := IndexToGridIndexes(b, cols);
    assert Absolute(c.x - d.x) == Absolute(d.x - c.x) && Absolute(c.y - d.y) == Absolute(d.y - c.y);
  }

  /** Conversely, every cell adjacent to `index` appears in one of the four slots. */
  lemma AdjacentIsNeighbour(index: int, other: int, cols: int, rows: int) returns (slot: int)
    requires cols > 0 && Adjacent(index, other, rows, cols)
    ensures 0 <= slot < 4 && HasNeighbour(index, cols, rows, slot)
    ensures NeighbourIndex(index, cols, slot) == other
  {
    var c := IndexToGridIndexes(index, cols);
    var d := IndexToGridIndexes(other, cols);
    RowBound(d.x, d.y, rows, cols);
    if d.y < c.y {
      slot := 0;
    } else if d.x < c.x {
      slot := 1;
    } else if d.y > c.y {
      slot := 2;
    } else {
      slot := 3;
    }
    assert Step(c, slot) == d;
  }
}
