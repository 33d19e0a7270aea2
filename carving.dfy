/**
 * What the two growing mazes (randomized Prim's and the randomized
 * depth-first backtracker) share: the grid starts as all walls, cells are
 * carved one at a time, and a cell is carved only when exactly one of its
 * four neighbours is already carved. The cells carved so far, in carving
 * order, then form a tree: each cell after the first adds exactly one edge
 * to the cells before it, and every carved cell is reachable from the first
 * through carved cells.
 */
module Carving {
  import opened Cells
  import opened Geometry
  import opened Walks

  const WALL := Cell(Beige, false)
  const PATH := Cell(RayWhite, false)

  function Elems(s: seq<int>): set<int> {
    set x | x in s
  }

  /** Exactly the cells of `order` are carved (unweighted paths); every other cell is still an unweighted wall. */
  ghost predicate Carved(cells: seq<Cell>, order: seq<int>) {
    forall k :: 0 <= k < |cells| ==> cells[k] == if k in order then PATH else WALL
  }

  /** Painting cell c RAYWHITE carves it: the carving order gains c unless c was carved already. */
  lemma CarveCell(s: seq<Cell>, order: seq<int>, c: int)
    requires Carved(s, order) && 0 <= c < |s|
    ensures Carved(s[c := s[c].(color := RayWhite)], if c in order then order else order + [c])
  {
  }

  /** The number of slots below `upto` of cell `index` whose neighbour lies in s. */
  function CountIn(index: int, cols: int, rows: int, s: set<int>, upto: nat): (r: nat)
    requires cols != 0 && upto <= 4
    ensures r <= upto
  {
    if upto == 0 then 0 else
      var here := if HasNeighbour(index, cols, rows, upto - 1) && NeighbourIndex(index, cols, upto - 1) in s then 1 else 0;
      CountIn(index, cols, rows, s, upto - 1) + here
  }

  /** A neighbour in s in one of the slots counted makes the count positive. */
  lemma {:induction false} CountSees(index: int, cols: int, rows: int, s: set<int>, slot: int, upto: nat)
    requires cols != 0 && 0 <= slot < upto <= 4
    requires HasNeighbour(index, cols, rows, slot) && NeighbourIndex(index, cols, slot) in s
    ensures CountIn(index, cols, rows, s, upto) >= 1
  {
    if slot < upto - 1 {
      CountSees(index, cols, rows, s, slot, upto - 1);
    }
  }

  /** Conversely, a positive count names a slot whose neighbour lies in s. */
  lemma {:induction false} CountFinds(index: int, cols: int, rows: int, s: set<int>, upto: nat) returns (slot: int)
    requires cols != 0 && upto <= 4 && CountIn(index, cols, rows, s, upto) > 0
    ensures 0 <= slot < upto && HasNeighbour(index, cols, rows, slot) && NeighbourIndex(index, cols, slot) in s
  {
    if HasNeighbour(index, cols, rows, upto - 1) && NeighbourIndex(index, cols, upto - 1) in s {
      slot := upto - 1;
    } else {
      slot := CountFinds(index, cols, rows, s, upto - 1);
    }
  }

  /** Carving more cells never lowers a count. */
  lemma {:induction false} CountGrows(index: int, cols: int, rows: int, a: set<int>, b: set<int>, upto: nat)
    requires cols != 0 && upto <= 4 && a <= b
    ensures CountIn(index, cols, rows, a, upto) <= CountIn(index, cols, rows, b, upto)
  {
    if upto > 0 {
      CountGrows(index, cols, rows, a, b, upto - 1);
    }
  }

  /**
   * The carving order is a tree: distinct cells of the grid, each one after
   * the first having exactly one neighbour among the cells carved before it.
   */
  ghost predicate Tree(rows: int, cols: int, order: seq<int>)
    requires cols > 0
  {
    |order| >= 1 && Distinct(order) &&
    (forall k :: 0 <= k < |order| ==> InGrid(order[k], rows, cols)) &&
    (forall k :: 0 < k < |order| ==> CountIn(order[k], cols, rows, Elems(order[..k]), 4) == 1)
  }

  lemma TreeStart(rows: int, cols: int, c: int)
    requires cols > 0 && InGrid(c, rows, cols)
    ensures Tree(rows, cols, [c])
  {
  }

  /**
   * The carving cannot grow: every walled cell next to a carved cell has at
   * least two carved neighbours, so carving it would close a loop.
   */
  ghost predicate Maximal(rows: int, cols: int, order: seq<int>)
    requires cols > 0
  {
    forall c :: InGrid(c, rows, cols) && c !in order && CountIn(c, cols, rows, Elems(order), 4) >= 1 ==>
      CountIn(c, cols, rows, Elems(order), 4) >= 2
  }

  /** Carving a new cell with exactly one carved neighbour extends the tree. */
  lemma TreeExtend(rows: int, cols: int, order: seq<int>, c: int)
    requires cols > 0 && Tree(rows, cols, order) && InGrid(c, rows, cols) && c !in order
    requires CountIn(c, cols, rows, Elems(order), 4) == 1
    ensures Tree(rows, cols, order + [c])
  {
    var o := order + [c];
    assert o[..|order|] == order;
    forall k | 0 < k < |order| ensures o[..k] == order[..k] {
    }
  }

  /** A sequence of distinct cells of a grid of n cells has at most n members, and fewer when a cell is left out. */
  lemma {:induction false} DistinctBound(order: seq<int>, n: int, c: int)
    requires Distinct(order) && forall k :: 0 <= k < |order| ==> 0 <= order[k] < n
    requires 0 <= c < n && c !in order
    ensures |order| < n
  {
    ElemsSize(order + [c]);
    SubsetBound(Elems(order + [c]), n);
  }

  lemma {:induction false} ElemsSize(s: seq<int>)
    requires Distinct(s)
    ensures |Elems(s)| == |s|
  {
    if s != [] {
      var t := s[..|s| - 1];
      ElemsSize(t);
      assert Elems(s) == Elems(t) + {s[|s| - 1]} by {
        assert s == t + [s[|s| - 1]];
      }
    }
  }

  /** Each carved cell is reached from the first by a route through carved cells. */
  lemma {:induction false} TreeConnected(grid: seq<Cell>, rows: int, cols: int, order: seq<int>, k: int)
    returns (w: seq<int>)
    requires GridShape(|grid|, rows, cols) && Tree(rows, cols, order) && Carved(grid, order) && 0 <= k < |order|
    ensures Route(grid, rows, cols, w, order[0], order[k])
    decreases k
  {
    if k == 0 {
      w := [order[0]];
    } else {
      var c := order[k];
      var slot := CountFinds(c, cols, rows, Elems(order[..k]), 4);
      var p := NeighbourIndex(c, cols, slot);
      var j :| 0 <= j < k && order[..k][j] == p;
      var w' := TreeConnected(grid, rows, cols, order, j);
      NeighbourIsAdjacent(c, cols, rows, slot);
      AdjacentSymmetric(c, p, rows, cols);
      assert grid[c] == PATH;
      w := w' + [c];
    }
  }

  /** The carved cells are connected. */
  lemma TreeIsConnected(grid: seq<Cell>, rows: int, cols: int, order: seq<int>)
    requires GridShape(|grid|, rows, cols) && Tree(rows, cols, order) && Carved(grid, order)
    ensures forall c :: c in order ==> exists w :: Route(grid, rows, cols, w, order[0], c)
  {
    forall c | c in order ensures exists w :: Route(grid, rows, cols, w, order[0], c) {
      var k :| 0 <= k < |order| && order[k] == c;
      var w := TreeConnected(grid, rows, cols, order, k);
    }
  }

  /** A cell adjacent to a carved cell has a carved neighbour. */
  lemma NextToCarved(rows: int, cols: int, a: int, slot: int, s: set<int>)
    requires cols > 0 && InGrid(a, rows, cols) && 0 <= slot < 4 && HasNeighbour(a, cols, rows, slot) && a in s
    ensures CountIn(NeighbourIndex(a, cols, slot), cols, rows, s, 4) >= 1
  {
    var n := NeighbourIndex(a, cols, slot);
    NeighbourIsAdjacent(a, cols, rows, slot);
    AdjacentSymmetric(a, n, rows, cols);
    var back := AdjacentIsNeighbour(n, a, cols, rows);
    CountSees(n, cols, rows, s, back, 4);
  }

  /** What GetNeighbourIndexes leaves in an array that starts as {-1, -1, -1, -1}. */
  function Slots(index: int, cols: int, rows: int): (a: seq<int>)
    requires cols != 0
    ensures |a| == 4
  {
    seq(4, slot requires 0 <= slot < 4 =>
      if HasNeighbour(index, cols, rows, slot) then NeighbourIndex(index, cols, slot) else -1)
  }

  /**
   * The colour test both growing mazes apply to a slot as written,
   * `cells[indexes[i]].color == RAYWHITE`: it reads the cell the slot names
   * before (or without) any test for -1, so it is defined only for a slot
   * naming a cell of the grid.
   */
  predicate AsWrittenSlotCarved(cells: seq<Cell>, slotValue: int)
    requires 0 <= slotValue < |cells|
  {
    cells[slotValue].color == RayWhite
  }

  /**
   * Every grid has a cell whose slots hold -1 when the colour test reads
   * them: cell 0 has no neighbour up or left, so the test as written reads
   * cells[-1], outside the grid.
   */
  lemma AsWrittenReadsOutsideGrid(rows: int, cols: int)
    requires rows > 0 && cols > 0
    ensures Slots(0, cols, rows)[0] == -1 && Slots(0, cols, rows)[1] == -1
    ensures !(0 <= Slots(0, cols, rows)[0] < rows * cols)
  {
    var c := IndexToGridIndexes(0, cols);
    assert GridIndexesToIndex(Coordinates(0, 0), cols) == 0;
    CoordinatesRoundTrip(Coordinates(0, 0), cols);
    assert c == Coordinates(0, 0);
  }

  /** Slot `slot` of cell `index` once the carved neighbours are blanked: the neighbour if it is still a wall, else -1. */
  function Walled(index: int, cols: int, rows: int, order: seq<int>, slot: int): int
    requires cols != 0
  {
    if HasNeighbour(index, cols, rows, slot) && NeighbourIndex(index, cols, slot) !in order
    then NeighbourIndex(index, cols, slot) else -1
  }

  /**
   * Counts the carved neighbours of `index` from the slots GetNeighbourIndexes
   * filled, and blanks (sets to -1) the slots of carved neighbours, so the
   * slots left hold exactly the neighbours still walled. A slot holding -1
   * counts as not carved.
   */
  method CountPathNeighbours(cells: array<Cell>, rows: int, cols: int, indexes: array<int>,
                             ghost index: int, ghost order: seq<int>)
    returns (count: int)
    requires GridShape(cells.Length, rows, cols) && InGrid(index, rows, cols) && Carved(cells[..], order)
    requires indexes.Length == 4 && indexes[..] == Slots(index, cols, rows)
    modifies indexes
    ensures count == CountIn(index, cols, rows, Elems(order), 4)
    ensures forall slot :: 0 <= slot < 4 ==> indexes[slot] == Walled(index, cols, rows, order, slot)
  {
    count := 0;
    for i := 0 to 4
      invariant count == CountIn(index, cols, rows, Elems(order), i)
      invariant forall slot :: 0 <= slot < i ==> indexes[slot] == Walled(index, cols, rows, order, slot)
      invariant forall slot :: i <= slot < 4 ==> indexes[slot] == Slots(index, cols, rows)[slot]
    {
      if HasNeighbour(index, cols, rows, i) {
        NeighbourIsAdjacent(index, cols, rows, i);
      }
      if indexes[i] != -1 && cells[indexes[i]].color == RayWhite {
        count := count + 1;
        indexes[i] := -1;
      }
    }
  }

  /** Paints cell `index` RAYWHITE; when it was a wall, it joins the carving order and extends the tree. */
  method CarveAt(cells: array<Cell>, rows: int, cols: int, index: int, ghost order0: seq<int>)
    returns (ghost order: seq<int>)
    requires GridShape(cells.Length, rows, cols) && Tree(rows, cols, order0) && Carved(cells[..], order0)
    requires |order0| <= cells.Length
    requires InGrid(index, rows, cols) && CountIn(index, cols, rows, Elems(order0), 4) == 1
    modifies cells
    ensures Tree(rows, cols, order) && Carved(cells[..], order) && |order| <= cells.Length
    ensures index in order && Elems(order0) <= Elems(order)
    ensures order == (if index in order0 then order0 else order0 + [index])
  {
    ghost var before := cells[..];
    cells[index] := cells[index].(color := RayWhite);
    CarveCell(before, order0, index);
    assert cells[..] == before[index := before[index].(color := RayWhite)];
    order := order0;
    if index !in order0 {
      TreeExtend(rows, cols, order0, index);
      DistinctBound(order0, cells.Length, index);
      order := order0 + [index];
    }
  }
}
