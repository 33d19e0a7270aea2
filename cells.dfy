/** Cell and node records shared by the containers, the searches and the maze carvers. */
module Cells {

  /** Capacity of every bounded container and of every visited table (MAX). */
  const MAX: int := 2500

  /** Largest 32-bit int: the "not yet reached" distance of Dijkstra and A*. */
  const INT_MAX: int := 0x7fff_ffff

  /** Cost of stepping onto a weighted cell. */
  const WEIGHTED_COST: int := 10

  /**
   * The four colours the engine reads and writes:
   * RayWhite is an empty (or carved) cell, Beige a wall, SkyBlue a cell the
   * search has put on its frontier, Gold a cell of the reported path.
   */
  datatype Color = RayWhite | Beige | SkyBlue | Gold

  /** A grid cell: its colour and whether it is weighted (layout fields are not modelled). */
  datatype Cell = Cell(color: Color, weighted: bool)

  /** A search or container node; parentIndex -1 means "no parent". */
  datatype Node = Node(index: int, parentIndex: int, distance: int)

  predicate IsWall(c: Cell) {
    c.color == Beige
  }

  /** Cost of the step that enters cell c: 1, or 10 when c is weighted. */
  function Cost(c: Cell): (r: int)
    ensures 1 <= r <= WEIGHTED_COST
  {
    if c.weighted then WEIGHTED_COST else 1
  }

  /** The grid before a search: every cell is either empty or a wall. */
  predicate ResetForSearch(cells: seq<Cell>) {
    forall i :: 0 <= i < |cells| ==> cells[i].color == RayWhite || cells[i].color == Beige
  }

  /** The grid before a maze is carved: every cell is an unweighted wall. */
  predicate AllWalls(cells: seq<Cell>) {
    forall i :: 0 <= i < |cells| ==> cells[i] == Cell(Beige, false)
  }
}
