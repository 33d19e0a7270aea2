/**
 * Randomized depth-first maze (recursive backtracker, with an explicit
 * stack): pops a carved cell, keeps those of its neighbours that are walled
 * and would not close a loop (at most one carved neighbour of their own),
 * and when any is left pushes the cell back, carves one of them at random
 * and pushes it. GetRandomValue becomes a nondeterministic choice in the
 * same range.
 */
module DfsMaze {
  import opened Cells
  import opened Geometry
  import opened Stacks
  import opened Walks
  import opened Carving

  /**
   * Slot `slot` of cell `index` after the filter: the neighbour when it
   * exists, is still a wall and has at most one carved neighbour itself,
   * else -1.
   */
  function Candidate(index: int, cols: int, rows: int, order: seq<int>, slot: int): int
    requires cols != 0
  {
    if HasNeighbour(index, cols, rows, slot) && NeighbourIndex(index, cols, slot) !in order &&
       CountIn(NeighbourIndex(index, cols, slot), cols, rows, Elems(order), 4) <= 1
    then NeighbourIndex(index, cols, slot) else -1
  }

  /** The number of entries of s other than -1. */
  function Survivors(s: seq<int>): (r: nat)
    ensures r <= |s|
  {
    if s == [] then 0 else Survivors(s[..|s| - 1]) + (if s[|s| - 1] != -1 then 1 else 0)
  }

  /** A surviving candidate is a walled neighbour of a carved cell that closes no loop, so it has exactly one carved neighbour. */
  lemma CandidateCarvable(rows: int, cols: int, index: int, order: seq<int>, slot: int)
    requires cols > 0 && InGrid(index, rows, cols) && index in order && 0 <= slot < 4
    requires Candidate(index, cols, rows, order, slot) != -1
    ensures var c := Candidate(index, cols, rows, order, slot);
      InGrid(c, rows, cols) && c !in order && Adjacent(index, c, rows, cols) &&
      CountIn(c, cols, rows, Elems(order), 4) == 1
  {
    NeighbourIsAdjacent(index, cols, rows, slot);
    NextToCarved(rows, cols, index, slot, Elems(order));
  }

  /** A carved cell none of whose slots survives the filter: the backtracker is done with it. */
  ghost predicate Exhausted(rows: int, cols: int, order: seq<int>, x: int)
    requires cols > 0
  {
    forall slot :: 0 <= slot < 4 ==> Candidate(x, cols, rows, order, slot) == -1
  }

  /** With no survivor every slot holds -1. */
  lemma {:induction false} NoSurvivors(s: seq<int>)
    requires Survivors(s) == 0
    ensures forall k :: 0 <= k < |s| ==> s[k] == -1
  {
    if s != [] {
      var t := s[..|s| - 1];
      NoSurvivors(t);
      assert forall k :: 0 <= k < |t| ==> s[k] == t[k];
    }
  }

  /** Carving one more cell never revives a blanked slot. */
  lemma ExhaustedGrows(rows: int, cols: int, order: seq<int>, c: int, x: int)
    requires cols > 0 && Exhausted(rows, cols, order, x)
    ensures Exhausted(rows, cols, order + [c], x)
  {
    assert Elems(order) <= Elems(order + [c]);
    forall slot | 0 <= slot < 4 && HasNeighbour(x, cols, rows, slot)
      ensures Candidate(x, cols, rows, order + [c], slot) == -1
    {
      assert Candidate(x, cols, rows, order, slot) == -1;
      CountGrows(NeighbourIndex(x, cols, slot), cols, rows, Elems(order), Elems(order + [c]), 4);
    }
  }

  /**
   * One pass of the loop keeps every carved cell that is off the stack
   * exhausted: the popped cell leaves the stack only when it is exhausted,
   * and a new carving keeps blanked slots blank.
   */
  lemma VisitKeeps(rows: int, cols: int, order0: seq<int>, order: seq<int>, rest: seq<Node>, node: Node, t: seq<Node>)
    requires cols > 0
    requires forall x :: x in order0 && x !in IndicesOf(rest + [node]) ==> Exhausted(rows, cols, order0, x)
    requires (order == order0 && t == rest && Exhausted(rows, cols, order0, node.index)) ||
             (exists c :: order == order0 + [c] && t == rest + [node] + [Node(c, 0, 0)])
    ensures forall x :: x in order && x !in IndicesOf(t) ==> Exhausted(rows, cols, order, x)
  {
    IndicesAppend(rest, node);
    if order == order0 && t == rest && Exhausted(rows, cols, order0, node.index) {
    } else {
      var c :| order == order0 + [c] && t == rest + [node] + [Node(c, 0, 0)];
      IndicesAppend(rest + [node], Node(c, 0, 0));
      forall x | x in order && x !in IndicesOf(t) ensures Exhausted(rows, cols, order, x) {
        ExhaustedGrows(rows, cols, order0, c, x);
      }
    }
  }

  /** Once every carved cell is exhausted, the carving is maximal. */
  lemma ExhaustedMaximal(rows: int, cols: int, order: seq<int>)
    requires cols > 0 && Tree(rows, cols, order)
    requires forall x :: x in order ==> Exhausted(rows, cols, order, x)
    ensures Maximal(rows, cols, order)
  {
    forall c | InGrid(c, rows, cols) && c !in order && CountIn(c, cols, rows, Elems(order), 4) >= 1
      ensures CountIn(c, cols, rows, Elems(order), 4) >= 2
    {
      var slot := CountFinds(c, cols, rows, Elems(order), 4);
      var p := NeighbourIndex(c, cols, slot);
      NeighbourIsAdjacent(c, cols, rows, slot);
      AdjacentSymmetric(c, p, rows, cols);
      var back := AdjacentIsNeighbour(p, c, cols, rows);
      assert Candidate(p, cols, rows, order, back) == -1;
    }
  }

  /** The maze. The ghost result is the carving order. */
  method RandomizedDFSMaze(cells: array<Cell>, rows: int, cols: int) returns (ghost order: seq<int>)
    requires GridShape(cells.Length, rows, cols) && AllWalls(cells[..])
    modifies cells
    ensures Tree(rows, cols, order) && Carved(cells[..], order)
    ensures forall c :: c in order ==> exists w :: Route(cells[..], rows, cols, w, order[0], c)
    ensures Maximal(rows, cols, order)
  {
    var size := rows * cols;

    // Start with grid filled with walls and keep track of walls being processed
    var wallList := new Stack.Empty();

    // Random start cell
    var randStartCell :| 0 <= randStartCell <= size - 1;

    // Mark random start cell as maze path
    cells[randStartCell] := cells[randStartCell].(color := RayWhite);
    order := [randStartCell];
    TreeStart(rows, cols, randStartCell);

    var randStartNode := Node(randStartCell, 0, 0);
    var ok := wallList.Push(randStartNode);
    MemberIndex(wallList.Contents(), randStartNode);

    while true
      invariant fresh(wallList) && fresh(wallList.elements) && wallList.Valid()
      invariant Tree(rows, cols, order) && Carved(cells[..], order) && |order| <= cells.Length
      invariant forall e :: e in wallList.Contents() ==> e.index in order
      invariant |wallList.Contents()| <= |order|
      invariant forall x :: x in order && x !in IndicesOf(wallList.Contents()) ==> Exhausted(rows, cols, order, x)
      decreases cells.Length - |order|, |wallList.Contents()|
    {
      var empty := wallList.IsEmpty();
      if empty {
        break;
      }
      ghost var s := wallList.Contents();
      var node := wallList.Pop();
      assert node in s;
      ghost var rest := wallList.Contents();
      assert s == rest + [node];
      assert forall e :: e in rest ==> e in s;
      ghost var order0 := order;
      order := Visit(cells, rows, cols, wallList, node, order);
      VisitKeeps(rows, cols, order0, order, rest, node, wallList.Contents());
    }
    assert IndicesOf(wallList.Contents()) == {};
    ExhaustedMaximal(rows, cols, order);
    TreeIsConnected(cells[..], rows, cols, order);
  }

  /**
   * The body of the loop after the pop: when `node` has a neighbour that
   * can be carved, pushes `node` back, carves one such neighbour c and
   * pushes it; otherwise leaves everything as it was.
   */
  method Visit(cells: array<Cell>, rows: int, cols: int, wallList: Stack, node: Node, ghost order0: seq<int>)
    returns (ghost order: seq<int>)
    requires GridShape(cells.Length, rows, cols) && wallList.Valid()
    requires Tree(rows, cols, order0) && Carved(cells[..], order0) && |order0| <= cells.Length
    requires node.index in order0 && |wallList.Contents()| < |order0|
    modifies cells, wallList, wallList.elements
    ensures wallList.Valid()
    ensures Tree(rows, cols, order) && Carved(cells[..], order) && |order| <= cells.Length
    ensures (order == order0 && wallList.Contents() == old(wallList.Contents()) && cells[..] == old(cells[..]) &&
             Exhausted(rows, cols, order0, node.index)) ||
            (exists c :: order == order0 + [c] && Adjacent(node.index, c, rows, cols) &&
               wallList.Contents() == old(wallList.Contents()) + [node] + [Node(c, 0, 0)])
  {
    assert InGrid(node.index, rows, cols);
    var indexes := new int[4](_ => -1);
    GetNeighbourIndexes(node.index, cols, rows, indexes);
    assert indexes[..] == Slots(node.index, cols, rows);

    var availableNeighbours := FilterNeighbours(cells, rows, cols, indexes, node.index, order0);

    order := order0;
    if availableNeighbours > 0 {
      order := Advance(cells, rows, cols, wallList, node, indexes, availableNeighbours, order0);
    } else {
      NoSurvivors(indexes[..]);
      assert forall slot :: 0 <= slot < 4 ==> indexes[..][slot] == indexes[slot];
    }
  }

  /**
   * The branch taken when `availableNeighbours` slots of `indexes` survived
   * the filter: pushes `node` back, carves one surviving neighbour, chosen
   * at random, and pushes it.
   */
  method Advance(cells: array<Cell>, rows: int, cols: int, wallList: Stack, node: Node, indexes: array<int>,
                 availableNeighbours: int, ghost order0: seq<int>)
    returns (ghost order: seq<int>)
    requires GridShape(cells.Length, rows, cols) && wallList.Valid()
    requires Tree(rows, cols, order0) && Carved(cells[..], order0) && |order0| <= cells.Length
    requires node.index in order0 && InGrid(node.index, rows, cols) && |wallList.Contents()| < |order0|
    requires indexes.Length == 4 && forall slot :: 0 <= slot < 4 ==> indexes[slot] == Candidate(node.index, cols, rows, order0, slot)
    requires 0 < availableNeighbours == Survivors(indexes[..])
    modifies cells, wallList, wallList.elements
    ensures wallList.Valid()
    ensures Tree(rows, cols, order) && Carved(cells[..], order) && |order| <= cells.Length
    ensures exists c :: order == order0 + [c] && Adjacent(node.index, c, rows, cols) &&
              wallList.Contents() == old(wallList.Contents()) + [node] + [Node(c, 0, 0)]
  {
    ghost var s := wallList.Contents();
    var ok := wallList.Push(node);
    assert ok && wallList.Contents() == s + [node];
    var randIndex :| 0 <= randIndex <= availableNeighbours - 1;
    forall slot | 0 <= slot < 4 && indexes[slot] != -1
      ensures 0 <= indexes[slot] < cells.Length && indexes[slot] !in order0
    {
      CandidateCarvable(rows, cols, node.index, order0, slot);
    }
    var foundIndex := SelectNeighbour(cells, indexes, randIndex, order0);

    var c := indexes[foundIndex];
    CandidateCarvable(rows, cols, node.index, order0, foundIndex);
    order := CarveAt(cells, rows, cols, c, order0);
    assert order == order0 + [c] && |s + [node]| < MAX;
    var wall := Node(c, 0, 0);
    ok := wallList.Push(wall);
    assert wallList.Contents() == s + [node] + [wall];
  }

  /**
   * The first `for` loop: blanks (sets to -1) every slot whose neighbour is
   * missing, carved, or has more than one carved neighbour of its own, and
   * counts the slots left.
   */
  method FilterNeighbours(cells: array<Cell>, rows: int, cols: int, indexes: array<int>,
                          ghost index: int, ghost order: seq<int>)
    returns (availableNeighbours: int)
    requires GridShape(cells.Length, rows, cols) && InGrid(index, rows, cols) && Carved(cells[..], order)
    requires indexes.Length == 4 && indexes[..] == Slots(index, cols, rows)
    modifies indexes
    ensures forall slot :: 0 <= slot < 4 ==> indexes[slot] == Candidate(index, cols, rows, order, slot)
    ensures availableNeighbours == Survivors(indexes[..])
  {
    availableNeighbours := 4;
    for i := 0 to 4
      invariant forall slot :: 0 <= slot < i ==> indexes[slot] == Candidate(index, cols, rows, order, slot)
      invariant forall slot :: i <= slot < 4 ==> indexes[slot] == Slots(index, cols, rows)[slot]
      invariant availableNeighbours == 4 - i + Survivors(indexes[..i])
    {
      var blanked := FilterSlot(cells, rows, cols, indexes, i, index, order);
      if blanked {
        availableNeighbours := availableNeighbours - 1;
      }
      assert indexes[..i + 1] == indexes[..i] + [indexes[i]];
    }
    assert indexes[..] == indexes[..4];
  }

  /**
   * One pass of the filter loop: blanks slot i unless its neighbour exists,
   * is a wall and closes no loop, and reports whether it did.
   */
  method FilterSlot(cells: array<Cell>, rows: int, cols: int, indexes: array<int>, i: int,
                    ghost index: int, ghost order: seq<int>)
    returns (blanked: bool)
    requires GridShape(cells.Length, rows, cols) && InGrid(index, rows, cols) && Carved(cells[..], order)
    requires indexes.Length == 4 && 0 <= i < 4 && indexes[i] == Slots(index, cols, rows)[i]
    modifies indexes
    ensures indexes[..] == old(indexes[..])[i := Candidate(index, cols, rows, order, i)]
    ensures blanked <==> indexes[i] == -1
  {
    if HasNeighbour(index, cols, rows, i) {
      NeighbourIsAdjacent(index, cols, rows, i);
    }
    blanked := false;
    if indexes[i] == -1 || cells[indexes[i]].color == RayWhite {
      blanked := true;
      indexes[i] := -1;
    }
    // Check if neighbour would create a loop
    else {
      var createsLoop := WouldCreateLoop(cells, rows, cols, indexes[i], order);
      if createsLoop {
        blanked := true;
        indexes[i] := -1;
      }
    }
  }

  /**
   * The inner loop of the filter: counts the carved neighbours of cell n and
   * reports whether carving n would join more than one carved cell.
   */
  method WouldCreateLoop(cells: array<Cell>, rows: int, cols: int, n: int, ghost order: seq<int>)
    returns (createsLoop: bool)
    requires GridShape(cells.Length, rows, cols) && InGrid(n, rows, cols) && Carved(cells[..], order)
    ensures createsLoop <==> CountIn(n, cols, rows, Elems(order), 4) > 1
  {
    var neighbourIndexes := new int[4](_ => -1);
    GetNeighbourIndexes(n, cols, rows, neighbourIndexes);
    assert neighbourIndexes[..] == Slots(n, cols, rows);
    var neighbourPathCount := CountPathNeighbours(cells, rows, cols, neighbourIndexes, n, order);
    createsLoop := neighbourPathCount > 1;
  }

  /**
   * The second `for` loop: finds the slot of the randIndex-th slot (from 0)
   * not holding -1. The cells of those slots are walls, so the colour test
   * of the loop passes exactly for them.
   */
  method SelectNeighbour(cells: array<Cell>, indexes: array<int>, randIndex: int, ghost order: seq<int>)
    returns (foundIndex: int)
    requires indexes.Length == 4 && 0 <= randIndex < Survivors(indexes[..])
    requires Carved(cells[..], order)
    requires forall slot :: 0 <= slot < 4 && indexes[slot] != -1 ==> 0 <= indexes[slot] < cells.Length && indexes[slot] !in order
    ensures 0 <= foundIndex < 4 && indexes[foundIndex] != -1
    ensures Survivors(indexes[..foundIndex]) == randIndex
  {
    var currIndex := 0;
    foundIndex := 0;

    for i := 0 to 4
      invariant currIndex == Survivors(indexes[..i])
      invariant currIndex > randIndex ==>
        0 <= foundIndex < i && indexes[foundIndex] != -1 && Survivors(indexes[..foundIndex]) == randIndex
    {
      if indexes[i] != -1 && cells[indexes[i]].color != RayWhite {
        if currIndex == randIndex {
          foundIndex := i;
        }
        currIndex := currIndex + 1;
      }
      assert indexes[..i + 1] == indexes[..i] + [indexes[i]];
    }
    assert indexes[..] == indexes[..4];
  }
}
