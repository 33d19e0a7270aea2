/**
 * A*: like Dijkstra, but the heap is ordered by the estimate f = g + h,
 * where g is the distance recorded in the gScore table and h is the
 * Manhattan distance to the end cell. A cell whose g-score drops while its
 * node is already in the heap keeps its old priority: A* here never
 * decreases a priority, it only inserts cells that are not in the heap.
 */
module AStarSearch {
  import opened Cells
  import opened Geometry
  import opened Heap
  import opened Walks
  import opened Relaxing

  /** The heuristic: the Manhattan distance from cell n to the end cell, zero exactly at the end cell. */
  function Estimate(n: int, endIndex: int, cols: int): (r: int)
    requires cols > 0
    ensures r >= 0
    ensures r == 0 <==> n == endIndex
  {
    ManhattanDistance(IndexToGridIndexes(n, cols), IndexToGridIndexes(endIndex, cols))
  }

  /**
   * The fScore table holds g + h for every recorded cell, and no priority in
   * the heap is below the g-score of its cell (priorities can lag behind a
   * lowered g-score, never run ahead of it).
   */
  ghost predicate Estimates(f: seq<Node>, g: seq<Node>, rec: set<int>, h: seq<Node>, endIndex: int, cols: int)
    requires cols > 0
  {
    |f| == MAX && |g| == MAX &&
    (forall n {:trigger f[n]} :: 0 <= n < MAX && n in rec ==> f[n].distance == g[n].distance + Estimate(n, endIndex, cols)) &&
    (forall k :: 0 <= k < |h| ==> 0 <= h[k].index < MAX && h[k].distance >= g[h[k].index].distance)
  }

  lemma EstimatesKept(f: seq<Node>, g: seq<Node>, rec: set<int>, h: seq<Node>, h': seq<Node>, endIndex: int, cols: int)
    requires cols > 0 && Estimates(f, g, rec, h, endIndex, cols)
    requires forall k :: 0 <= k < |h'| ==> h'[k] in h
    ensures Estimates(f, g, rec, h', endIndex, cols)
  {
    forall k | 0 <= k < |h'| ensures 0 <= h'[k].index < MAX && h'[k].distance >= g[h'[k].index].distance {
      assert h'[k] in h;
      var j :| 0 <= j < |h| && h[j] == h'[k];
    }
  }

  /**
   * Lowering the g-score of cell n to x.distance and storing x.distance plus
   * the estimate for n in the fScore table keeps the facts, whether the heap
   * is left alone or gains a node for n whose priority is at least x.distance.
   */
  lemma EstimatesRelaxed(f: seq<Node>, g: seq<Node>, rec: set<int>, h: seq<Node>, h': seq<Node>,
                         endIndex: int, cols: int, n: int, x: Node, fx: Node)
    requires cols > 0 && Estimates(f, g, rec, h, endIndex, cols) && 0 <= n < MAX
    requires x.distance < g[n].distance && fx.distance == x.distance + Estimate(n, endIndex, cols)
    requires forall k :: 0 <= k < |h'| ==> h'[k] in h || (h'[k].index == n && h'[k].distance >= x.distance)
    ensures Estimates(f[n := fx], g[n := x], rec + {n}, h', endIndex, cols)
  {
    var g' := g[n := x];
    forall k | 0 <= k < |h'| ensures 0 <= h'[k].index < MAX && h'[k].distance >= g'[h'[k].index].distance {
      if h'[k] in h {
        var j :| 0 <= j < |h| && h[j] == h'[k];
      }
    }
  }

  /** The search. The ghost results are the gold path, start first, and the cells painted sky blue. */
  method AStar(cells: array<Cell>, rows: int, cols: int, startIndex: int, endIndex: int)
    returns (ghost path: seq<int>, ghost rec: set<int>)
    requires GridShape(cells.Length, rows, cols)
    requires 0 <= startIndex < cells.Length && 0 <= endIndex < cells.Length
    requires ResetForSearch(cells[..])
    modifies cells
    ensures SearchOutcome(old(cells[..]), cells[..], rows, cols, startIndex, endIndex, path, rec)
  {
    ghost var grid := cells[..];
    var minHeap, visited, gScore, fScore;
    minHeap, visited, gScore, fScore, rec := Setup(cells, rows, cols, startIndex, endIndex);
    var solved;
    solved, rec := Explore(cells, rows, cols, endIndex, minHeap, visited, gScore, fScore, grid, startIndex, rec);
    path := [];
    if solved {
      path := PaintFound(cells, rows, cols, visited, endIndex, grid, Distances(gScore[..]), rec, startIndex);
    } else {
      SettlingDone(grid, rows, cols, startIndex, visited[..], gScore[..], rec);
      ClosedOutcome(grid, cells[..], rows, cols, startIndex, endIndex, visited[..], Distances(gScore[..]), rec);
    }
  }

  /**
   * The search loop: extracts and relaxes until the heap is empty or the end
   * cell's g-score was lowered.
   */
  method Explore(cells: array<Cell>, rows: int, cols: int, endIndex: int,
                 minHeap: MinHeap, visited: array<Node>, gScore: array<Node>, fScore: array<Node>,
                 ghost grid: seq<Cell>, ghost start: int, ghost rec0: set<int>)
    returns (solved: bool, ghost rec: set<int>)
    requires GridShape(cells.Length, rows, cols) && |grid| == cells.Length && ResetForSearch(grid)
    requires 0 <= endIndex < |grid|
    requires minHeap.Valid() && HeapOrdered(minHeap.Contents())
    requires visited.Length == MAX && gScore.Length == MAX && fScore.Length == MAX
    requires minHeap.elements != visited && minHeap.elements != gScore && minHeap.elements != fScore
    requires visited != gScore && visited != fScore && gScore != fScore
    requires SeenColouring(cells[..], grid, rec0) && (endIndex in rec0 ==> endIndex == start)
    requires Settling(grid, rows, cols, start, visited[..], gScore[..], rec0, minHeap.Contents(), {})
    requires Estimates(fScore[..], gScore[..], rec0, minHeap.Contents(), endIndex, cols)
    modifies cells, minHeap, minHeap.elements, visited, gScore, fScore
    ensures SeenColouring(cells[..], grid, rec)
    ensures solved ==> endIndex in rec && endIndex != start &&
                       ParentForest(grid, rows, cols, visited[..], Distances(gScore[..]), rec, start)
    ensures !solved ==> (endIndex in rec ==> endIndex == start) &&
                        Settling(grid, rows, cols, start, visited[..], gScore[..], rec, [], {})
  {
    rec := rec0;
    solved := false;
    while true
      invariant minHeap.Valid() && HeapOrdered(minHeap.Contents()) && !solved
      invariant SeenColouring(cells[..], grid, rec) && (endIndex in rec ==> endIndex == start)
      invariant Settling(grid, rows, cols, start, visited[..], gScore[..], rec, minHeap.Contents(), {})
      invariant Estimates(fScore[..], gScore[..], rec, minHeap.Contents(), endIndex, cols)
      decreases Potential(gScore[..], |grid|), |minHeap.Contents()|
    {
      var empty := minHeap.IsEmpty();
      if empty {
        break;
      }
      SettlingPotential(grid, rows, cols, start, visited[..], gScore[..], rec, minHeap.Contents(), {});
      // Take the node of least estimate and relax its neighbours
      solved, rec := ExtractAndRelax(cells, rows, cols, endIndex, minHeap, visited, gScore, fScore, grid, start, rec);
      // Reached the end
      if solved {
        break;
      }
    }
  }

  /**
   * The set-up of the search: both score tables start out at INT_MAX with no
   * parent, the start node (distance 0) is the only heap node, its g-score
   * is 0 and its f-score the Manhattan distance to the end cell.
   */
  method Setup(cells: array<Cell>, rows: int, cols: int, startIndex: int, endIndex: int)
    returns (minHeap: MinHeap, visited: array<Node>, gScore: array<Node>, fScore: array<Node>, ghost rec: set<int>)
    requires GridShape(cells.Length, rows, cols)
    requires 0 <= startIndex < cells.Length && 0 <= endIndex < cells.Length
    requires ResetForSearch(cells[..])
    modifies cells
    ensures fresh(minHeap) && fresh(minHeap.elements) && fresh(visited) && fresh(gScore) && fresh(fScore)
    ensures visited != gScore && visited != fScore && gScore != fScore
    ensures minHeap.elements != visited && minHeap.elements != gScore && minHeap.elements != fScore
    ensures minHeap.Valid() && HeapOrdered(minHeap.Contents()) && minHeap.Contents() == [Node(startIndex, -1, 0)]
    ensures visited.Length == MAX && gScore.Length == MAX && fScore.Length == MAX
    ensures rec == {startIndex} && SeenColouring(cells[..], old(cells[..]), rec)
    ensures Settling(old(cells[..]), rows, cols, startIndex, visited[..], gScore[..], rec, minHeap.Contents(), {})
    ensures Estimates(fScore[..], gScore[..], rec, minHeap.Contents(), endIndex, cols)
  {
    var start := Node(startIndex, -1, 0);
    minHeap := new MinHeap();
    visited := new Node[MAX];
    gScore := new Node[MAX];
    fScore := new Node[MAX];

    InitScores(gScore, fScore);

    minHeap.Insert(start);
    visited[startIndex] := start;
    cells[startIndex] := cells[startIndex].(color := SkyBlue);

    gScore[startIndex] := gScore[startIndex].(distance := 0);
    var startCoord := IndexToGridIndexes(startIndex, cols);
    var endCoord := IndexToGridIndexes(endIndex, cols);
    fScore[startIndex] := fScore[startIndex].(distance := ManhattanDistance(startCoord, endCoord));
    rec := {startIndex};
    OnlyNode(minHeap.Contents(), start);
    SettlingStart(old(cells[..]), rows, cols, startIndex, visited[..], gScore[..], minHeap.Contents());
  }

  /** Sets every entry of both score tables to distance INT_MAX with no parent. */
  method InitScores(gScore: array<Node>, fScore: array<Node>)
    requires gScore != fScore && gScore.Length == fScore.Length
    modifies gScore, fScore
    ensures forall k :: 0 <= k < gScore.Length ==> gScore[k].distance == INT_MAX && gScore[k].parentIndex == -1
    ensures forall k :: 0 <= k < fScore.Length ==> fScore[k].distance == INT_MAX && fScore[k].parentIndex == -1
  {
    for i := 0 to gScore.Length
      invariant forall k :: 0 <= k < i ==> gScore[k].distance == INT_MAX && gScore[k].parentIndex == -1
      invariant forall k :: 0 <= k < i ==> fScore[k].distance == INT_MAX && fScore[k].parentIndex == -1
    {
      gScore[i] := gScore[i].(distance := INT_MAX, parentIndex := -1);
      fScore[i] := fScore[i].(distance := INT_MAX, parentIndex := -1);
    }
  }

  /** One turn of the search loop: extracts the node of least estimate and relaxes its neighbours. */
  method ExtractAndRelax(cells: array<Cell>, rows: int, cols: int, endIndex: int,
                         minHeap: MinHeap, visited: array<Node>, gScore: array<Node>, fScore: array<Node>,
                         ghost grid: seq<Cell>, ghost start: int, ghost rec0: set<int>)
    returns (solved: bool, ghost rec: set<int>)
    requires GridShape(cells.Length, rows, cols) && |grid| == cells.Length && ResetForSearch(grid)
    requires 0 <= endIndex < |grid|
    requires minHeap.Valid() && HeapOrdered(minHeap.Contents()) && minHeap.Contents() != []
    requires visited.Length == MAX && gScore.Length == MAX && fScore.Length == MAX
    requires minHeap.elements != visited && minHeap.elements != gScore && minHeap.elements != fScore
    requires visited != gScore && visited != fScore && gScore != fScore
    requires SeenColouring(cells[..], grid, rec0) && (endIndex in rec0 ==> endIndex == start)
    requires Settling(grid, rows, cols, start, visited[..], gScore[..], rec0, minHeap.Contents(), {})
    requires Estimates(fScore[..], gScore[..], rec0, minHeap.Contents(), endIndex, cols)
    modifies cells, minHeap, minHeap.elements, visited, gScore, fScore
    ensures minHeap.Valid() && HeapOrdered(minHeap.Contents()) && SeenColouring(cells[..], grid, rec)
    ensures solved ==> endIndex in rec && endIndex != start &&
                       ParentForest(grid, rows, cols, visited[..], Distances(gScore[..]), rec, start)
    ensures !solved ==> (endIndex in rec ==> endIndex == start) &&
                        Settling(grid, rows, cols, start, visited[..], gScore[..], rec, minHeap.Contents(), {}) &&
                        Estimates(fScore[..], gScore[..], rec, minHeap.Contents(), endIndex, cols)
    ensures Potential(gScore[..], |grid|) < Potential(old(gScore[..]), |grid|) ||
            (gScore[..] == old(gScore[..]) && |minHeap.Contents()| < |old(minHeap.Contents())|)
  {
    var current := TakeMin(minHeap, visited, gScore, fScore, grid, rows, cols, start, rec0, endIndex);
    solved, rec := Relax(cells, rows, cols, endIndex, current, minHeap, visited, gScore, fScore, grid, start, rec0);
  }

  /** Extracts the node of least estimate; its cell is recorded, and the facts of the loop hold for what is left. */
  method TakeMin(minHeap: MinHeap, visited: array<Node>, gScore: array<Node>, fScore: array<Node>,
                 ghost grid: seq<Cell>, ghost rows: int, ghost cols: int, ghost start: int, ghost rec: set<int>,
                 ghost endIndex: int)
    returns (current: Node)
    requires GridShape(|grid|, rows, cols)
    requires minHeap.Valid() && HeapOrdered(minHeap.Contents()) && minHeap.Contents() != []
    requires visited.Length == MAX && gScore.Length == MAX && fScore.Length == MAX
    requires minHeap.elements != visited && minHeap.elements != gScore && minHeap.elements != fScore
    requires Settling(grid, rows, cols, start, visited[..], gScore[..], rec, minHeap.Contents(), {})
    requires Estimates(fScore[..], gScore[..], rec, minHeap.Contents(), endIndex, cols)
    modifies minHeap, minHeap.elements
    ensures minHeap.Valid() && HeapOrdered(minHeap.Contents())
    ensures |minHeap.Contents()| < |old(minHeap.Contents())|
    ensures current.index in rec && 0 <= current.index < |grid|
    ensures Settling(grid, rows, cols, start, visited[..], gScore[..], rec, minHeap.Contents(), {current.index})
    ensures Estimates(fScore[..], gScore[..], rec, minHeap.Contents(), endIndex, cols)
  {
    ghost var h := minHeap.Contents();
    current := minHeap.ExtractMin();
    ghost var h' := minHeap.Contents();
    SettlingExtract(grid, rows, cols, start, visited[..], gScore[..], rec, h, h', current);
    AfterExtract(h, h', current);
    EstimatesKept(fScore[..], gScore[..], rec, h, h', endIndex, cols);
    ghost var k :| 0 <= k < |h| && h[k] == current;
  }

  /**
   * The body of the search loop after the extraction: for each of the four
   * neighbour slots of `current` whose cell is not a wall, lowers its
   * g-score when the way through `current` is shorter, recording the new
   * parent and estimate and inserting the cell if it is not in the heap;
   * stops at the end cell.
   */
  method Relax(cells: array<Cell>, rows: int, cols: int, endIndex: int, current: Node,
               minHeap: MinHeap, visited: array<Node>, gScore: array<Node>, fScore: array<Node>,
               ghost grid: seq<Cell>, ghost start: int, ghost rec0: set<int>)
    returns (solved: bool, ghost rec: set<int>)
    requires GridShape(cells.Length, rows, cols) && |grid| == cells.Length && ResetForSearch(grid)
    requires 0 <= endIndex < |grid|
    requires minHeap.Valid() && HeapOrdered(minHeap.Contents())
    requires visited.Length == MAX && gScore.Length == MAX && fScore.Length == MAX
    requires minHeap.elements != visited && minHeap.elements != gScore && minHeap.elements != fScore
    requires visited != gScore && visited != fScore && gScore != fScore
    requires SeenColouring(cells[..], grid, rec0) && (endIndex in rec0 ==> endIndex == start)
    requires current.index in rec0 && 0 <= current.index < |grid|
    requires Settling(grid, rows, cols, start, visited[..], gScore[..], rec0, minHeap.Contents(), {current.index})
    requires Estimates(fScore[..], gScore[..], rec0, minHeap.Contents(), endIndex, cols)
    modifies cells, minHeap, minHeap.elements, visited, gScore, fScore
    ensures minHeap.Valid() && HeapOrdered(minHeap.Contents()) && SeenColouring(cells[..], grid, rec)
    ensures solved ==> endIndex in rec && endIndex != start &&
                       ParentForest(grid, rows, cols, visited[..], Distances(gScore[..]), rec, start)
    ensures !solved ==> (endIndex in rec ==> endIndex == start) &&
                        Settling(grid, rows, cols, start, visited[..], gScore[..], rec, minHeap.Contents(), {}) &&
                        Estimates(fScore[..], gScore[..], rec, minHeap.Contents(), endIndex, cols)
    ensures Potential(gScore[..], |grid|) < Potential(old(gScore[..]), |grid|) ||
            (gScore[..] == old(gScore[..]) && minHeap.Contents() == old(minHeap.Contents()))
  {
    var a := current.index;
    var indexes := new int[4](_ => -1);
    GetNeighbourIndexes(a, cols, rows, indexes);
    rec := rec0;
    solved := false;
    ghost var g0 := gScore[..];
    var i := 0;
    while i < 4
      invariant 0 <= i <= 4 && !solved && a in rec
      invariant minHeap.Valid() && HeapOrdered(minHeap.Contents()) && SeenColouring(cells[..], grid, rec)
      invariant endIndex in rec ==> endIndex == start
      invariant Settling(grid, rows, cols, start, visited[..], gScore[..], rec, minHeap.Contents(), {a})
      invariant Estimates(fScore[..], gScore[..], rec, minHeap.Contents(), endIndex, cols)
      invariant SlotsIn(grid, rows, cols, a, rec, i)
      invariant Potential(gScore[..], |grid|) < Potential(g0, |grid|) ||
                (gScore[..] == g0 && minHeap.Contents() == old(minHeap.Contents()))
      modifies cells, minHeap, minHeap.elements, visited, gScore, fScore
    {
      solved, rec := RelaxSlot(cells, rows, cols, endIndex, a, i, indexes[i], minHeap, visited, gScore, fScore,
                               grid, start, rec);
      if solved {
        break;
      }
      i := i + 1;
    }
    if !solved {
      SettlingExpanded(grid, rows, cols, start, visited[..], gScore[..], rec, minHeap.Contents(), a);
    }
  }

  /** One slot of the relaxing loop: `neighbourIndex` is what GetNeighbourIndexes left in slot `slot` for cell a. */
  method RelaxSlot(cells: array<Cell>, rows: int, cols: int, endIndex: int, a: int, slot: int, neighbourIndex: int,
                   minHeap: MinHeap, visited: array<Node>, gScore: array<Node>, fScore: array<Node>,
                   ghost grid: seq<Cell>, ghost start: int, ghost rec0: set<int>)
    returns (solved: bool, ghost rec: set<int>)
    requires GridShape(cells.Length, rows, cols) && |grid| == cells.Length && ResetForSearch(grid)
    requires 0 <= endIndex < |grid|
    requires minHeap.Valid() && HeapOrdered(minHeap.Contents())
    requires visited.Length == MAX && gScore.Length == MAX && fScore.Length == MAX
    requires minHeap.elements != visited && minHeap.elements != gScore && minHeap.elements != fScore
    requires visited != gScore && visited != fScore && gScore != fScore
    requires SeenColouring(cells[..], grid, rec0) && (endIndex in rec0 ==> endIndex == start)
    requires a in rec0 && 0 <= a < |grid|
    requires Settling(grid, rows, cols, start, visited[..], gScore[..], rec0, minHeap.Contents(), {a})
    requires Estimates(fScore[..], gScore[..], rec0, minHeap.Contents(), endIndex, cols)
    requires 0 <= slot < 4 && SlotsIn(grid, rows, cols, a, rec0, slot)
    requires neighbourIndex == if HasNeighbour(a, cols, rows, slot) then NeighbourIndex(a, cols, slot) else -1
    modifies cells, minHeap, minHeap.elements, visited, gScore, fScore
    ensures minHeap.Valid() && HeapOrdered(minHeap.Contents()) && SeenColouring(cells[..], grid, rec) && a in rec
    ensures solved ==> endIndex in rec && endIndex != start &&
                       ParentForest(grid, rows, cols, visited[..], Distances(gScore[..]), rec, start)
    ensures !solved ==> (endIndex in rec ==> endIndex == start) &&
                        Settling(grid, rows, cols, start, visited[..], gScore[..], rec, minHeap.Contents(), {a}) &&
                        Estimates(fScore[..], gScore[..], rec, minHeap.Contents(), endIndex, cols) &&
                        SlotsIn(grid, rows, cols, a, rec, slot + 1)
    ensures Potential(gScore[..], |grid|) < Potential(old(gScore[..]), |grid|) ||
            (gScore[..] == old(gScore[..]) && minHeap.Contents() == old(minHeap.Contents()))
  {
    SlotIsNeighbour(grid, rows, cols, a, slot);
    rec := rec0;
    solved := false;
    if neighbourIndex != -1 && cells[neighbourIndex].color != Beige {
      var n := neighbourIndex;
      assert cells[n].weighted == grid[n].weighted && (n in rec || !IsWall(grid[n]));
      var cost := 1;
      if cells[n].weighted {
        cost := 10;
      }
      var tentativeScore := gScore[a].distance + cost;
      if tentativeScore < gScore[n].distance {
        rec := Improve(cells, rows, cols, endIndex, a, slot, n, tentativeScore, minHeap, visited, gScore, fScore,
                       grid, start, rec);
        if n == endIndex {
          solved := true;
        }
      } else {
        SettlingSkip(grid, rows, cols, start, visited[..], gScore[..], rec, minHeap.Contents(), a, slot);
      }
    } else {
      if HasNeighbour(a, cols, rows, slot) {
        assert cells[neighbourIndex] == grid[neighbourIndex];
      }
      SettlingSkip(grid, rows, cols, start, visited[..], gScore[..], rec, minHeap.Contents(), a, slot);
    }
  }

  /**
   * Records the lower g-score tentativeScore of cell n, reached from a
   * through slot `slot`, in visited and gScore, and its estimate in fScore;
   * a cell not yet in the heap is inserted with that estimate as its
   * priority and painted sky blue, a cell already in the heap keeps its node.
   */
  method Improve(cells: array<Cell>, rows: int, cols: int, endIndex: int, a: int, slot: int, n: int,
                 tentativeScore: int,
                 minHeap: MinHeap, visited: array<Node>, gScore: array<Node>, fScore: array<Node>,
                 ghost grid: seq<Cell>, ghost start: int, ghost rec0: set<int>)
    returns (ghost rec: set<int>)
    requires GridShape(cells.Length, rows, cols) && |grid| == cells.Length && 0 <= endIndex < |grid|
    requires minHeap.Valid() && HeapOrdered(minHeap.Contents())
    requires visited.Length == MAX && gScore.Length == MAX && fScore.Length == MAX
    requires minHeap.elements != visited && minHeap.elements != gScore && minHeap.elements != fScore
    requires visited != gScore && visited != fScore && gScore != fScore
    requires SeenColouring(cells[..], grid, rec0)
    requires Settling(grid, rows, cols, start, visited[..], gScore[..], rec0, minHeap.Contents(), {a})
    requires Estimates(fScore[..], gScore[..], rec0, minHeap.Contents(), endIndex, cols)
    requires a in rec0 && 0 <= slot < 4 && HasNeighbour(a, cols, rows, slot) && SlotsIn(grid, rows, cols, a, rec0, slot)
    requires n == NeighbourIndex(a, cols, slot) && 0 <= n < |grid| && Adjacent(a, n, rows, cols)
    requires n in rec0 || !IsWall(grid[n])
    requires tentativeScore == gScore[a].distance + Cost(grid[n]) && tentativeScore < gScore[n].distance
    modifies cells, minHeap, minHeap.elements, visited, gScore, fScore
    ensures rec == rec0 + {n} && n != start
    ensures minHeap.Valid() && HeapOrdered(minHeap.Contents()) && SeenColouring(cells[..], grid, rec)
    ensures gScore[..] == old(gScore[..])[n := Node(n, a, tentativeScore)]
    ensures visited[..] == old(visited[..])[n := Node(n, a, tentativeScore)]
    ensures fScore[..] == old(fScore[..])[n := Node(n, a, tentativeScore + Estimate(n, endIndex, cols))]
    ensures Settling(grid, rows, cols, start, visited[..], gScore[..], rec, minHeap.Contents(), {a})
    ensures Estimates(fScore[..], gScore[..], rec, minHeap.Contents(), endIndex, cols)
    ensures SlotsIn(grid, rows, cols, a, rec, slot + 1)
    ensures Potential(gScore[..], |grid|) < Potential(old(gScore[..]), |grid|)
  {
    ghost var h := minHeap.Contents();
    ghost var v := visited[..];
    ghost var g := gScore[..];
    ghost var f := fScore[..];
    var gNeighbour := Node(n, a, tentativeScore);
    visited[n] := gNeighbour;
    gScore[n] := gNeighbour;

    var startCoord := IndexToGridIndexes(n, cols);
    var goal := IndexToGridIndexes(endIndex, cols);
    var estimatedCostToGoal := ManhattanDistance(startCoord, goal);

    var fNeighbour := Node(n, a, tentativeScore + estimatedCostToGoal);
    fScore[n] := fNeighbour;
    assert fNeighbour == Node(n, a, tentativeScore + Estimate(n, endIndex, cols));
    assert fScore[..] == f[n := fNeighbour];

    QueueIfAbsent(cells, minHeap, fNeighbour, h, v, g, grid, rows, cols, start, rec0, a);
    SettlingRelax(grid, rows, cols, start, v, g, rec0, h, minHeap.Contents(), a, slot, gNeighbour);
    EstimatesRelaxed(f, g, rec0, h, minHeap.Contents(), endIndex, cols, n, gNeighbour, fNeighbour);
    rec := rec0 + {n};
  }

  /**
   * The heap step of Improve: a cell whose node is not in the heap is
   * inserted with its estimate as priority and painted sky blue; a cell
   * already in the heap leaves the heap and the cells as they are.
   */
  method QueueIfAbsent(cells: array<Cell>, minHeap: MinHeap, fNeighbour: Node,
                       ghost h: seq<Node>, ghost v: seq<Node>, ghost g: seq<Node>, ghost grid: seq<Cell>,
                       ghost rows: int, ghost cols: int, ghost start: int, ghost rec: set<int>, ghost a: int)
    requires GridShape(cells.Length, rows, cols) && |grid| == cells.Length && 0 <= fNeighbour.index < |grid|
    requires minHeap.Valid() && HeapOrdered(minHeap.Contents()) && minHeap.Contents() == h
    requires SeenColouring(cells[..], grid, rec) && Settling(grid, rows, cols, start, v, g, rec, h, {a})
    modifies cells, minHeap, minHeap.elements
    ensures minHeap.Valid() && HeapOrdered(minHeap.Contents())
    ensures SeenColouring(cells[..], grid, rec + {fNeighbour.index})
    ensures fNeighbour.index in IndicesOf(h) ==> minHeap.Contents() == h && cells[..] == old(cells[..])
    ensures Unique(minHeap.Contents()) && IndicesOf(minHeap.Contents()) == IndicesOf(h) + {fNeighbour.index}
    ensures forall k :: 0 <= k < |minHeap.Contents()| ==>
      minHeap.Contents()[k] in h || (minHeap.Contents()[k].index == fNeighbour.index && minHeap.Contents()[k].distance == fNeighbour.distance)
    ensures forall k :: 0 <= k < |minHeap.Contents()| ==> minHeap.Contents()[k].index in rec + {fNeighbour.index}
  {
    var found := InsertIfAbsent(minHeap, fNeighbour, h, v, g, grid, rows, cols, start, rec, a);
    PaintUnlessFound(cells, fNeighbour.index, found, grid, rec);
  }

  /** A cell the heap already holds is recorded, and every node of the heap belongs to a recorded cell. */
  lemma HeldKept(grid: seq<Cell>, rows: int, cols: int, start: int, v: seq<Node>, g: seq<Node>,
                 rec: set<int>, h: seq<Node>, a: int, n: int)
    requires GridShape(|grid|, rows, cols) && Settling(grid, rows, cols, start, v, g, rec, h, {a})
    requires n in IndicesOf(h)
    ensures n in rec && Unique(h)
    ensures forall k :: 0 <= k < |h| ==> h[k].index in rec
  {
    var k :| 0 <= k < |h| && h[k].index == n;
    assert h[k].index in rec;
  }

  /** Find, stated over the heap's contents: whether some node of the heap belongs to cell n. */
  method Holds(minHeap: MinHeap, n: int) returns (found: bool)
    requires minHeap.Valid()
    ensures found <==> n in IndicesOf(minHeap.Contents())
    ensures forall k :: 0 <= k < |minHeap.Contents()| && !found ==> minHeap.Contents()[k].index != n
  {
    found := minHeap.Find(n);
    HeapHolds(minHeap.Contents(), n);
  }

  /** The heap half of QueueIfAbsent: inserts the node unless the heap holds a node of its cell, and says which. */
  method InsertIfAbsent(minHeap: MinHeap, fNeighbour: Node,
                        ghost h: seq<Node>, ghost v: seq<Node>, ghost g: seq<Node>, ghost grid: seq<Cell>,
                        ghost rows: int, ghost cols: int, ghost start: int, ghost rec: set<int>, ghost a: int)
    returns (found: bool)
    requires GridShape(|grid|, rows, cols) && 0 <= fNeighbour.index < |grid|
    requires minHeap.Valid() && HeapOrdered(minHeap.Contents()) && minHeap.Contents() == h
    requires Settling(grid, rows, cols, start, v, g, rec, h, {a})
    modifies minHeap, minHeap.elements
    ensures minHeap.Valid() && HeapOrdered(minHeap.Contents())
    ensures found <==> fNeighbour.index in IndicesOf(h)
    ensures found ==> minHeap.Contents() == h && fNeighbour.index in rec
    ensures Unique(minHeap.Contents()) && IndicesOf(minHeap.Contents()) == IndicesOf(h) + {fNeighbour.index}
    ensures forall k :: 0 <= k < |minHeap.Contents()| ==>
      minHeap.Contents()[k] in h || (minHeap.Contents()[k].index == fNeighbour.index && minHeap.Contents()[k].distance == fNeighbour.distance)
    ensures forall k :: 0 <= k < |minHeap.Contents()| ==> minHeap.Contents()[k].index in rec + {fNeighbour.index}
  {
    var n := fNeighbour.index;
    found := Holds(minHeap, n);
    if !found {
      InsertHeapNode(minHeap, fNeighbour, h, v, g, grid, rows, cols, start, rec, a);
    } else {
      HeldKept(grid, rows, cols, start, v, g, rec, h, a, n);
      assert minHeap.Contents() == h;
    }
  }
}
