/**
 * Dijkstra: expands cells in order of least distance from the start, using
 * the min-heap, relaxing the distance of each open neighbour by the cost of
 * entering it (1, or 10 when weighted), and paints the recorded path gold as
 * soon as the end cell's distance is lowered.
 */
module DijkstraSearch {
  import opened Cells
  import opened Geometry
  import opened Heap
  import opened Walks
  import opened Relaxing

  /** Every heap node carries the current distance of its cell in the table v. */
  ghost predicate Mirrors(h: seq<Node>, v: seq<Node>) {
    forall k :: 0 <= k < |h| ==> 0 <= h[k].index < |v| && h[k].distance == v[h[k].index].distance
  }

  lemma MirrorsKept(h: seq<Node>, h': seq<Node>, v: seq<Node>)
    requires Mirrors(h, v) && forall k :: 0 <= k < |h'| ==> h'[k] in h
    ensures Mirrors(h', v)
  {
    forall k | 0 <= k < |h'| ensures 0 <= h'[k].index < |v| && h'[k].distance == v[h'[k].index].distance {
      var j :| 0 <= j < |h| && h[j] == h'[k];
    }
  }

  /** After the distance of n became x.distance, a heap whose node for n carries it still mirrors the table. */
  lemma MirrorsRelaxed(h: seq<Node>, h': seq<Node>, v: seq<Node>, n: int, x: Node)
    requires Mirrors(h, v) && 0 <= n < |v| && x.index == n
    requires forall k :: 0 <= k < |h'| ==>
      (h'[k].index == n ==> h'[k].distance == x.distance) && (h'[k].index != n ==> h'[k] in h)
    ensures Mirrors(h', v[n := x])
  {
    forall k | 0 <= k < |h'| && h'[k].index != n
      ensures 0 <= h'[k].index < |v| && h'[k].distance == v[h'[k].index].distance
    {
      var j :| 0 <= j < |h| && h[j] == h'[k];
    }
  }

  /** No route from the start reaches x more cheaply than the distance g records for x. */
  ghost predicate Cheapest(grid: seq<Cell>, rows: int, cols: int, start: int, g: seq<Node>, x: int)
    requires cols > 0
  {
    0 <= x < |g| && forall w :: Route(grid, rows, cols, w, start, x) ==> g[x].distance <= RouteCost(grid, w)
  }

  /**
   * Why the distances are least. `settled` holds the cells extracted so far,
   * among them those being expanded (`current`); every recorded cell outside
   * it is in the heap h, whose distances are all at least `front`, the
   * distance of the last extraction, as are those of `current`; every other
   * settled cell has relaxed all its open neighbours; no route reaches a
   * settled cell more cheaply than its distance; and every recorded cell but
   * the start has a settled parent and costs exactly the parent's distance
   * plus the cost of entering it.
   */
  ghost predicate Settled(grid: seq<Cell>, rows: int, cols: int, start: int, g: seq<Node>,
                          rec: set<int>, settled: set<int>, h: seq<Node>, front: int, current: set<int>)
    requires GridShape(|grid|, rows, cols)
  {
    |g| == MAX && settled <= rec && current <= settled &&
    (forall x :: x in rec && x !in settled ==> x in IndicesOf(h)) &&
    (forall k :: 0 <= k < |h| ==> front <= h[k].distance) &&
    (forall x :: x in current ==> 0 <= x < |grid| && front <= g[x].distance) &&
    (forall x {:trigger RelaxedSlots(grid, rows, cols, g, x, 4)} ::
      x in settled && x !in current ==> RelaxedSlots(grid, rows, cols, g, x, 4)) &&
    (forall x {:trigger Cheapest(grid, rows, cols, start, g, x)} ::
      x in settled ==> Cheapest(grid, rows, cols, start, g, x)) &&
    (forall x {:trigger ParentSettled(g, settled, x)} :: x in rec && x != start ==> ParentSettled(g, settled, x)) &&
    CostForest(grid, g, rec, start)
  }

  ghost predicate ParentSettled(g: seq<Node>, settled: set<int>, x: int) {
    0 <= x < |g| && g[x].parentIndex in settled
  }

  /** Before the first extraction only the start is recorded, and it is in the heap. */
  lemma SettledStart(grid: seq<Cell>, rows: int, cols: int, start: int, g: seq<Node>, h: seq<Node>)
    requires GridShape(|grid|, rows, cols) && |g| == MAX && h == [Node(start, -1, 0)]
    ensures Settled(grid, rows, cols, start, g, {start}, {}, h, 0, {})
  {
    assert h[0].index == start;
  }

  /**
   * Every route from the start to a cell that is not settled costs at least
   * `front`: its last step out of the settled cells leads either from a cell
   * being expanded, of distance at least `front`, or from a relaxed cell to
   * a recorded one, which waits in the heap at a distance of at least
   * `front`.
   */
  lemma {:induction false} FrontierCost(grid: seq<Cell>, rows: int, cols: int, start: int, g: seq<Node>,
                                        rec: set<int>, settled: set<int>, h: seq<Node>, front: int,
                                        current: set<int>, w: seq<int>, y: int)
    requires GridShape(|grid|, rows, cols) && Settling(grid, rows, cols, start, g, g, rec, h, current)
    requires Settled(grid, rows, cols, start, g, rec, settled, h, front, current) && Mirrors(h, g)
    requires Route(grid, rows, cols, w, start, y) && y !in settled
    ensures front <= RouteCost(grid, w)
    decreases |w|
  {
    if |w| == 1 {
      FrontierStart(grid, rows, cols, start, g, rec, settled, h, front, current, w, y);
    } else {
      RoutePrefix(grid, rows, cols, w, start, y);
      var p, w' := w[|w| - 2], w[..|w| - 1];
      assert w == w' + [y];
      RouteCostAppend(grid, w', y);
      if p !in settled {
        FrontierCost(grid, rows, cols, start, g, rec, settled, h, front, current, w', p);
      } else {
        FrontierLeave(grid, rows, cols, start, g, rec, settled, h, front, current, w', p, y);
      }
    }
  }

  /** The one-cell route: the start, when not settled, waits in the heap at distance 0. */
  lemma FrontierStart(grid: seq<Cell>, rows: int, cols: int, start: int, g: seq<Node>,
                      rec: set<int>, settled: set<int>, h: seq<Node>, front: int,
                      current: set<int>, w: seq<int>, y: int)
    requires GridShape(|grid|, rows, cols) && Settling(grid, rows, cols, start, g, g, rec, h, current)
    requires Settled(grid, rows, cols, start, g, rec, settled, h, front, current) && Mirrors(h, g)
    requires Route(grid, rows, cols, w, start, y) && y !in settled && |w| == 1
    ensures front <= RouteCost(grid, w)
  {
    assert y == start && start in rec && RouteCost(grid, w) == 0;
    var k :| 0 <= k < |h| && h[k].index == start;
    assert front <= h[k].distance == g[start].distance == 0;
  }

  /** The last step of a route leaving the settled cells, from p to y. */
  lemma FrontierLeave(grid: seq<Cell>, rows: int, cols: int, start: int, g: seq<Node>,
                      rec: set<int>, settled: set<int>, h: seq<Node>, front: int,
                      current: set<int>, w: seq<int>, p: int, y: int)
    requires GridShape(|grid|, rows, cols) && Settling(grid, rows, cols, start, g, g, rec, h, current)
    requires Settled(grid, rows, cols, start, g, rec, settled, h, front, current) && Mirrors(h, g)
    requires Route(grid, rows, cols, w, start, p) && p in settled
    requires 0 <= y < |grid| && Adjacent(p, y, rows, cols) && !IsWall(grid[y]) && y !in settled
    ensures front <= RouteCost(grid, w) + Cost(grid[y])
  {
    assert Cheapest(grid, rows, cols, start, g, p);
    assert g[p].distance <= RouteCost(grid, w);
    if p !in current {
      assert RelaxedSlots(grid, rows, cols, g, p, 4);
      RelaxedReaches(grid, rows, cols, start, g, g, rec, h, current, p, y);
      var slot := AdjacentIsNeighbour(p, y, cols, rows);
      assert HasNeighbour(p, cols, rows, slot) && NeighbourIndex(p, cols, slot) == y;
      assert g[y].distance <= g[p].distance + Cost(grid[y]);
      var k :| 0 <= k < |h| && h[k].index == y;
      assert front <= h[k].distance == g[y].distance;
    } else {
      assert front <= g[p].distance;
    }
  }

  /**
   * Extracting r, a node of least distance, settles its cell: no route is
   * cheaper than its distance, since every route to a cell outside the
   * settled ones costs at least the least distance in the heap.
   */
  lemma SettledExtract(grid: seq<Cell>, rows: int, cols: int, start: int, g: seq<Node>, rec: set<int>,
                       settled: set<int>, h: seq<Node>, h': seq<Node>, front: int, r: Node)
    requires GridShape(|grid|, rows, cols) && Settling(grid, rows, cols, start, g, g, rec, h, {})
    requires Settled(grid, rows, cols, start, g, rec, settled, h, front, {}) && Mirrors(h, g)
    requires multiset(h') == multiset(h) - multiset{r} && r in h
    requires forall k :: 0 <= k < |h| ==> r.distance <= h[k].distance
    ensures Settled(grid, rows, cols, start, g, rec, settled + {r.index}, h', r.distance, {r.index})
  {
    AfterExtract(h, h', r);
    var k :| 0 <= k < |h| && h[k] == r;
    var u := r.index;
    assert u in rec && g[u].distance == r.distance;
    assert Settled(grid, rows, cols, start, g, rec, settled, h, r.distance, {});
    if u !in settled {
      forall w | Route(grid, rows, cols, w, start, u) ensures g[u].distance <= RouteCost(grid, w) {
        FrontierCost(grid, rows, cols, start, g, rec, settled, h, r.distance, {}, w, u);
      }
    }
    assert Cheapest(grid, rows, cols, start, g, u);
    forall x | x in rec && x != start ensures ParentSettled(g, settled + {u}, x) {
      assert ParentSettled(g, settled, x);
    }
  }

  /**
   * A settled cell n next to a recorded cell a is no farther than through a:
   * the chain of parents to a and the step to n make a route of that cost.
   */
  lemma SettledFinal(grid: seq<Cell>, rows: int, cols: int, start: int, g: seq<Node>, rec: set<int>,
                     settled: set<int>, h: seq<Node>, front: int, current: set<int>, a: int, n: int)
    requires GridShape(|grid|, rows, cols) && Settling(grid, rows, cols, start, g, g, rec, h, current)
    requires Settled(grid, rows, cols, start, g, rec, settled, h, front, current)
    requires a in rec && 0 <= n < |grid| && Adjacent(a, n, rows, cols) && !IsWall(grid[n])
    ensures n in settled ==> g[n].distance <= g[a].distance + Cost(grid[n])
  {
    var rank := Distances(g);
    ChainCost(grid, rows, cols, start, g, rec, a);
    ChainIsRoute(grid, rows, cols, g, rank, rec, start, a);
    var c := Chain(grid, rows, cols, g, rank, rec, start, a);
    RouteExtend(grid, rows, cols, c, start, a, n);
    RouteCostAppend(grid, c, n);
    if n in settled {
      assert Cheapest(grid, rows, cols, start, g, n);
    }
  }

  /**
   * Relaxing the open neighbour n in slot `slot` of the cell a being
   * expanded keeps the cost facts: n cannot be settled (its distance would
   * already be no greater), and the heap afterwards holds n at its new
   * distance and the nodes it held before.
   */
  lemma SettledRelax(grid: seq<Cell>, rows: int, cols: int, start: int, g: seq<Node>, rec: set<int>,
                     settled: set<int>, h: seq<Node>, h': seq<Node>, front: int, a: int, slot: int, x: Node)
    requires GridShape(|grid|, rows, cols) && Settling(grid, rows, cols, start, g, g, rec, h, {a})
    requires Settled(grid, rows, cols, start, g, rec, settled, h, front, {a})
    requires a in rec && 0 <= slot < 4 && HasNeighbour(a, cols, rows, slot) && RelaxedSlots(grid, rows, cols, g, a, slot)
    requires var n := NeighbourIndex(a, cols, slot);
      0 <= n < |grid| && Adjacent(a, n, rows, cols) && !IsWall(grid[n]) &&
      x == Node(n, a, g[a].distance + Cost(grid[n])) && x.distance < g[n].distance
    requires var n := NeighbourIndex(a, cols, slot);
      IndicesOf(h') == IndicesOf(h) + {n} &&
      forall k :: 0 <= k < |h'| ==> (h'[k].index == n ==> h'[k].distance == x.distance) && (h'[k].index != n ==> h'[k] in h)
    ensures var n := NeighbourIndex(a, cols, slot);
      Settled(grid, rows, cols, start, g[n := x], rec + {n}, settled, h', front, {a}) &&
      RelaxedSlots(grid, rows, cols, g[n := x], a, slot + 1)
  {
    var n := NeighbourIndex(a, cols, slot);
    SettledFinal(grid, rows, cols, start, g, rec, settled, h, front, {a}, a, n);
    RelaxedLowered(grid, rows, cols, g, a, slot, n, x);
    SettledLowered(grid, rows, cols, start, g, rec, settled, h, h', front, a, n, x);
  }

  /** The bookkeeping half of SettledRelax, once n is known not to be settled. */
  lemma SettledLowered(grid: seq<Cell>, rows: int, cols: int, start: int, g: seq<Node>, rec: set<int>,
                       settled: set<int>, h: seq<Node>, h': seq<Node>, front: int, a: int, n: int, x: Node)
    requires GridShape(|grid|, rows, cols) && Settled(grid, rows, cols, start, g, rec, settled, h, front, {a})
    requires 0 <= n < |grid| && n !in settled && x == Node(n, a, g[a].distance + Cost(grid[n])) && x.distance < g[n].distance
    requires IndicesOf(h') == IndicesOf(h) + {n}
    requires forall k :: 0 <= k < |h'| ==> (h'[k].index == n ==> h'[k].distance == x.distance) && (h'[k].index != n ==> h'[k] in h)
    ensures Settled(grid, rows, cols, start, g[n := x], rec + {n}, settled, h', front, {a})
  {
    var g', rec' := g[n := x], rec + {n};
    assert a in settled && a != n && g'[a] == g[a];
    forall y | y in settled && y != a ensures RelaxedSlots(grid, rows, cols, g', y, 4) {
      RelaxedLowered(grid, rows, cols, g, y, 4, n, x);
    }
    forall y | y in settled ensures Cheapest(grid, rows, cols, start, g', y) {
      assert Cheapest(grid, rows, cols, start, g, y);
    }
    forall y | y in rec' && y != start ensures CostStep(grid, g', y) {
      if y != n {
        assert CostStep(grid, g, y) && ParentSettled(g, settled, y);
      }
    }
    forall k | 0 <= k < |h'| ensures front <= h'[k].distance {
      if h'[k].index != n {
        var j :| 0 <= j < |h| && h[j] == h'[k];
      }
    }
    assert forall y :: y in rec' && y !in settled ==> y in IndicesOf(h');
    forall y | y in rec' && y != start ensures ParentSettled(g', settled, y) {
      if y != n {
        assert ParentSettled(g, settled, y);
      }
    }
  }

  /**
   * When the relaxed neighbour n was not recorded yet, no route to n costs
   * less than the way through the cell a being expanded: the step into n
   * leaves either a (a route to a that costs at least a's distance) or a
   * cell outside the settled ones (at least `front`, a's distance), never
   * another settled cell, which would have recorded n already.
   */
  lemma SolvedLeast(grid: seq<Cell>, rows: int, cols: int, start: int, g: seq<Node>, rec: set<int>,
                    settled: set<int>, h: seq<Node>, a: int, n: int)
    requires GridShape(|grid|, rows, cols) && Settling(grid, rows, cols, start, g, g, rec, h, {a})
    requires a in rec && 0 <= n < |grid|
    requires Settled(grid, rows, cols, start, g, rec, settled, h, g[a].distance, {a}) && Mirrors(h, g)
    ensures n !in rec ==>
      forall w :: Route(grid, rows, cols, w, start, n) ==> g[a].distance + Cost(grid[n]) <= RouteCost(grid, w)
  {
    if n !in rec {
      forall w | Route(grid, rows, cols, w, start, n) ensures g[a].distance + Cost(grid[n]) <= RouteCost(grid, w) {
        assert n != start;
        RoutePrefix(grid, rows, cols, w, start, n);
        var p, w' := w[|w| - 2], w[..|w| - 1];
        assert w == w' + [n];
        RouteCostAppend(grid, w', n);
        if p in settled {
          RelaxedReaches(grid, rows, cols, start, g, g, rec, h, {a}, p, n);
          assert p == a && Cheapest(grid, rows, cols, start, g, p);
        } else {
          FrontierCost(grid, rows, cols, start, g, rec, settled, h, g[a].distance, {a}, w', p);
        }
      }
    }
  }

  /** The search. The ghost results are the gold path, start first, and the cells painted sky blue. */
  method Dijkstra(cells: array<Cell>, rows: int, cols: int, startIndex: int, endIndex: int)
    returns (ghost path: seq<int>, ghost rec: set<int>)
    requires GridShape(cells.Length, rows, cols)
    requires 0 <= startIndex < cells.Length && 0 <= endIndex < cells.Length
    requires ResetForSearch(cells[..])
    modifies cells
    ensures SearchOutcome(old(cells[..]), cells[..], rows, cols, startIndex, endIndex, path, rec)
    ensures path != [] ==> forall w :: Route(old(cells[..]), rows, cols, w, startIndex, endIndex) ==>
      RouteCost(old(cells[..]), path) <= RouteCost(old(cells[..]), w)
  {
    ghost var grid := cells[..];
    var start := Node(startIndex, -1, 0);
    var minHeap := new MinHeap();
    var visited := new Node[MAX];
    var solved := false;

    InitVisited(visited);
    minHeap.Insert(start);
    visited[startIndex] := start;
    cells[startIndex] := cells[startIndex].(color := SkyBlue);
    rec := {startIndex};
    OnlyNode(minHeap.Contents(), start);
    SettlingStart(grid, rows, cols, startIndex, visited[..], visited[..], minHeap.Contents());
    SettledStart(grid, rows, cols, startIndex, visited[..], minHeap.Contents());
    solved, rec := Explore(cells, rows, cols, endIndex, minHeap, visited, grid, startIndex, rec);
    path := [];
    if solved {
      ChainCost(grid, rows, cols, startIndex, visited[..], rec, endIndex);
      path := PaintFound(cells, rows, cols, visited, endIndex, grid, Distances(visited[..]), rec, startIndex);
    } else {
      SettlingDone(grid, rows, cols, startIndex, visited[..], visited[..], rec);
      ClosedOutcome(grid, cells[..], rows, cols, startIndex, endIndex, visited[..], Distances(visited[..]), rec);
    }
  }

  /** Sets every distance of the table to INT_MAX and every parent to -1. */
  method InitVisited(visited: array<Node>)
    modifies visited
    ensures forall k :: 0 <= k < visited.Length ==> visited[k].distance == INT_MAX && visited[k].parentIndex == -1
  {
    for i := 0 to visited.Length
      invariant forall k :: 0 <= k < i ==> visited[k].distance == INT_MAX && visited[k].parentIndex == -1
    {
      visited[i] := visited[i].(distance := INT_MAX, parentIndex := -1);
    }
  }

  /**
   * The search loop: extracts and relaxes until the heap is empty or the end
   * cell's distance was lowered.
   */
  method Explore(cells: array<Cell>, rows: int, cols: int, endIndex: int,
                 minHeap: MinHeap, visited: array<Node>,
                 ghost grid: seq<Cell>, ghost start: int, ghost rec0: set<int>)
    returns (solved: bool, ghost rec: set<int>)
    requires GridShape(cells.Length, rows, cols) && |grid| == cells.Length && ResetForSearch(grid)
    requires minHeap.Valid() && visited.Length == MAX && minHeap.elements != visited
    requires HeapOrdered(minHeap.Contents())
    requires SeenColouring(cells[..], grid, rec0) && (endIndex in rec0 ==> endIndex == start)
    requires Settling(grid, rows, cols, start, visited[..], visited[..], rec0, minHeap.Contents(), {})
    requires Settled(grid, rows, cols, start, visited[..], rec0, {}, minHeap.Contents(), 0, {})
    requires Mirrors(minHeap.Contents(), visited[..])
    modifies cells, minHeap, minHeap.elements, visited
    ensures SeenColouring(cells[..], grid, rec)
    ensures solved ==> endIndex in rec && endIndex != start &&
                       ParentForest(grid, rows, cols, visited[..], Distances(visited[..]), rec, start) &&
                       visited[start].distance == 0 && CostForest(grid, visited[..], rec, start) &&
                       Cheapest(grid, rows, cols, start, visited[..], endIndex)
    ensures !solved ==> (endIndex in rec ==> endIndex == start) &&
                        Settling(grid, rows, cols, start, visited[..], visited[..], rec, [], {})
  {
    rec := rec0;
    solved := false;
    ghost var settled, front := {}, 0;
    while true
      invariant minHeap.Valid() && HeapOrdered(minHeap.Contents()) && !solved
      invariant SeenColouring(cells[..], grid, rec) && (endIndex in rec ==> endIndex == start)
      invariant Settling(grid, rows, cols, start, visited[..], visited[..], rec, minHeap.Contents(), {})
      invariant Settled(grid, rows, cols, start, visited[..], rec, settled, minHeap.Contents(), front, {})
      invariant Mirrors(minHeap.Contents(), visited[..])
      decreases Potential(visited[..], |grid|), |minHeap.Contents()|
    {
      var empty := minHeap.IsEmpty();
      if empty {
        break;
      }
      SettlingPotential(grid, rows, cols, start, visited[..], visited[..], rec, minHeap.Contents(), {});
      // Take the node of least distance and relax its neighbours
      solved, rec, settled, front :=
        ExtractAndRelax(cells, rows, cols, endIndex, minHeap, visited, grid, start, rec, settled, front);
      // Reached the end
      if solved {
        break;
      }
    }
  }

  /** One turn of the search loop: extracts the node of least distance and relaxes its neighbours. */
  method ExtractAndRelax(cells: array<Cell>, rows: int, cols: int, endIndex: int,
                         minHeap: MinHeap, visited: array<Node>,
                         ghost grid: seq<Cell>, ghost start: int, ghost rec0: set<int>,
                         ghost settled0: set<int>, ghost front0: int)
    returns (solved: bool, ghost rec: set<int>, ghost settled: set<int>, ghost front: int)
    requires GridShape(cells.Length, rows, cols) && |grid| == cells.Length && ResetForSearch(grid)
    requires minHeap.Valid() && visited.Length == MAX && minHeap.elements != visited
    requires HeapOrdered(minHeap.Contents()) && minHeap.Contents() != []
    requires SeenColouring(cells[..], grid, rec0) && (endIndex in rec0 ==> endIndex == start)
    requires Settling(grid, rows, cols, start, visited[..], visited[..], rec0, minHeap.Contents(), {})
    requires Settled(grid, rows, cols, start, visited[..], rec0, settled0, minHeap.Contents(), front0, {})
    requires Mirrors(minHeap.Contents(), visited[..])
    modifies cells, minHeap, minHeap.elements, visited
    ensures minHeap.Valid() && HeapOrdered(minHeap.Contents()) && SeenColouring(cells[..], grid, rec)
    ensures solved ==> endIndex in rec && endIndex != start &&
                       ParentForest(grid, rows, cols, visited[..], Distances(visited[..]), rec, start) &&
                       visited[start].distance == 0 && CostForest(grid, visited[..], rec, start) &&
                       Cheapest(grid, rows, cols, start, visited[..], endIndex)
    ensures !solved ==> (endIndex in rec ==> endIndex == start) &&
                        Settling(grid, rows, cols, start, visited[..], visited[..], rec, minHeap.Contents(), {}) &&
                        Settled(grid, rows, cols, start, visited[..], rec, settled, minHeap.Contents(), front, {}) &&
                        Mirrors(minHeap.Contents(), visited[..])
    ensures Potential(visited[..], |grid|) < Potential(old(visited[..]), |grid|) ||
            (visited[..] == old(visited[..]) && |minHeap.Contents()| < |old(minHeap.Contents())|)
  {
    var current := TakeMin(minHeap, visited, grid, rows, cols, start, rec0, settled0, front0);
    settled, front := settled0 + {current.index}, current.distance;
    solved, rec := Relax(cells, rows, cols, endIndex, current, minHeap, visited, grid, start, rec0, settled);
  }

  /** Extracts the node of least distance; its cell is recorded, and the facts of the loop hold for what is left. */
  method TakeMin(minHeap: MinHeap, visited: array<Node>,
                 ghost grid: seq<Cell>, ghost rows: int, ghost cols: int, ghost start: int, ghost rec: set<int>,
                 ghost settled: set<int>, ghost front: int)
    returns (current: Node)
    requires GridShape(|grid|, rows, cols)
    requires minHeap.Valid() && HeapOrdered(minHeap.Contents()) && minHeap.Contents() != []
    requires visited.Length == MAX && minHeap.elements != visited
    requires Settling(grid, rows, cols, start, visited[..], visited[..], rec, minHeap.Contents(), {})
    requires Settled(grid, rows, cols, start, visited[..], rec, settled, minHeap.Contents(), front, {})
    requires Mirrors(minHeap.Contents(), visited[..])
    modifies minHeap, minHeap.elements
    ensures minHeap.Valid() && HeapOrdered(minHeap.Contents())
    ensures |minHeap.Contents()| < |old(minHeap.Contents())|
    ensures current.index in rec && 0 <= current.index < |grid|
    ensures current.distance == visited[current.index].distance
    ensures Settling(grid, rows, cols, start, visited[..], visited[..], rec, minHeap.Contents(), {current.index})
    ensures Settled(grid, rows, cols, start, visited[..], rec, settled + {current.index}, minHeap.Contents(),
                    current.distance, {current.index})
    ensures Mirrors(minHeap.Contents(), visited[..])
  {
    ghost var h := minHeap.Contents();
    ghost var g := visited[..];
    current := minHeap.ExtractMin();
    assert visited[..] == g;
    Extracted(grid, rows, cols, start, g, rec, settled, h, minHeap.Contents(), front, current);
  }

  /** What TakeMin ensures, once ExtractMin has taken r out of h, leaving h'. */
  lemma Extracted(grid: seq<Cell>, rows: int, cols: int, start: int, g: seq<Node>, rec: set<int>,
                  settled: set<int>, h: seq<Node>, h': seq<Node>, front: int, r: Node)
    requires GridShape(|grid|, rows, cols) && Settling(grid, rows, cols, start, g, g, rec, h, {})
    requires Settled(grid, rows, cols, start, g, rec, settled, h, front, {}) && Mirrors(h, g)
    requires multiset(h') == multiset(h) - multiset{r} && r in h
    requires forall k :: 0 <= k < |h| ==> r.distance <= h[k].distance
    ensures r.index in rec && 0 <= r.index < |grid| && r.distance == g[r.index].distance
    ensures Settling(grid, rows, cols, start, g, g, rec, h', {r.index})
    ensures Settled(grid, rows, cols, start, g, rec, settled + {r.index}, h', r.distance, {r.index})
    ensures Mirrors(h', g)
  {
    SettlingExtract(grid, rows, cols, start, g, g, rec, h, h', r);
    SettledExtract(grid, rows, cols, start, g, rec, settled, h, h', front, r);
    AfterExtract(h, h', r);
    MirrorsKept(h, h', g);
    var k :| 0 <= k < |h| && h[k] == r;
  }

  /**
   * The body of the search loop after the extraction: for each of the four
   * neighbour slots of `current` whose cell is not a wall, lowers its
   * distance when the way through `current` is shorter, recording the new
   * parent and updating or inserting its heap node; stops at the end cell.
   */
  method Relax(cells: array<Cell>, rows: int, cols: int, endIndex: int, current: Node,
               minHeap: MinHeap, visited: array<Node>,
               ghost grid: seq<Cell>, ghost start: int, ghost rec0: set<int>, ghost settled: set<int>)
    returns (solved: bool, ghost rec: set<int>)
    requires GridShape(cells.Length, rows, cols) && |grid| == cells.Length && ResetForSearch(grid)
    requires minHeap.Valid() && visited.Length == MAX && minHeap.elements != visited
    requires HeapOrdered(minHeap.Contents())
    requires SeenColouring(cells[..], grid, rec0) && (endIndex in rec0 ==> endIndex == start)
    requires current.index in rec0 && 0 <= current.index < |grid|
    requires current.distance == visited[current.index].distance
    requires Settling(grid, rows, cols, start, visited[..], visited[..], rec0, minHeap.Contents(), {current.index})
    requires Settled(grid, rows, cols, start, visited[..], rec0, settled, minHeap.Contents(), current.distance, {current.index})
    requires Mirrors(minHeap.Contents(), visited[..])
    modifies cells, minHeap, minHeap.elements, visited
    ensures minHeap.Valid() && HeapOrdered(minHeap.Contents()) && SeenColouring(cells[..], grid, rec)
    ensures solved ==> endIndex in rec && endIndex != start &&
                       ParentForest(grid, rows, cols, visited[..], Distances(visited[..]), rec, start) &&
                       visited[start].distance == 0 && CostForest(grid, visited[..], rec, start) &&
                       Cheapest(grid, rows, cols, start, visited[..], endIndex)
    ensures !solved ==> (endIndex in rec ==> endIndex == start) &&
                        Settling(grid, rows, cols, start, visited[..], visited[..], rec, minHeap.Contents(), {}) &&
                        Settled(grid, rows, cols, start, visited[..], rec, settled, minHeap.Contents(), current.distance, {}) &&
                        Mirrors(minHeap.Contents(), visited[..])
    ensures Potential(visited[..], |grid|) < Potential(old(visited[..]), |grid|) ||
            (visited[..] == old(visited[..]) && minHeap.Contents() == old(minHeap.Contents()))
  {
    var a := current.index;
    var indexes := new int[4](_ => -1);
    GetNeighbourIndexes(a, cols, rows, indexes);
    solved, rec := RelaxSlots(cells, rows, cols, endIndex, current, indexes, minHeap, visited, grid, start, rec0, settled);
    if !solved {
      Expanded(grid, rows, cols, start, visited[..], rec, settled, minHeap.Contents(), current.distance, a);
    }
  }

  /** The loop of Relax over the four slots that GetNeighbourIndexes filled in `indexes`. */
  method RelaxSlots(cells: array<Cell>, rows: int, cols: int, endIndex: int, current: Node, indexes: array<int>,
                    minHeap: MinHeap, visited: array<Node>,
                    ghost grid: seq<Cell>, ghost start: int, ghost rec0: set<int>, ghost settled: set<int>)
    returns (solved: bool, ghost rec: set<int>)
    requires GridShape(cells.Length, rows, cols) && |grid| == cells.Length && ResetForSearch(grid)
    requires minHeap.Valid() && visited.Length == MAX && minHeap.elements != visited
    requires HeapOrdered(minHeap.Contents())
    requires SeenColouring(cells[..], grid, rec0) && (endIndex in rec0 ==> endIndex == start)
    requires current.index in rec0 && 0 <= current.index < |grid|
    requires current.distance == visited[current.index].distance
    requires Settling(grid, rows, cols, start, visited[..], visited[..], rec0, minHeap.Contents(), {current.index})
    requires Settled(grid, rows, cols, start, visited[..], rec0, settled, minHeap.Contents(), current.distance, {current.index})
    requires Mirrors(minHeap.Contents(), visited[..])
    requires indexes.Length == 4 && forall slot :: 0 <= slot < 4 ==>
      indexes[slot] == if HasNeighbour(current.index, cols, rows, slot) then NeighbourIndex(current.index, cols, slot) else -1
    modifies cells, minHeap, minHeap.elements, visited
    ensures minHeap.Valid() && HeapOrdered(minHeap.Contents()) && SeenColouring(cells[..], grid, rec)
    ensures solved ==> endIndex in rec && endIndex != start &&
                       ParentForest(grid, rows, cols, visited[..], Distances(visited[..]), rec, start) &&
                       visited[start].distance == 0 && CostForest(grid, visited[..], rec, start) &&
                       Cheapest(grid, rows, cols, start, visited[..], endIndex)
    ensures !solved ==> (endIndex in rec ==> endIndex == start) && current.index in rec &&
                        Settling(grid, rows, cols, start, visited[..], visited[..], rec, minHeap.Contents(), {current.index}) &&
                        Settled(grid, rows, cols, start, visited[..], rec, settled, minHeap.Contents(), current.distance,
                                {current.index}) &&
                        Mirrors(minHeap.Contents(), visited[..]) &&
                        SlotsIn(grid, rows, cols, current.index, rec, 4) &&
                        RelaxedSlots(grid, rows, cols, visited[..], current.index, 4)
    ensures Potential(visited[..], |grid|) < Potential(old(visited[..]), |grid|) ||
            (visited[..] == old(visited[..]) && minHeap.Contents() == old(minHeap.Contents()))
  {
    var a := current.index;
    rec := rec0;
    solved := false;
    ghost var v0 := visited[..];
    var i := 0;
    while i < 4
      invariant 0 <= i <= 4 && !solved
      invariant minHeap.Valid() && HeapOrdered(minHeap.Contents()) && SeenColouring(cells[..], grid, rec)
      invariant a in rec && current.distance == visited[a].distance
      invariant endIndex in rec ==> endIndex == start
      invariant Settling(grid, rows, cols, start, visited[..], visited[..], rec, minHeap.Contents(), {a})
      invariant Settled(grid, rows, cols, start, visited[..], rec, settled, minHeap.Contents(), current.distance, {a})
      invariant Mirrors(minHeap.Contents(), visited[..])
      invariant SlotsIn(grid, rows, cols, a, rec, i) && RelaxedSlots(grid, rows, cols, visited[..], a, i)
      invariant Potential(visited[..], |grid|) < Potential(v0, |grid|) ||
                (visited[..] == v0 && minHeap.Contents() == old(minHeap.Contents()))
      modifies cells, minHeap, minHeap.elements, visited
    {
      solved, rec := RelaxSlot(cells, rows, cols, endIndex, current, i, indexes[i], minHeap, visited, grid, start, rec, settled);
      if solved {
        break;
      }
      i := i + 1;
    }
  }

  /** Once all four slots of the expanded cell a are relaxed, it needs nothing more. */
  lemma Expanded(grid: seq<Cell>, rows: int, cols: int, start: int, g: seq<Node>, rec: set<int>,
                 settled: set<int>, h: seq<Node>, front: int, a: int)
    requires GridShape(|grid|, rows, cols) && Settling(grid, rows, cols, start, g, g, rec, h, {a})
    requires Settled(grid, rows, cols, start, g, rec, settled, h, front, {a})
    requires SlotsIn(grid, rows, cols, a, rec, 4) && RelaxedSlots(grid, rows, cols, g, a, 4)
    ensures Settling(grid, rows, cols, start, g, g, rec, h, {})
    ensures Settled(grid, rows, cols, start, g, rec, settled, h, front, {})
  {
    SettlingExpanded(grid, rows, cols, start, g, g, rec, h, a);
  }

  /** One slot of the relaxing loop: `neighbourIndex` is what GetNeighbourIndexes left in slot `slot`. */
  method RelaxSlot(cells: array<Cell>, rows: int, cols: int, endIndex: int, current: Node, slot: int,
                   neighbourIndex: int, minHeap: MinHeap, visited: array<Node>,
                   ghost grid: seq<Cell>, ghost start: int, ghost rec0: set<int>, ghost settled: set<int>)
    returns (solved: bool, ghost rec: set<int>)
    requires GridShape(cells.Length, rows, cols) && |grid| == cells.Length && ResetForSearch(grid)
    requires minHeap.Valid() && visited.Length == MAX && minHeap.elements != visited
    requires HeapOrdered(minHeap.Contents()) && SeenColouring(cells[..], grid, rec0)
    requires endIndex in rec0 ==> endIndex == start
    requires current.index in rec0 && 0 <= current.index < |grid|
    requires current.distance == visited[current.index].distance
    requires Settling(grid, rows, cols, start, visited[..], visited[..], rec0, minHeap.Contents(), {current.index})
    requires Mirrors(minHeap.Contents(), visited[..])
    requires Settled(grid, rows, cols, start, visited[..], rec0, settled, minHeap.Contents(), current.distance, {current.index})
    requires 0 <= slot < 4 && SlotsIn(grid, rows, cols, current.index, rec0, slot)
    requires RelaxedSlots(grid, rows, cols, visited[..], current.index, slot)
    requires neighbourIndex ==
      if HasNeighbour(current.index, cols, rows, slot) then NeighbourIndex(current.index, cols, slot) else -1
    modifies cells, minHeap, minHeap.elements, visited
    ensures minHeap.Valid() && HeapOrdered(minHeap.Contents()) && SeenColouring(cells[..], grid, rec)
    ensures current.distance == visited[current.index].distance && current.index in rec
    ensures solved ==> endIndex in rec && endIndex != start &&
                       ParentForest(grid, rows, cols, visited[..], Distances(visited[..]), rec, start) &&
                       visited[start].distance == 0 && CostForest(grid, visited[..], rec, start) &&
                       Cheapest(grid, rows, cols, start, visited[..], endIndex)
    ensures !solved ==> (endIndex in rec ==> endIndex == start) &&
                        Settling(grid, rows, cols, start, visited[..], visited[..], rec, minHeap.Contents(), {current.index}) &&
                        Settled(grid, rows, cols, start, visited[..], rec, settled, minHeap.Contents(), current.distance,
                                {current.index}) &&
                        Mirrors(minHeap.Contents(), visited[..]) &&
                        SlotsIn(grid, rows, cols, current.index, rec, slot + 1) &&
                        RelaxedSlots(grid, rows, cols, visited[..], current.index, slot + 1)
    ensures Potential(visited[..], |grid|) < Potential(old(visited[..]), |grid|) ||
            (visited[..] == old(visited[..]) && minHeap.Contents() == old(minHeap.Contents()))
  {
    var a := current.index;
    SlotIsNeighbour(grid, rows, cols, a, slot);
    rec := rec0;
    solved := false;
    if neighbourIndex != -1 && cells[neighbourIndex].color != Beige {
      var n := neighbourIndex;
      assert cells[n].weighted == grid[n].weighted && (n in rec || !IsWall(grid[n]));
      var cost := 1;
      if cells[n].weighted {
        cost := 10;
      }
      var newDistance := current.distance + cost;
      if newDistance < visited[n].distance {
        rec := Lower(cells, rows, cols, a, slot, n, newDistance, minHeap, visited, grid, start, rec, settled);
        if n == endIndex {
          solved := true;
        }
      } else {
        SettlingSkip(grid, rows, cols, start, visited[..], visited[..], rec, minHeap.Contents(), a, slot);
        RelaxedSkip(grid, rows, cols, visited[..], a, slot);
      }
    } else {
      if HasNeighbour(a, cols, rows, slot) {
        assert cells[neighbourIndex] == grid[neighbourIndex];
      }
      SettlingSkip(grid, rows, cols, start, visited[..], visited[..], rec, minHeap.Contents(), a, slot);
      RelaxedSkip(grid, rows, cols, visited[..], a, slot);
    }
  }

  /**
   * Records the lower distance newDistance of cell n, reached from a through
   * slot `slot`, and lowers or inserts its heap node; a newly inserted cell
   * is painted sky blue.
   */
  method Lower(cells: array<Cell>, rows: int, cols: int, a: int, slot: int, n: int, newDistance: int,
               minHeap: MinHeap, visited: array<Node>,
               ghost grid: seq<Cell>, ghost start: int, ghost rec0: set<int>, ghost settled: set<int>)
    returns (ghost rec: set<int>)
    requires GridShape(cells.Length, rows, cols) && |grid| == cells.Length
    requires minHeap.Valid() && visited.Length == MAX && minHeap.elements != visited
    requires HeapOrdered(minHeap.Contents()) && SeenColouring(cells[..], grid, rec0)
    requires Settling(grid, rows, cols, start, visited[..], visited[..], rec0, minHeap.Contents(), {a})
    requires a in rec0 && Settled(grid, rows, cols, start, visited[..], rec0, settled, minHeap.Contents(), visited[a].distance, {a})
    requires Mirrors(minHeap.Contents(), visited[..])
    requires a in rec0 && 0 <= slot < 4 && HasNeighbour(a, cols, rows, slot) && SlotsIn(grid, rows, cols, a, rec0, slot)
    requires RelaxedSlots(grid, rows, cols, visited[..], a, slot)
    requires n == NeighbourIndex(a, cols, slot) && 0 <= n < |grid| && Adjacent(a, n, rows, cols)
    requires n in rec0 || !IsWall(grid[n])
    requires newDistance == visited[a].distance + Cost(grid[n]) && newDistance < visited[n].distance
    modifies cells, minHeap, minHeap.elements, visited
    ensures rec == rec0 + {n} && n != start && n != a
    ensures minHeap.Valid() && HeapOrdered(minHeap.Contents()) && SeenColouring(cells[..], grid, rec)
    ensures visited[..] == old(visited[..])[n := Node(n, a, newDistance)] && visited[a] == old(visited[a])
    ensures Settling(grid, rows, cols, start, visited[..], visited[..], rec, minHeap.Contents(), {a})
    ensures Settled(grid, rows, cols, start, visited[..], rec, settled, minHeap.Contents(), old(visited[a].distance), {a})
    ensures Mirrors(minHeap.Contents(), visited[..])
    ensures SlotsIn(grid, rows, cols, a, rec, slot + 1) && RelaxedSlots(grid, rows, cols, visited[..], a, slot + 1)
    ensures Potential(visited[..], |grid|) < Potential(old(visited[..]), |grid|)
    ensures ParentForest(grid, rows, cols, visited[..], Distances(visited[..]), rec, start)
    ensures visited[start].distance == 0 && CostForest(grid, visited[..], rec, start)
    ensures n !in rec0 ==> Cheapest(grid, rows, cols, start, visited[..], n)
  {
    ghost var h := minHeap.Contents();
    ghost var v := visited[..];
    assert n != a by {
      assert ManhattanDistance(IndexToGridIndexes(a, cols), IndexToGridIndexes(n, cols)) == 1;
    }
    var neighbour := Node(n, a, newDistance);
    visited[n] := neighbour;
    assert visited[..] == v[n := neighbour];
    var found := HeapRecord(minHeap, neighbour, h, v, grid, rows, cols, start, rec0, a);
    PaintUnlessFound(cells, n, found, grid, rec0);
    assert visited[..] == v[n := neighbour];
    Lowered(grid, rows, cols, start, v, visited[..], rec0, settled, h, minHeap.Contents(), a, slot, neighbour);
    rec := rec0 + {n};
  }

  /** What Lower ensures about the tables and the heap, once n is recorded as x and the heap went from h to h'. */
  lemma Lowered(grid: seq<Cell>, rows: int, cols: int, start: int, g: seq<Node>, g': seq<Node>, rec: set<int>,
                settled: set<int>, h: seq<Node>, h': seq<Node>, a: int, slot: int, x: Node)
    requires GridShape(|grid|, rows, cols) && Settling(grid, rows, cols, start, g, g, rec, h, {a})
    requires a in rec && Settled(grid, rows, cols, start, g, rec, settled, h, g[a].distance, {a}) && Mirrors(h, g)
    requires 0 <= slot < 4 && HasNeighbour(a, cols, rows, slot)
    requires SlotsIn(grid, rows, cols, a, rec, slot) && RelaxedSlots(grid, rows, cols, g, a, slot)
    requires var n := NeighbourIndex(a, cols, slot);
      0 <= n < |grid| && Adjacent(a, n, rows, cols) && (n in rec || !IsWall(grid[n])) &&
      x == Node(n, a, g[a].distance + Cost(grid[n])) && x.distance < g[n].distance && g' == g[n := x]
    requires var n := NeighbourIndex(a, cols, slot);
      Unique(h') && IndicesOf(h') == IndicesOf(h) + {n} &&
      (forall k :: 0 <= k < |h'| ==> h'[k].index in rec + {n}) &&
      forall k :: 0 <= k < |h'| ==> (h'[k].index == n ==> h'[k].distance == x.distance) && (h'[k].index != n ==> h'[k] in h)
    ensures var n := NeighbourIndex(a, cols, slot);
      n != start &&
      Settling(grid, rows, cols, start, g', g', rec + {n}, h', {a}) &&
      Settled(grid, rows, cols, start, g', rec + {n}, settled, h', g[a].distance, {a}) &&
      Mirrors(h', g') &&
      SlotsIn(grid, rows, cols, a, rec + {n}, slot + 1) && RelaxedSlots(grid, rows, cols, g', a, slot + 1) &&
      Potential(g', |grid|) < Potential(g, |grid|) &&
      ParentForest(grid, rows, cols, g', Distances(g'), rec + {n}, start) && g'[start].distance == 0 &&
      CostForest(grid, g', rec + {n}, start) &&
      (n !in rec ==> Cheapest(grid, rows, cols, start, g', n))
  {
    var n := NeighbourIndex(a, cols, slot);
    SolvedLeast(grid, rows, cols, start, g, rec, settled, h, a, n);
    SettlingRelax(grid, rows, cols, start, g, g, rec, h, h', a, slot, x);
    SettledRelax(grid, rows, cols, start, g, rec, settled, h, h', g[a].distance, a, slot, x);
    MirrorsRelaxed(h, h', g, n, x);
  }

  /** The heap half of Lower: lowers the node of the cell when the heap holds one and inserts one otherwise. */
  method HeapRecord(minHeap: MinHeap, neighbour: Node, ghost h: seq<Node>, ghost v: seq<Node>,
                    ghost grid: seq<Cell>, ghost rows: int, ghost cols: int, ghost start: int,
                    ghost rec: set<int>, ghost a: int)
    returns (found: bool)
    requires GridShape(|grid|, rows, cols) && 0 <= neighbour.index < |grid|
    requires minHeap.Valid() && HeapOrdered(minHeap.Contents()) && minHeap.Contents() == h
    requires Settling(grid, rows, cols, start, v, v, rec, h, {a}) && Mirrors(h, v)
    requires neighbour.distance < v[neighbour.index].distance
    modifies minHeap, minHeap.elements
    ensures minHeap.Valid() && HeapOrdered(minHeap.Contents())
    ensures Unique(minHeap.Contents()) && IndicesOf(minHeap.Contents()) == IndicesOf(h) + {neighbour.index}
    ensures forall k :: 0 <= k < |minHeap.Contents()| ==>
      (minHeap.Contents()[k].index == neighbour.index ==> minHeap.Contents()[k].distance == neighbour.distance) &&
      (minHeap.Contents()[k].index != neighbour.index ==> minHeap.Contents()[k] in h)
    ensures forall k :: 0 <= k < |minHeap.Contents()| ==> minHeap.Contents()[k].index in rec + {neighbour.index}
    ensures found ==> neighbour.index in rec
  {
    found := minHeap.Find(neighbour.index);
    if found {
      ghost var k :| 0 <= k < minHeap.size && minHeap.elements[k].index == neighbour.index;
      assert h[k].index == neighbour.index;
      UpdateHeapNode(minHeap, neighbour, h, v, grid, rows, cols, start, rec, a);
    } else {
      InsertHeapNode(minHeap, neighbour, h, v, v, grid, rows, cols, start, rec, a);
    }
  }

  /** The `Find` branch of Lower: the heap node of the cell gets the new distance. */
  method UpdateHeapNode(minHeap: MinHeap, neighbour: Node, ghost h: seq<Node>, ghost v: seq<Node>,
                        ghost grid: seq<Cell>, ghost rows: int, ghost cols: int, ghost start: int,
                        ghost rec: set<int>, ghost a: int)
    requires GridShape(|grid|, rows, cols)
    requires minHeap.Valid() && HeapOrdered(minHeap.Contents()) && minHeap.Contents() == h
    requires Settling(grid, rows, cols, start, v, v, rec, h, {a}) && Mirrors(h, v)
    requires neighbour.index in IndicesOf(h) && neighbour.distance < v[neighbour.index].distance
    modifies minHeap.elements
    ensures minHeap.Valid() && HeapOrdered(minHeap.Contents())
    ensures Unique(minHeap.Contents()) && IndicesOf(minHeap.Contents()) == IndicesOf(h) + {neighbour.index}
    ensures forall k :: 0 <= k < |minHeap.Contents()| ==>
      (minHeap.Contents()[k].index == neighbour.index ==> minHeap.Contents()[k].distance == neighbour.distance) &&
      (minHeap.Contents()[k].index != neighbour.index ==> minHeap.Contents()[k] in h)
    ensures forall k :: 0 <= k < |minHeap.Contents()| ==> minHeap.Contents()[k].index in rec
  {
    UniqueAtMostOnce(h, neighbour.index);
    minHeap.DecreasePriority(neighbour, neighbour.distance);
    AfterDecrease(h, minHeap.Contents(), neighbour.index, neighbour.distance);
    assert IndicesOf(h) + {neighbour.index} == IndicesOf(h);
    forall k | 0 <= k < |minHeap.Contents()| ensures minHeap.Contents()[k].index in rec {
      MemberIndex(minHeap.Contents(), minHeap.Contents()[k]);
      var j :| 0 <= j < |h| && h[j].index == minHeap.Contents()[k].index;
    }
  }
}
