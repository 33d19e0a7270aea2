/**
 * BreadthFirstSearch: explores the grid from the start cell with a queue of
 * nodes, painting each discovered cell sky blue and recording its parent,
 * and paints the recorded path gold as soon as the end cell is discovered.
 */
module BreadthFirst {
  import opened Cells
  import opened Geometry
  import opened Queues
  import opened Walks

  /** The search. The ghost results are the gold path, start first, and the cells painted sky blue. */
  method BreadthFirstSearch(cells: array<Cell>, rows: int, cols: int, startIndex: int, endIndex: int)
    returns (ghost path: seq<int>, ghost seen: set<int>)
    requires GridShape(cells.Length, rows, cols)
    requires 0 <= startIndex < cells.Length && 0 <= endIndex < cells.Length
    requires ResetForSearch(cells[..])
    modifies cells
    ensures SearchOutcome(old(cells[..]), cells[..], rows, cols, startIndex, endIndex, path, seen)
    ensures path != [] ==> forall w :: Route(old(cells[..]), rows, cols, w, startIndex, endIndex) ==> |path| <= |w|
  {
    ghost var grid := cells[..];
    var start := Node(startIndex, -1, 0);
    var queue := new Queue();
    var visited := new Node[MAX];

    var pushed := queue.Push(start);
    assert queue.Contents() == [start];
    visited[startIndex] := start;
    cells[startIndex] := cells[startIndex].(color := SkyBlue);
    assert cells[..] == grid[startIndex := grid[startIndex].(color := SkyBlue)];
    ColourStep(grid, grid, {}, startIndex);
    ghost var rank: seq<int> := seq(MAX, _ => 0);
    seen := {startIndex};
    ExploringStart(grid, rows, cols, startIndex, visited[..], rank);
    HopsStart(grid, rows, cols, startIndex, visited[..], rank);

    var solved;
    ghost var done;
    solved, rank, seen, done := Explore(cells, rows, cols, endIndex, queue, visited, grid, startIndex, rank, seen);

    path := [];
    // Reached the end
    if solved {
      FewestSteps(grid, rows, cols, visited[..], rank, seen, startIndex, endIndex);
      path := PaintFound(cells, rows, cols, visited, endIndex, grid, rank, seen, startIndex);
    } else {
      ExhaustedOutcome(grid, cells[..], rows, cols, startIndex, endIndex, visited[..], rank, seen, done);
    }
  }

  /**
   * The search loop: dequeues and expands nodes until the end cell is
   * discovered (`solved`) or nothing is left to expand.
   */
  method Explore(cells: array<Cell>, rows: int, cols: int, endIndex: int, queue: Queue, visited: array<Node>,
                 ghost grid: seq<Cell>, ghost start: int, ghost rank0: seq<int>, ghost seen0: set<int>)
    returns (solved: bool, ghost rank: seq<int>, ghost seen: set<int>, ghost done: int)
    requires GridShape(cells.Length, rows, cols) && |grid| == cells.Length && ResetForSearch(grid)
    requires queue.Valid() && visited.Length == MAX && queue.elements != visited
    requires queue.rear + 1 == |seen0|
    requires SeenColouring(cells[..], grid, seen0) && (endIndex in seen0 ==> endIndex == start)
    requires Exploring(grid, rows, cols, start, visited[..], rank0, seen0, queue.Contents(), 0, {})
    requires HopRanks(grid, rows, cols, start, visited[..], rank0, seen0) && QueueLevels(rank0, queue.Contents(), 0)
    modifies cells, queue, queue.elements, visited
    ensures SeenColouring(cells[..], grid, seen)
    ensures solved ==> endIndex in seen && endIndex != start &&
                       ParentForest(grid, rows, cols, visited[..], rank, seen, start) &&
                       HopRanks(grid, rows, cols, start, visited[..], rank, seen)
    ensures !solved ==> (endIndex in seen ==> endIndex == start) &&
                        Exploring(grid, rows, cols, start, visited[..], rank, seen, [], done, {})
  {
    rank, seen, done := rank0, seen0, 0;
    solved := false;
    ghost var front := 0;
    while true
      invariant queue.Valid() && SeenColouring(cells[..], grid, seen) && (endIndex in seen ==> endIndex == start)
      invariant queue.rear + 1 == |seen|
      invariant Exploring(grid, rows, cols, start, visited[..], rank, seen, queue.Contents(), done, {})
      invariant HopRanks(grid, rows, cols, start, visited[..], rank, seen) && QueueLevels(rank, queue.Contents(), front)
      decreases |grid| - |seen|, |queue.Contents()|
    {
      var empty := queue.IsEmpty();
      if empty {
        break;
      }
      solved, rank, seen, done, front := PopAndExpand(cells, rows, cols, endIndex, queue, visited,
                                                      grid, start, rank, seen, done, front);
      if solved {
        break;
      }
    }
  }

  /** One turn of the search loop: dequeues a node and expands it. */
  method PopAndExpand(cells: array<Cell>, rows: int, cols: int, endIndex: int,
                      queue: Queue, visited: array<Node>,
                      ghost grid: seq<Cell>, ghost start: int, ghost rank0: seq<int>, ghost seen0: set<int>,
                      ghost done0: int, ghost front0: int)
    returns (solved: bool, ghost rank: seq<int>, ghost seen: set<int>, ghost done: int, ghost front: int)
    requires GridShape(cells.Length, rows, cols) && |grid| == cells.Length && ResetForSearch(grid)
    requires queue.Valid() && visited.Length == MAX && queue.elements != visited && queue.Contents() != []
    requires SeenColouring(cells[..], grid, seen0) && (endIndex in seen0 ==> endIndex == start)
    requires queue.rear + 1 == |seen0|
    requires Exploring(grid, rows, cols, start, visited[..], rank0, seen0, queue.Contents(), done0, {})
    requires HopRanks(grid, rows, cols, start, visited[..], rank0, seen0) && QueueLevels(rank0, queue.Contents(), front0)
    modifies cells, queue, queue.elements, visited
    ensures queue.Valid() && SeenColouring(cells[..], grid, seen) && queue.rear + 1 == |seen|
    ensures HopRanks(grid, rows, cols, start, visited[..], rank, seen)
    ensures solved ==> endIndex in seen && endIndex != start &&
                       ParentForest(grid, rows, cols, visited[..], rank, seen, start)
    ensures !solved ==> (endIndex in seen ==> endIndex == start) &&
                        Exploring(grid, rows, cols, start, visited[..], rank, seen, queue.Contents(), done, {}) &&
                        QueueLevels(rank, queue.Contents(), front)
    ensures |seen0| < |seen| || (|seen| == |seen0| && |queue.Contents()| < |old(queue.Contents())|)
  {
    ghost var before := queue.Contents();
    var current := queue.Pop();
    assert before == [] + [current] + queue.Contents();
    ExploringTake(grid, rows, cols, start, visited[..], rank0, seen0, [], current, queue.Contents(), done0);
    assert [] + queue.Contents() == queue.Contents();
    TakeHops(rank0, before, front0);
    done, front := done0 + 1, rank0[current.index];
    solved, rank, seen := Expand(cells, rows, cols, endIndex, current, queue, visited,
                                 grid, start, rank0, seen0, done, front);
  }

  /**
   * The body of the search loop after the pop: examines the four neighbour
   * slots of `current`, discovering and enqueueing every open, unseen cell,
   * and stops at the end cell.
   */
  method Expand(cells: array<Cell>, rows: int, cols: int, endIndex: int, current: Node,
                queue: Queue, visited: array<Node>,
                ghost grid: seq<Cell>, ghost start: int, ghost rank0: seq<int>, ghost seen0: set<int>,
                ghost done: int, ghost front: int)
    returns (solved: bool, ghost rank: seq<int>, ghost seen: set<int>)
    requires GridShape(cells.Length, rows, cols) && |grid| == cells.Length && ResetForSearch(grid)
    requires queue.Valid() && visited.Length == MAX && queue.elements != visited
    requires SeenColouring(cells[..], grid, seen0) && current.index in seen0
    requires queue.rear + 1 == |seen0|
    requires endIndex in seen0 ==> endIndex == start
    requires Exploring(grid, rows, cols, start, visited[..], rank0, seen0, queue.Contents(), done, {current.index})
    requires HopRanks(grid, rows, cols, start, visited[..], rank0, seen0) && QueueLevels(rank0, queue.Contents(), front)
    requires rank0[current.index] == front
    modifies cells, queue, queue.elements, visited
    ensures queue.Valid() && SeenColouring(cells[..], grid, seen) && queue.rear + 1 == |seen|
    ensures HopRanks(grid, rows, cols, start, visited[..], rank, seen)
    ensures solved ==> endIndex in seen && endIndex != start &&
                       ParentForest(grid, rows, cols, visited[..], rank, seen, start)
    ensures !solved ==> (endIndex in seen ==> endIndex == start) &&
                        Exploring(grid, rows, cols, start, visited[..], rank, seen, queue.Contents(), done, {}) &&
                        QueueLevels(rank, queue.Contents(), front)
    ensures |seen0| <= |seen| && (|seen| == |seen0| ==> queue.Contents() == old(queue.Contents()))
  {
    var a := current.index;
    var indexes := new int[4](_ => -1);
    GetNeighbourIndexes(a, cols, rows, indexes);
    solved, rank, seen := ExamineSlots(cells, rows, cols, endIndex, a, indexes, queue, visited,
                                       grid, start, rank0, seen0, done, front);
  }

  /** The loop over the four neighbour slots of `a` that GetNeighbourIndexes filled into `indexes`. */
  method ExamineSlots(cells: array<Cell>, rows: int, cols: int, endIndex: int, a: int, indexes: array<int>,
                      queue: Queue, visited: array<Node>,
                      ghost grid: seq<Cell>, ghost start: int, ghost rank0: seq<int>, ghost seen0: set<int>,
                      ghost done: int, ghost front: int)
    returns (solved: bool, ghost rank: seq<int>, ghost seen: set<int>)
    requires GridShape(cells.Length, rows, cols) && |grid| == cells.Length && ResetForSearch(grid)
    requires queue.Valid() && visited.Length == MAX && queue.elements != visited
    requires indexes.Length == 4 && 0 <= a < cells.Length
    requires forall slot :: 0 <= slot < 4 ==>
      indexes[slot] == if HasNeighbour(a, cols, rows, slot) then NeighbourIndex(a, cols, slot) else -1
    requires SeenColouring(cells[..], grid, seen0) && a in seen0
    requires queue.rear + 1 == |seen0|
    requires endIndex in seen0 ==> endIndex == start
    requires Exploring(grid, rows, cols, start, visited[..], rank0, seen0, queue.Contents(), done, {a})
    requires HopRanks(grid, rows, cols, start, visited[..], rank0, seen0) && QueueLevels(rank0, queue.Contents(), front)
    requires rank0[a] == front
    modifies cells, queue, queue.elements, visited
    ensures queue.Valid() && SeenColouring(cells[..], grid, seen) && queue.rear + 1 == |seen|
    ensures HopRanks(grid, rows, cols, start, visited[..], rank, seen)
    ensures solved ==> endIndex in seen && endIndex != start &&
                       ParentForest(grid, rows, cols, visited[..], rank, seen, start)
    ensures !solved ==> (endIndex in seen ==> endIndex == start) &&
                        Exploring(grid, rows, cols, start, visited[..], rank, seen, queue.Contents(), done, {a}) &&
                        SlotsIn(grid, rows, cols, a, seen, 4) &&
                        QueueLevels(rank, queue.Contents(), front)
    ensures |seen0| <= |seen| && (|seen| == |seen0| ==> queue.Contents() == old(queue.Contents()))
  {
    rank, seen := rank0, seen0;
    solved := false;
    var i := 0;
    while i < 4
      invariant 0 <= i <= 4 && !solved
      invariant queue.Valid() && SeenColouring(cells[..], grid, seen) && a in seen
      invariant queue.rear + 1 == |seen|
      invariant endIndex in seen ==> endIndex == start
      invariant Exploring(grid, rows, cols, start, visited[..], rank, seen, queue.Contents(), done, {a})
      invariant SlotsIn(grid, rows, cols, a, seen, i)
      invariant HopRanks(grid, rows, cols, start, visited[..], rank, seen) && QueueLevels(rank, queue.Contents(), front)
      invariant rank[a] == front
      invariant |seen0| <= |seen| && (|seen| == |seen0| ==> queue.Contents() == old(queue.Contents()))
      modifies cells, queue, queue.elements, visited
    {
      solved, rank, seen := Examine(cells, rows, cols, endIndex, a, i, indexes[i], queue, visited,
                                    grid, start, rank, seen, done, front);
      if solved {
        break;
      }
      i := i + 1;
    }
  }

  /**
   * One pass of the loop over the neighbour slots: when slot `slot` of `a`
   * holds an open cell not yet seen, discovers it, and reports `solved`
   * when that cell is the end cell.
   */
  method Examine(cells: array<Cell>, rows: int, cols: int, endIndex: int, a: int, slot: int, n: int,
                 queue: Queue, visited: array<Node>,
                 ghost grid: seq<Cell>, ghost start: int, ghost rank0: seq<int>, ghost seen0: set<int>,
                 ghost done: int, ghost front: int)
    returns (solved: bool, ghost rank: seq<int>, ghost seen: set<int>)
    requires GridShape(cells.Length, rows, cols) && |grid| == cells.Length && ResetForSearch(grid)
    requires queue.Valid() && visited.Length == MAX && queue.elements != visited
    requires queue.rear + 1 == |seen0|
    requires SeenColouring(cells[..], grid, seen0) && a in seen0 && (endIndex in seen0 ==> endIndex == start)
    requires Exploring(grid, rows, cols, start, visited[..], rank0, seen0, queue.Contents(), done, {a})
    requires HopRanks(grid, rows, cols, start, visited[..], rank0, seen0) && QueueLevels(rank0, queue.Contents(), front)
    requires rank0[a] == front
    requires 0 <= slot < 4 && SlotsIn(grid, rows, cols, a, seen0, slot)
    requires n == if HasNeighbour(a, cols, rows, slot) then NeighbourIndex(a, cols, slot) else -1
    modifies cells, queue, queue.elements, visited
    ensures queue.Valid() && SeenColouring(cells[..], grid, seen) && a in seen && queue.rear + 1 == |seen|
    ensures Exploring(grid, rows, cols, start, visited[..], rank, seen, queue.Contents(), done, {a})
    ensures HopRanks(grid, rows, cols, start, visited[..], rank, seen) && QueueLevels(rank, queue.Contents(), front)
    ensures rank[a] == front
    ensures solved ==> endIndex in seen && endIndex != start
    ensures !solved ==> (endIndex in seen ==> endIndex == start) && SlotsIn(grid, rows, cols, a, seen, slot + 1)
    ensures |seen0| <= |seen| && (|seen| == |seen0| ==> queue.Contents() == old(queue.Contents()))
  {
    SlotIsNeighbour(grid, rows, cols, a, slot);
    rank, seen := rank0, seen0;
    solved := false;
    if n != -1 && cells[n].color != Beige && cells[n].color != SkyBlue {
      assert n !in seen && cells[n] == grid[n];
      rank, seen := Discover(cells, rows, cols, n, a, slot, queue, visited, grid, start, rank, seen, done, front);
      if n == endIndex {
        solved := true;
      }
    } else {
      if HasNeighbour(a, cols, rows, slot) {
        assert cells[n] == if n in seen then grid[n].(color := SkyBlue) else grid[n];
      }
      ExploringSkip(grid, rows, cols, a, seen, slot);
    }
  }

  /**
   * Discovers the open, unseen neighbour n of `a` in slot `slot`: paints it
   * sky blue, records `a` as its parent and enqueues it.
   */
  method Discover(cells: array<Cell>, rows: int, cols: int, n: int, a: int, slot: int,
                  queue: Queue, visited: array<Node>,
                  ghost grid: seq<Cell>, ghost start: int, ghost rank0: seq<int>, ghost seen0: set<int>,
                  ghost done: int, ghost front: int)
    returns (ghost rank: seq<int>, ghost seen: set<int>)
    requires GridShape(cells.Length, rows, cols) && |grid| == cells.Length
    requires queue.Valid() && visited.Length == MAX && queue.elements != visited
    requires queue.rear + 1 == |seen0|
    requires SeenColouring(cells[..], grid, seen0) && a in seen0
    requires Exploring(grid, rows, cols, start, visited[..], rank0, seen0, queue.Contents(), done, {a})
    requires HopRanks(grid, rows, cols, start, visited[..], rank0, seen0) && QueueLevels(rank0, queue.Contents(), front)
    requires rank0[a] == front
    requires 0 <= slot < 4 && HasNeighbour(a, cols, rows, slot) && n == NeighbourIndex(a, cols, slot)
    requires SlotsIn(grid, rows, cols, a, seen0, slot)
    requires 0 <= n < |grid| && n !in seen0 && !IsWall(grid[n])
    modifies cells, queue, queue.elements, visited
    ensures queue.Valid() && SeenColouring(cells[..], grid, seen) && seen == seen0 + {n} && n != start
    ensures queue.rear + 1 == |seen|
    ensures Exploring(grid, rows, cols, start, visited[..], rank, seen, queue.Contents(), done, {a})
    ensures SlotsIn(grid, rows, cols, a, seen, slot + 1)
    ensures queue.Contents() == old(queue.Contents()) + [Node(n, a, 0)]
    ensures HopRanks(grid, rows, cols, start, visited[..], rank, seen) && QueueLevels(rank, queue.Contents(), front)
    ensures rank[a] == front
  {
    assert a != n;
    ExploringDiscover(grid, rows, cols, start, visited[..], rank0, seen0, queue.Contents(), done, a, slot, front + 1);
    DiscoverHops(grid, rows, cols, start, visited[..], rank0, seen0, queue.Contents(), done, a, n, front);
    ColourStep(cells[..], grid, seen0, n);
    Record(cells, n, a, queue, visited);
    rank, seen := rank0[n := front + 1], seen0 + {n};
  }

  /** The writes of Discover: paints n sky blue, records the node {n, a} in the visited table and enqueues it. */
  method Record(cells: array<Cell>, n: int, a: int, queue: Queue, visited: array<Node>)
    requires queue.Valid() && visited.Length == MAX && queue.elements != visited
    requires 0 <= n < cells.Length && n < MAX && queue.rear < MAX - 1
    modifies cells, queue, queue.elements, visited
    ensures queue.Valid() && queue.rear == old(queue.rear) + 1
    ensures cells[..] == old(cells[..])[n := old(cells[n]).(color := SkyBlue)]
    ensures visited[..] == old(visited[..])[n := Node(n, a, 0)]
    ensures queue.Contents() == old(queue.Contents()) + [Node(n, a, 0)]
  {
    cells[n] := cells[n].(color := SkyBlue);
    var neighbour := Node(n, a, 0);
    visited[n] := neighbour;
    var pushed := queue.Push(neighbour);
  }


  /**
   * Ranks as hop counts: the start has rank 0, every other seen cell one
   * more than its parent, and no route from the start reaches a seen cell
   * with fewer cells than its rank plus one.
   */
  ghost predicate HopRanks(grid: seq<Cell>, rows: int, cols: int, start: int, v: seq<Node>, rank: seq<int>,
                           seen: set<int>)
    requires GridShape(|grid|, rows, cols)
  {
    |v| == MAX && |rank| == MAX && 0 <= start < MAX && rank[start] == 0 &&
    (forall n {:trigger HopLink(v, rank, n)} :: n in seen && n != start ==> HopLink(v, rank, n)) &&
    (forall y, w :: y in seen && 0 <= y < MAX && Route(grid, rows, cols, w, start, y) ==> rank[y] < |w|)
  }

  /** Cell n has a parent in the table, one rank below it. */
  ghost predicate HopLink(v: seq<Node>, rank: seq<int>, n: int) {
    0 <= n < |v| && 0 <= v[n].parentIndex < |v| && |rank| == |v| && rank[n] == rank[v[n].parentIndex] + 1
  }

  /** The ranks of the queued nodes lie in front .. front + 1 and never decrease from head to tail. */
  ghost predicate QueueLevels(rank: seq<int>, pending: seq<Node>, front: int) {
    (forall k :: 0 <= k < |pending| ==>
       0 <= pending[k].index < |rank| && front <= rank[pending[k].index] <= front + 1) &&
    (forall k, l :: 0 <= k < l < |pending| ==> rank[pending[k].index] <= rank[pending[l].index])
  }

  /** The start alone, at rank 0, with its node queued. */
  lemma HopsStart(grid: seq<Cell>, rows: int, cols: int, start: int, v: seq<Node>, rank: seq<int>)
    requires GridShape(|grid|, rows, cols) && 0 <= start < |grid|
    requires |v| == MAX && |rank| == MAX && rank[start] == 0
    ensures HopRanks(grid, rows, cols, start, v, rank, {start}) && QueueLevels(rank, [Node(start, -1, 0)], 0)
  {
  }

  /** Dequeuing the head makes its rank the new front and keeps the levels of the rest. */
  lemma TakeHops(rank: seq<int>, p: seq<Node>, front: int)
    requires QueueLevels(rank, p, front) && p != []
    ensures 0 <= p[0].index < |rank| && front <= rank[p[0].index] && QueueLevels(rank, p[1..], rank[p[0].index])
  {
    var post := p[1..];
    forall k | 0 <= k < |post| ensures post[k] == p[k + 1] && rank[p[0].index] <= rank[post[k].index] {
    }
    forall k, l | 0 <= k < l < |post| ensures rank[post[k].index] <= rank[post[l].index] {
      assert p[k + 1] == post[k] && p[l + 1] == post[l];
    }
  }

  /**
   * While the cell being expanded and every queued cell have rank at least
   * `front`, a route from the start to a cell not yet seen has more than
   * front + 1 cells: its last seen cell is not expanded, so it is queued or
   * being expanded, and no route reaches it with fewer than front + 1 cells.
   */
  lemma {:induction false} FrontierBound(grid: seq<Cell>, rows: int, cols: int, start: int, v: seq<Node>,
                                         rank: seq<int>, seen: set<int>, pending: seq<Node>, done: int,
                                         current: set<int>, front: int, w: seq<int>, y: int)
    requires GridShape(|grid|, rows, cols)
    requires Exploring(grid, rows, cols, start, v, rank, seen, pending, done, current)
    requires HopRanks(grid, rows, cols, start, v, rank, seen) && QueueLevels(rank, pending, front)
    requires forall x :: x in current ==> 0 <= x < MAX && front <= rank[x]
    requires Route(grid, rows, cols, w, start, y) && y !in seen
    ensures front + 1 < |w|
    decreases |w|
  {
    assert start in seen;
    RoutePrefix(grid, rows, cols, w, start, y);
    var w', p := w[..|w| - 1], w[|w| - 2];
    if p !in seen {
      FrontierBound(grid, rows, cols, start, v, rank, seen, pending, done, current, front, w', p);
    } else {
      OpenNeighbourOutside(grid, rows, cols, p, y, seen);
      if p in IndicesOf(pending) {
        var k :| 0 <= k < |pending| && pending[k].index == p;
      }
      assert front <= rank[p] < |w'|;
    }
  }

  /**
   * Discovering n from the cell a at the front, at rank front + 1, keeps
   * the ranks hop counts and the queue levelled.
   */
  lemma DiscoverHops(grid: seq<Cell>, rows: int, cols: int, start: int, v: seq<Node>, rank: seq<int>,
                     seen: set<int>, pending: seq<Node>, done: int, a: int, n: int, front: int)
    requires GridShape(|grid|, rows, cols)
    requires Exploring(grid, rows, cols, start, v, rank, seen, pending, done, {a})
    requires HopRanks(grid, rows, cols, start, v, rank, seen) && QueueLevels(rank, pending, front)
    requires a in seen && rank[a] == front && 0 <= n < |grid| && n !in seen
    ensures HopRanks(grid, rows, cols, start, v[n := Node(n, a, 0)], rank[n := front + 1], seen + {n})
    ensures QueueLevels(rank[n := front + 1], pending + [Node(n, a, 0)], front)
  {
    var v', rank', seen', pending' := v[n := Node(n, a, 0)], rank[n := front + 1], seen + {n}, pending + [Node(n, a, 0)];
    forall x | x in seen' && x != start ensures HopLink(v', rank', x) {
      if x != n {
        assert ParentLink(grid, rows, cols, v, rank, seen, start, x);
        assert HopLink(v, rank, x);
      }
    }
    forall y, w | y in seen' && 0 <= y < MAX && Route(grid, rows, cols, w, start, y) ensures rank'[y] < |w| {
      if y == n {
        FrontierBound(grid, rows, cols, start, v, rank, seen, pending, done, {a}, front, w, n);
      }
    }
    forall k | 0 <= k < |pending'|
      ensures 0 <= pending'[k].index < |rank'| && front <= rank'[pending'[k].index] <= front + 1
    {
      if k < |pending| {
        assert pending'[k] == pending[k];
      }
    }
    forall k, l | 0 <= k < l < |pending'| ensures rank'[pending'[k].index] <= rank'[pending'[l].index] {
      assert k < |pending|;
      assert pending'[k] == pending[k];
      if l < |pending| {
        assert pending'[l] == pending[l];
      }
    }
  }

  /** With hop-count ranks, the chain back from a seen cell has its rank plus one cells. */
  lemma {:induction false} ChainHops(grid: seq<Cell>, rows: int, cols: int, v: seq<Node>, rank: seq<int>,
                                     seen: set<int>, start: int, n: int)
    requires GridShape(|grid|, rows, cols) && ParentForest(grid, rows, cols, v, rank, seen, start)
    requires HopRanks(grid, rows, cols, start, v, rank, seen) && n in seen
    ensures |Chain(grid, rows, cols, v, rank, seen, start, n)| == rank[n] + 1
    decreases rank[n]
  {
    assert ParentLink(grid, rows, cols, v, rank, seen, start, n);
    ChainEnds(grid, rows, cols, v, rank, seen, start, n);
    if v[n].parentIndex != -1 {
      assert HopLink(v, rank, n);
      ChainUnfold(grid, rows, cols, v, rank, seen, start, n);
      ChainHops(grid, rows, cols, v, rank, seen, start, v[n].parentIndex);
    }
  }

  /** The chain back from the end has no more cells than any route from the start to the end. */
  lemma FewestSteps(grid: seq<Cell>, rows: int, cols: int, v: seq<Node>, rank: seq<int>,
                    seen: set<int>, start: int, end: int)
    requires GridShape(|grid|, rows, cols) && ParentForest(grid, rows, cols, v, rank, seen, start)
    requires HopRanks(grid, rows, cols, start, v, rank, seen) && end in seen
    ensures forall w :: Route(grid, rows, cols, w, start, end) ==>
      |Chain(grid, rows, cols, v, rank, seen, start, end)| <= |w|
  {
    ChainHops(grid, rows, cols, v, rank, seen, start, end);
    assert 0 <= end < MAX;
  }
}
