/**
 * DepthFirstSearch: explores the grid from the start cell with a stack of
 * nodes, painting each discovered cell sky blue and recording its parent,
 * and paints the recorded path gold as soon as the end cell is discovered.
 */
module DepthFirst {
  import opened Cells
  import opened Geometry
  import opened Stacks
  import opened Walks

  /**
   * The search with its stack starting empty (top == -1). The ghost results
   * are the gold path, start first, and the cells painted sky blue.
   */
  method DepthFirstSearch(cells: array<Cell>, rows: int, cols: int, startIndex: int, endIndex: int)
    returns (ghost path: seq<int>, ghost seen: set<int>)
    requires GridShape(cells.Length, rows, cols)
    requires 0 <= startIndex < cells.Length && 0 <= endIndex < cells.Length
    requires ResetForSearch(cells[..])
    modifies cells
    ensures SearchOutcome(old(cells[..]), cells[..], rows, cols, startIndex, endIndex, path, seen)
  {
    ghost var grid := cells[..];
    var start := Node(startIndex, -1, 0);
    var stack := new Stack.Empty();
    var visited := new Node[MAX];

    var pushed := stack.Push(start);
    assert stack.Contents() == [start];
    visited[startIndex] := start;
    cells[startIndex] := cells[startIndex].(color := SkyBlue);
    assert cells[..] == grid[startIndex := grid[startIndex].(color := SkyBlue)];
    ColourStep(grid, grid, {}, startIndex);
    ghost var rank: seq<int> := seq(MAX, _ => 0);
    seen := {startIndex};
    ExploringStart(grid, rows, cols, startIndex, visited[..], rank);

    var solved;
    ghost var done;
    solved, rank, seen, done := Explore(cells, rows, cols, endIndex, stack, visited, grid, startIndex, rank, seen);

    path := [];
    // Reached the end
    if solved {
      path := PaintFound(cells, rows, cols, visited, endIndex, grid, rank, seen, startIndex);
    } else {
      ExhaustedOutcome(grid, cells[..], rows, cols, startIndex, endIndex, visited[..], rank, seen, done);
    }
  }

  /**
   * The search loop: pops and expands nodes until the end cell is
   * discovered (`solved`) or nothing is left to expand.
   */
  method Explore(cells: array<Cell>, rows: int, cols: int, endIndex: int, stack: Stack, visited: array<Node>,
                 ghost grid: seq<Cell>, ghost start: int, ghost rank0: seq<int>, ghost seen0: set<int>)
    returns (solved: bool, ghost rank: seq<int>, ghost seen: set<int>, ghost done: int)
    requires GridShape(cells.Length, rows, cols) && |grid| == cells.Length && ResetForSearch(grid)
    requires stack.Valid() && visited.Length == MAX && stack.elements != visited
    requires SeenColouring(cells[..], grid, seen0) && (endIndex in seen0 ==> endIndex == start)
    requires Exploring(grid, rows, cols, start, visited[..], rank0, seen0, stack.Contents(), 0, {})
    modifies cells, stack, stack.elements, visited
    ensures SeenColouring(cells[..], grid, seen)
    ensures solved ==> endIndex in seen && endIndex != start &&
                       ParentForest(grid, rows, cols, visited[..], rank, seen, start)
    ensures !solved ==> (endIndex in seen ==> endIndex == start) &&
                        Exploring(grid, rows, cols, start, visited[..], rank, seen, [], done, {})
  {
    rank, seen, done := rank0, seen0, 0;
    solved := false;
    while true
      invariant stack.Valid() && SeenColouring(cells[..], grid, seen) && (endIndex in seen ==> endIndex == start)
      invariant Exploring(grid, rows, cols, start, visited[..], rank, seen, stack.Contents(), done, {})
      decreases |grid| - |seen|, |stack.Contents()|
    {
      var empty := stack.IsEmpty();
      if empty {
        break;
      }
      solved, rank, seen, done := PopAndExpand(cells, rows, cols, endIndex, stack, visited,
                                               grid, start, rank, seen, done);
      if solved {
        break;
      }
    }
  }

  /** One turn of the search loop: pops a node and expands it. */
  method PopAndExpand(cells: array<Cell>, rows: int, cols: int, endIndex: int,
                      stack: Stack, visited: array<Node>,
                      ghost grid: seq<Cell>, ghost start: int, ghost rank0: seq<int>, ghost seen0: set<int>,
                      ghost done0: int)
    returns (solved: bool, ghost rank: seq<int>, ghost seen: set<int>, ghost done: int)
    requires GridShape(cells.Length, rows, cols) && |grid| == cells.Length && ResetForSearch(grid)
    requires stack.Valid() && visited.Length == MAX && stack.elements != visited && stack.Contents() != []
    requires SeenColouring(cells[..], grid, seen0) && (endIndex in seen0 ==> endIndex == start)
    requires Exploring(grid, rows, cols, start, visited[..], rank0, seen0, stack.Contents(), done0, {})
    modifies cells, stack, stack.elements, visited
    ensures stack.Valid() && SeenColouring(cells[..], grid, seen)
    ensures solved ==> endIndex in seen && endIndex != start &&
                       ParentForest(grid, rows, cols, visited[..], rank, seen, start)
    ensures !solved ==> (endIndex in seen ==> endIndex == start) &&
                        Exploring(grid, rows, cols, start, visited[..], rank, seen, stack.Contents(), done, {})
    ensures |seen0| < |seen| || (|seen| == |seen0| && |stack.Contents()| < |old(stack.Contents())|)
  {
    ghost var before := stack.Contents();
    var current := stack.Pop();
    assert before == stack.Contents() + [current] + [];
    ExploringTake(grid, rows, cols, start, visited[..], rank0, seen0, stack.Contents(), current, [], done0);
    done := done0 + 1;
    solved, rank, seen := Expand(cells, rows, cols, endIndex, current, stack, visited,
                                 grid, start, rank0, seen0, done);
  }

  /**
   * The body of the search loop after the pop: examines the four neighbour
   * slots of `current`, discovering and pushing every open, unseen cell, and
   * stops at the end cell.
   */
  method Expand(cells: array<Cell>, rows: int, cols: int, endIndex: int, current: Node,
                stack: Stack, visited: array<Node>,
                ghost grid: seq<Cell>, ghost start: int, ghost rank0: seq<int>, ghost seen0: set<int>,
                ghost done: int)
    returns (solved: bool, ghost rank: seq<int>, ghost seen: set<int>)
    requires GridShape(cells.Length, rows, cols) && |grid| == cells.Length && ResetForSearch(grid)
    requires stack.Valid() && visited.Length == MAX && stack.elements != visited
    requires SeenColouring(cells[..], grid, seen0) && current.index in seen0
    requires endIndex in seen0 ==> endIndex == start
    requires Exploring(grid, rows, cols, start, visited[..], rank0, seen0, stack.Contents(), done, {current.index})
    modifies cells, stack, stack.elements, visited
    ensures stack.Valid() && SeenColouring(cells[..], grid, seen)
    ensures solved ==> endIndex in seen && endIndex != start &&
                       ParentForest(grid, rows, cols, visited[..], rank, seen, start)
    ensures !solved ==> (endIndex in seen ==> endIndex == start) &&
                        Exploring(grid, rows, cols, start, visited[..], rank, seen, stack.Contents(), done, {})
    ensures |seen0| <= |seen| && (|seen| == |seen0| ==> stack.Contents() == old(stack.Contents()))
  {
    var a := current.index;
    var indexes := new int[4](_ => -1);
    GetNeighbourIndexes(a, cols, rows, indexes);
    rank, seen := rank0, seen0;
    solved := false;
    var i := 0;
    while i < 4
      invariant 0 <= i <= 4 && !solved
      invariant stack.Valid() && SeenColouring(cells[..], grid, seen) && a in seen
      invariant endIndex in seen ==> endIndex == start
      invariant Exploring(grid, rows, cols, start, visited[..], rank, seen, stack.Contents(), done, {a})
      invariant SlotsIn(grid, rows, cols, a, seen, i)
      invariant |seen0| <= |seen| && (|seen| == |seen0| ==> stack.Contents() == old(stack.Contents()))
      modifies cells, stack, stack.elements, visited
    {
      solved, rank, seen := Examine(cells, rows, cols, endIndex, a, i, indexes[i], stack, visited,
                                    grid, start, rank, seen, done);
      if solved {
        break;
      }
      i := i + 1;
    }
  }



  /**
   * One pass of the loop over the neighbour slots: when slot `slot` of `a`
   * holds an open cell not yet seen, discovers it, and reports `solved`
   * when that cell is the end cell.
   */
  method Examine(cells: array<Cell>, rows: int, cols: int, endIndex: int, a: int, slot: int, n: int,
                 stack: Stack, visited: array<Node>,
                 ghost grid: seq<Cell>, ghost start: int, ghost rank0: seq<int>, ghost seen0: set<int>,
                 ghost done: int)
    returns (solved: bool, ghost rank: seq<int>, ghost seen: set<int>)
    requires GridShape(cells.Length, rows, cols) && |grid| == cells.Length && ResetForSearch(grid)
    requires stack.Valid() && visited.Length == MAX && stack.elements != visited
    requires SeenColouring(cells[..], grid, seen0) && a in seen0 && (endIndex in seen0 ==> endIndex == start)
    requires Exploring(grid, rows, cols, start, visited[..], rank0, seen0, stack.Contents(), done, {a})
    requires 0 <= slot < 4 && SlotsIn(grid, rows, cols, a, seen0, slot)
    requires n == if HasNeighbour(a, cols, rows, slot) then NeighbourIndex(a, cols, slot) else -1
    modifies cells, stack, stack.elements, visited
    ensures stack.Valid() && SeenColouring(cells[..], grid, seen) && a in seen
    ensures Exploring(grid, rows, cols, start, visited[..], rank, seen, stack.Contents(), done, {a})
    ensures solved ==> endIndex in seen && endIndex != start
    ensures !solved ==> (endIndex in seen ==> endIndex == start) && SlotsIn(grid, rows, cols, a, seen, slot + 1)
    ensures |seen0| <= |seen| && (|seen| == |seen0| ==> stack.Contents() == old(stack.Contents()))
  {
    SlotIsNeighbour(grid, rows, cols, a, slot);
    rank, seen := rank0, seen0;
    solved := false;
    if n != -1 && cells[n].color != Beige && cells[n].color != SkyBlue {
      assert n !in seen && cells[n] == grid[n];
      rank, seen := Discover(cells, rows, cols, n, a, slot, stack, visited, grid, start, rank, seen, done);
      if n == endIndex {
        solved := true;
      }
    } else {
      if HasNeighbour(a, cols, rows, slot) {
        assert cells[n] == if n in seen then grid[n].(color := SkyBlue) else grid[n];
      }
      ExploringSkip(grid, rows, cols, a, seen, slot);
    }
  }

  /**
   * Discovers the open, unseen neighbour n of `a` in slot `slot`: paints it
   * sky blue, records `a` as its parent and pushes it.
   */
  method Discover(cells: array<Cell>, rows: int, cols: int, n: int, a: int, slot: int,
                  stack: Stack, visited: array<Node>,
                  ghost grid: seq<Cell>, ghost start: int, ghost rank0: seq<int>, ghost seen0: set<int>,
                  ghost done: int)
    returns (ghost rank: seq<int>, ghost seen: set<int>)
    requires GridShape(cells.Length, rows, cols) && |grid| == cells.Length
    requires stack.Valid() && visited.Length == MAX && stack.elements != visited
    requires SeenColouring(cells[..], grid, seen0) && a in seen0
    requires Exploring(grid, rows, cols, start, visited[..], rank0, seen0, stack.Contents(), done, {a})
    requires 0 <= slot < 4 && HasNeighbour(a, cols, rows, slot) && n == NeighbourIndex(a, cols, slot)
    requires SlotsIn(grid, rows, cols, a, seen0, slot)
    requires 0 <= n < |grid| && n !in seen0 && !IsWall(grid[n])
    modifies cells, stack, stack.elements, visited
    ensures stack.Valid() && SeenColouring(cells[..], grid, seen) && seen == seen0 + {n} && n != start
    ensures Exploring(grid, rows, cols, start, visited[..], rank, seen, stack.Contents(), done, {a})
    ensures SlotsIn(grid, rows, cols, a, seen, slot + 1)
    ensures stack.Contents() == old(stack.Contents()) + [Node(n, a, 0)]
  {
    ExploringDiscover(grid, rows, cols, start, visited[..], rank0, seen0, stack.Contents(), done, a, slot, |seen0|);
    ColourStep(cells[..], grid, seen0, n);
    ghost var v := visited[..];
    ghost var now := cells[..];
    cells[n] := cells[n].(color := SkyBlue);
    assert cells[..] == now[n := now[n].(color := SkyBlue)];
    var neighbour := Node(n, a, 0);
    visited[n] := neighbour;
    assert visited[..] == v[n := neighbour];
    var pushed := stack.Push(neighbour);
    rank, seen := rank0[n := |seen0|], seen0 + {n};
  }

  /**
   * The search as written declares `Stack stack;`, whose top starts at 0
   * rather than -1: after the start node is pushed and popped the stack
   * still reports a node, slot 0, that was never pushed, so an exhausted
   * search goes on to expand it.
   */
  method DefaultStackExhaustion(start: Node) returns (empty: bool)
    ensures !empty
  {
    var stack := new Stack();
    var pushed := stack.Push(start);
    var current := stack.Pop();
    empty := stack.IsEmpty();
  }
}
