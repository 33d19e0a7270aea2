/**
 * What the four grid searches share: routes through open cells, the parent
 * links they record in their visited tables, and the final walk from the end
 * cell back to the start that paints the reported path gold.
 */
module Walks {
  import opened Cells
  import opened Geometry

  /** The grids the engine runs on: positive dimensions, one cell per index, at most MAX cells. */
  predicate GridShape(n: int, rows: int, cols: int) {
    rows > 0 && cols > 0 && n == rows * cols && n <= MAX
  }

  /**
   * w leads from `from` to `to` through 4-adjacent cells of the grid, and
   * every cell after the first is open (not a wall).
   */
  ghost predicate Route(grid: seq<Cell>, rows: int, cols: int, w: seq<int>, from: int, to: int)
    requires cols > 0
  {
    |w| >= 1 && w[0] == from && w[|w| - 1] == to &&
    (forall k :: 0 <= k < |w| ==> 0 <= w[k] < |grid|) &&
    (forall k :: 0 < k < |w| ==> Adjacent(w[k - 1], w[k], rows, cols) && !IsWall(grid[w[k]]))
  }

  ghost predicate Distinct(w: seq<int>) {
    forall a, b :: 0 <= a < b < |w| ==> w[a] != w[b]
  }

  /** The open neighbours of cell a in the slots below `upto` that GetNeighbourIndexes fills all lie in s. */
  ghost predicate SlotsIn(grid: seq<Cell>, rows: int, cols: int, a: int, s: set<int>, upto: int)
    requires GridShape(|grid|, rows, cols)
  {
    forall slot :: 0 <= slot < upto && HasNeighbour(a, cols, rows, slot) ==>
      var b := NeighbourIndex(a, cols, slot);
      0 <= b < |grid| && (!IsWall(grid[b]) ==> b in s)
  }

  /** All open neighbours of cell a lie in s. */
  ghost predicate NeighboursIn(grid: seq<Cell>, rows: int, cols: int, a: int, s: set<int>)
    requires GridShape(|grid|, rows, cols)
  {
    SlotsIn(grid, rows, cols, a, s, 4)
  }

  lemma NeighboursGrow(grid: seq<Cell>, rows: int, cols: int, s: set<int>, n: int)
    requires GridShape(|grid|, rows, cols)
    ensures forall a, upto :: SlotsIn(grid, rows, cols, a, s, upto) ==> SlotsIn(grid, rows, cols, a, s + {n}, upto)
  {
  }

  /** The index in a filled slot is an adjacent cell of the grid. */
  lemma SlotIsNeighbour(grid: seq<Cell>, rows: int, cols: int, a: int, slot: int)
    requires GridShape(|grid|, rows, cols) && 0 <= a < |grid| && 0 <= slot < 4
    ensures HasNeighbour(a, cols, rows, slot) ==>
      0 <= NeighbourIndex(a, cols, slot) < |grid| && Adjacent(a, NeighbourIndex(a, cols, slot), rows, cols)
  {
    if HasNeighbour(a, cols, rows, slot) {
      NeighbourIsAdjacent(a, cols, rows, slot);
    }
  }

  /** The indices of the nodes of s. */
  ghost function IndicesOf(s: seq<Node>): set<int> {
    set k | 0 <= k < |s| :: s[k].index
  }

  lemma IndicesAppend(s: seq<Node>, x: Node)
    ensures IndicesOf(s + [x]) == IndicesOf(s) + {x.index}
  {
    var t := s + [x];
    assert t[|s|] == x;
    forall b | b in IndicesOf(t) ensures b in IndicesOf(s) + {x.index} {
      var k :| 0 <= k < |t| && t[k].index == b;
      if k < |s| {
        assert s[k] == t[k];
      }
    }
    forall b | b in IndicesOf(s) ensures b in IndicesOf(t) {
      var k :| 0 <= k < |s| && s[k].index == b;
      assert t[k] == s[k];
    }
  }

  /** The index of every member of s is among the indices of s. */
  lemma MemberIndex(s: seq<Node>, x: Node)
    requires x in s
    ensures x.index in IndicesOf(s)
  {
    var k :| 0 <= k < |s| && s[k] == x;
  }

  /** A set of grid indices has at most as many members as the grid has cells. */
  lemma {:induction false} SubsetBound(s: set<int>, n: int)
    requires n >= 0 && forall x :: x in s ==> 0 <= x < n
    ensures |s| <= n
  {
    if n <= 0 {
      assert forall x :: x !in s;
      assert s == {};
    } else {
      SubsetBound(s - {n - 1}, n - 1);
    }
  }

  /** now is the grid with the cells of seen painted sky blue. */
  ghost predicate SeenColouring(now: seq<Cell>, grid: seq<Cell>, seen: set<int>) {
    |now| == |grid| &&
    forall i :: 0 <= i < |now| ==> now[i] == if i in seen then grid[i].(color := SkyBlue) else grid[i]
  }

  lemma ColourStep(now: seq<Cell>, grid: seq<Cell>, seen: set<int>, n: int)
    requires SeenColouring(now, grid, seen) && 0 <= n < |now|
    ensures SeenColouring(now[n := now[n].(color := SkyBlue)], grid, seen + {n})
  {
  }

  /** Paints cell n sky blue unless it is `found`, that is, already recorded and painted; either way n is recorded. */
  method PaintUnlessFound(cells: array<Cell>, n: int, found: bool, ghost grid: seq<Cell>, ghost rec0: set<int>)
    requires SeenColouring(cells[..], grid, rec0) && 0 <= n < cells.Length && (found ==> n in rec0)
    modifies cells
    ensures SeenColouring(cells[..], grid, rec0 + {n})
    ensures cells[..] == if found then old(cells[..]) else old(cells[..])[n := old(cells[n]).(color := SkyBlue)]
  {
    if !found {
      ColourStep(cells[..], grid, rec0, n);
      cells[n] := cells[n].(color := SkyBlue);
    } else {
      assert rec0 + {n} == rec0;
    }
  }

  /** Dropping the last cell of a route of two or more cells leaves a route to the cell before it. */
  lemma RoutePrefix(grid: seq<Cell>, rows: int, cols: int, w: seq<int>, from: int, to: int)
    requires GridShape(|grid|, rows, cols) && Route(grid, rows, cols, w, from, to) && |w| >= 2
    ensures var p := w[|w| - 2];
      0 <= p < |grid| && 0 <= to < |grid| && Adjacent(p, to, rows, cols) && !IsWall(grid[to]) &&
      Route(grid, rows, cols, w[..|w| - 1], from, p)
  {
    assert Adjacent(w[|w| - 2], w[|w| - 1], rows, cols);
  }

  /** A route to p continues to an open cell adjacent to p. */
  lemma RouteExtend(grid: seq<Cell>, rows: int, cols: int, w: seq<int>, from: int, p: int, z: int)
    requires GridShape(|grid|, rows, cols) && Route(grid, rows, cols, w, from, p)
    requires 0 <= z < |grid| && Adjacent(p, z, rows, cols) && !IsWall(grid[z])
    ensures Route(grid, rows, cols, w + [z], from, z) && (w + [z])[..|w|] == w
  {
    var w' := w + [z];
    forall k | 0 < k < |w'| ensures Adjacent(w'[k - 1], w'[k], rows, cols) && !IsWall(grid[w'[k]]) {
      if k < |w| {
        assert w'[k - 1] == w[k - 1] && w'[k] == w[k];
      }
    }
  }

  /** An open cell adjacent to a and outside s shows that not all open neighbours of a lie in s. */
  lemma OpenNeighbourOutside(grid: seq<Cell>, rows: int, cols: int, a: int, y: int, s: set<int>)
    requires GridShape(|grid|, rows, cols) && Adjacent(a, y, rows, cols)
    requires 0 <= y < |grid| && !IsWall(grid[y]) && y !in s
    ensures !NeighboursIn(grid, rows, cols, a, s)
  {
    var slot := AdjacentIsNeighbour(a, y, cols, rows);
  }

  /**
   * A set of cells that contains `start` and the open neighbours of each of
   * its cells contains the end of every route from `start`.
   */
  lemma {:induction false} ClosedSetContainsRoutes(grid: seq<Cell>, rows: int, cols: int, s: set<int>,
                                                   start: int, w: seq<int>, to: int)
    requires GridShape(|grid|, rows, cols) && start in s
    requires forall a :: a in s ==> NeighboursIn(grid, rows, cols, a, s)
    requires Route(grid, rows, cols, w, start, to)
    ensures to in s
  {
    if |w| > 1 {
      var w' := w[..|w| - 1];
      ClosedSetContainsRoutes(grid, rows, cols, s, start, w', w'[|w'| - 1]);
      var a := w[|w| - 2];
      var slot := AdjacentIsNeighbour(a, to, cols, rows);
      assert NeighboursIn(grid, rows, cols, a, s);
    }
  }

  /**
   * The visited table v records, for every cell n of `recorded`, a node for n
   * whose parent is -1 exactly at `start`; every other parent is a recorded,
   * adjacent cell of smaller rank, and n itself was open.
   */
  ghost predicate ParentForest(grid: seq<Cell>, rows: int, cols: int, v: seq<Node>, rank: seq<int>,
                               recorded: set<int>, start: int)
    requires GridShape(|grid|, rows, cols)
  {
    start in recorded && |v| == MAX && |rank| == MAX &&
    (forall n :: n in recorded ==> 0 <= n < |grid| && rank[n] >= 0) &&
    (forall n {:trigger ParentLink(grid, rows, cols, v, rank, recorded, start, n)} ::
      n in recorded ==> ParentLink(grid, rows, cols, v, rank, recorded, start, n))
  }

  ghost predicate ParentLink(grid: seq<Cell>, rows: int, cols: int, v: seq<Node>, rank: seq<int>,
                             recorded: set<int>, start: int, n: int)
    requires GridShape(|grid|, rows, cols) && |v| == MAX && |rank| == MAX
  {
    0 <= n < |grid| && v[n].index == n && rank[n] >= 0 &&
    (v[n].parentIndex == -1 <==> n == start) &&
    (n != start ==>
      var p := v[n].parentIndex;
      p in recorded && 0 <= p < |grid| && rank[p] < rank[n] &&
      Adjacent(p, n, rows, cols) && !IsWall(grid[n]))
  }

  /**
   * Recording n with parent a keeps the table a parent forest, provided a is
   * recorded and adjacent, n is open and not the start, the new rank exceeds
   * a's and, when n was recorded before, does not exceed its old rank.
   */
  lemma ForestLink(grid: seq<Cell>, rows: int, cols: int, v: seq<Node>, rank: seq<int>,
                   recorded: set<int>, start: int, n: int, a: int, d: int, r: int)
    requires GridShape(|grid|, rows, cols) && ParentForest(grid, rows, cols, v, rank, recorded, start)
    requires 0 <= n < |grid| && n != start && !IsWall(grid[n])
    requires a in recorded && Adjacent(a, n, rows, cols)
    requires rank[a] < r && (n in recorded ==> r <= rank[n])
    ensures ParentForest(grid, rows, cols, v[n := Node(n, a, d)], rank[n := r], recorded + {n}, start)
  {
    var v', rank', recorded' := v[n := Node(n, a, d)], rank[n := r], recorded + {n};
    assert ParentLink(grid, rows, cols, v, rank, recorded, start, a);
    forall x | x in recorded' ensures ParentLink(grid, rows, cols, v', rank', recorded', start, x) {
      if x != n {
        assert ParentLink(grid, rows, cols, v, rank, recorded, start, x);
      }
    }
  }

  /** The cells met following parent links from n back to `start`, listed start first. */
  ghost function Chain(grid: seq<Cell>, rows: int, cols: int, v: seq<Node>, rank: seq<int>,
                       recorded: set<int>, start: int, n: int): seq<int>
    requires GridShape(|grid|, rows, cols) && ParentForest(grid, rows, cols, v, rank, recorded, start)
    requires n in recorded
    decreases rank[n]
  {
    assert ParentLink(grid, rows, cols, v, rank, recorded, start, n);
    if v[n].parentIndex == -1 then [n]
    else Chain(grid, rows, cols, v, rank, recorded, start, v[n].parentIndex) + [n]
  }

  /**
   * The chain from a recorded cell is a route from `start` to it whose ranks
   * strictly increase, so no cell appears twice.
   */
  lemma {:induction false} ChainIsRoute(grid: seq<Cell>, rows: int, cols: int, v: seq<Node>, rank: seq<int>,
                                        recorded: set<int>, start: int, n: int)
    requires GridShape(|grid|, rows, cols) && ParentForest(grid, rows, cols, v, rank, recorded, start)
    requires n in recorded
    ensures var c := Chain(grid, rows, cols, v, rank, recorded, start, n);
      Route(grid, rows, cols, c, start, n) && Distinct(c) &&
      (forall k :: 0 <= k < |c| ==> c[k] in recorded && 0 <= rank[c[k]] <= rank[n])
    decreases rank[n]
  {
    assert ParentLink(grid, rows, cols, v, rank, recorded, start, n);
    var c := Chain(grid, rows, cols, v, rank, recorded, start, n);
    if v[n].parentIndex != -1 {
      var p := v[n].parentIndex;
      ChainIsRoute(grid, rows, cols, v, rank, recorded, start, p);
      var c' := Chain(grid, rows, cols, v, rank, recorded, start, p);
      assert c == c' + [n];
      forall a, b | 0 <= a < b < |c| ensures c[a] != c[b] {
        if b == |c| - 1 {
          assert rank[c'[a]] <= rank[p] < rank[n];
        }
      }
    }
  }

  lemma ChainUnfold(grid: seq<Cell>, rows: int, cols: int, v: seq<Node>, rank: seq<int>,
                    recorded: set<int>, start: int, n: int)
    requires GridShape(|grid|, rows, cols) && ParentForest(grid, rows, cols, v, rank, recorded, start)
    requires n in recorded && v[n].parentIndex != -1
    ensures v[n].parentIndex in recorded && rank[v[n].parentIndex] < rank[n]
    ensures v[v[n].parentIndex].index == v[n].parentIndex
    ensures Chain(grid, rows, cols, v, rank, recorded, start, n)
         == Chain(grid, rows, cols, v, rank, recorded, start, v[n].parentIndex) + [n]
  {
    assert ParentLink(grid, rows, cols, v, rank, recorded, start, n);
    assert ParentLink(grid, rows, cols, v, rank, recorded, start, v[n].parentIndex);
  }

  lemma ChainEnds(grid: seq<Cell>, rows: int, cols: int, v: seq<Node>, rank: seq<int>,
                  recorded: set<int>, start: int, n: int)
    requires GridShape(|grid|, rows, cols) && ParentForest(grid, rows, cols, v, rank, recorded, start)
    requires n in recorded
    ensures v[n].index == n
    ensures v[n].parentIndex == -1 ==> Chain(grid, rows, cols, v, rank, recorded, start, n) == [n]
  {
    assert ParentLink(grid, rows, cols, v, rank, recorded, start, n);
  }

  /** now is before with exactly the cells of path painted gold. */
  ghost predicate PaintedGold(now: seq<Cell>, before: seq<Cell>, path: seq<int>) {
    |now| == |before| &&
    forall i :: 0 <= i < |now| ==> now[i] == if i in path then before[i].(color := Gold) else before[i]
  }

  lemma PaintStep(now: seq<Cell>, before: seq<Cell>, path: seq<int>, j: int)
    requires (path == [] && now == before) || PaintedGold(now, before, path)
    requires 0 <= j < |now|
    ensures PaintedGold(now[j := now[j].(color := Gold)], before, [j] + path)
  {
  }

  /**
   * Follows parent links from the end cell to the start, painting each cell
   * gold (the closing block shared by the four searches). Returns, as a
   * ghost, the painted cells listed start first.
   */
  method TracePath(cells: array<Cell>, rows: int, cols: int, visited: array<Node>, endIndex: int,
                   ghost grid: seq<Cell>, ghost rank: seq<int>, ghost recorded: set<int>, ghost start: int)
    returns (ghost path: seq<int>)
    requires GridShape(cells.Length, rows, cols) && |grid| == cells.Length
    requires ParentForest(grid, rows, cols, visited[..], rank, recorded, start)
    requires endIndex in recorded
    modifies cells
    ensures path == Chain(grid, rows, cols, visited[..], rank, recorded, start, endIndex)
    ensures PaintedGold(cells[..], old(cells[..]), path)
  {
    ghost var v := visited[..];
    ghost var before := cells[..];
    ghost var full := Chain(grid, rows, cols, v, rank, recorded, start, endIndex);
    ChainEnds(grid, rows, cols, v, rank, recorded, start, endIndex);
    var current := visited[endIndex];
    PaintStep(cells[..], before, [], current.index);
    cells[current.index] := cells[current.index].(color := Gold);
    path := [current.index];
    while current.parentIndex != -1
      invariant visited[..] == v
      invariant current.index in recorded && current == v[current.index]
      invariant |path| >= 1 && path[0] == current.index
      invariant full == Chain(grid, rows, cols, v, rank, recorded, start, current.index) + path[1..]
      invariant PaintedGold(cells[..], before, path)
      decreases rank[current.index]
    {
      ChainUnfold(grid, rows, cols, v, rank, recorded, start, current.index);
      ghost var old_path := path;
      current := visited[current.parentIndex];
      PaintStep(cells[..], before, path, current.index);
      cells[current.index] := cells[current.index].(color := Gold);
      path := [current.index] + path;
      assert path[1..] == old_path;
    }
    ChainEnds(grid, rows, cols, v, rank, recorded, start, current.index);
    assert full == path;
  }

  /** Every recorded cell other than the start is open. */
  lemma ForestIsOpen(grid: seq<Cell>, rows: int, cols: int, v: seq<Node>, rank: seq<int>,
                     recorded: set<int>, start: int)
    requires GridShape(|grid|, rows, cols) && ParentForest(grid, rows, cols, v, rank, recorded, start)
    ensures forall n :: n in recorded && n != start ==> !IsWall(grid[n])
  {
    forall n | n in recorded && n != start ensures !IsWall(grid[n]) {
      assert ParentLink(grid, rows, cols, v, rank, recorded, start, n);
    }
  }

  /**
   * What DepthFirstSearch and BreadthFirstSearch keep about the cells they
   * have discovered (`seen`) and the nodes still waiting to be expanded
   * (`pending`, `done` of them already taken out): the visited table is a
   * parent forest over `seen` ranked by discovery order, and every seen cell
   * is pending, being expanded (in `current`) or has all its open neighbours
   * seen.
   */
  ghost predicate Exploring(grid: seq<Cell>, rows: int, cols: int, start: int,
                            v: seq<Node>, rank: seq<int>, seen: set<int>,
                            pending: seq<Node>, done: int, current: set<int>)
    requires GridShape(|grid|, rows, cols)
  {
    ParentForest(grid, rows, cols, v, rank, seen, start) &&
    (forall x :: x in seen ==> rank[x] < |seen|) &&
    (forall k :: 0 <= k < |pending| ==> pending[k].index in seen) &&
    (forall a :: a in seen ==> a in IndicesOf(pending) || a in current || NeighboursIn(grid, rows, cols, a, seen)) &&
    0 <= done && |pending| + done == |seen| && |seen| <= |grid|
  }

  /** The state just after the start node is pushed or enqueued. */
  lemma ExploringStart(grid: seq<Cell>, rows: int, cols: int, start: int, v: seq<Node>, rank: seq<int>)
    requires GridShape(|grid|, rows, cols) && 0 <= start < |grid|
    requires |v| == MAX && |rank| == MAX && v[start] == Node(start, -1, 0) && rank[start] == 0
    ensures Exploring(grid, rows, cols, start, v, rank, {start}, [Node(start, -1, 0)], 0, {})
  {
    assert ParentLink(grid, rows, cols, v, rank, {start}, start, start);
    var p := [Node(start, -1, 0)];
    assert p[0].index == start;
    assert start in IndicesOf(p);
  }

  /** Taking node x out of the pending nodes makes its cell the one being expanded. */
  lemma ExploringTake(grid: seq<Cell>, rows: int, cols: int, start: int, v: seq<Node>, rank: seq<int>,
                      seen: set<int>, pre: seq<Node>, x: Node, post: seq<Node>, done: int)
    requires GridShape(|grid|, rows, cols)
    requires Exploring(grid, rows, cols, start, v, rank, seen, pre + [x] + post, done, {})
    ensures x.index in seen
    ensures Exploring(grid, rows, cols, start, v, rank, seen, pre + post, done + 1, {x.index})
  {
    var p, q := pre + [x] + post, pre + post;
    assert p[|pre|] == x;
    forall a | a in IndicesOf(p) ensures a in IndicesOf(q) || a == x.index {
      var k :| 0 <= k < |p| && p[k].index == a;
      if k < |pre| {
        assert q[k] == p[k];
      } else if k > |pre| {
        assert q[k - 1] == p[k];
      }
    }
    forall k | 0 <= k < |q| ensures q[k].index in seen {
      if k < |pre| {
        assert q[k] == p[k];
      } else {
        assert q[k] == p[k + 1];
      }
    }
  }

  /**
   * Discovering the open, unseen cell n in slot `slot` of the cell a being
   * expanded, recording it with parent a at rank r (above a's, at most the
   * number of cells seen so far) and appending its node to the pending ones
   * keeps the exploration facts; it needs only a free place among MAX.
   */
  lemma ExploringDiscover(grid: seq<Cell>, rows: int, cols: int, start: int, v: seq<Node>, rank: seq<int>,
                          seen: set<int>, pending: seq<Node>, done: int, a: int, slot: int, r: int)
    requires GridShape(|grid|, rows, cols)
    requires Exploring(grid, rows, cols, start, v, rank, seen, pending, done, {a})
    requires a in seen && 0 <= slot < 4 && HasNeighbour(a, cols, rows, slot)
    requires SlotsIn(grid, rows, cols, a, seen, slot)
    requires var n := NeighbourIndex(a, cols, slot); 0 <= n < |grid| && n !in seen && !IsWall(grid[n])
    requires rank[a] < r <= |seen|
    ensures var n := NeighbourIndex(a, cols, slot);
      |pending| < MAX && |seen| < |grid| && n != start &&
      Exploring(grid, rows, cols, start, v[n := Node(n, a, 0)], rank[n := r], seen + {n},
                pending + [Node(n, a, 0)], done, {a}) &&
      SlotsIn(grid, rows, cols, a, seen + {n}, slot + 1)
  {
    var n := NeighbourIndex(a, cols, slot);
    SlotIsNeighbour(grid, rows, cols, a, slot);
    SubsetBound(seen + {n}, |grid|);
    ForestLink(grid, rows, cols, v, rank, seen, start, n, a, 0, r);
    ExploringAppend(grid, rows, cols, start, v, rank, seen, pending, done, a, n, v[n := Node(n, a, 0)], r);
    NeighboursGrow(grid, rows, cols, seen, n);
  }

  /** The bookkeeping half of ExploringDiscover, once the parent forest has been extended by n. */
  lemma ExploringAppend(grid: seq<Cell>, rows: int, cols: int, start: int, v: seq<Node>, rank: seq<int>,
                        seen: set<int>, pending: seq<Node>, done: int, a: int, n: int, v': seq<Node>, r: int)
    requires GridShape(|grid|, rows, cols)
    requires Exploring(grid, rows, cols, start, v, rank, seen, pending, done, {a})
    requires 0 <= n < |grid| && n !in seen && |seen + {n}| <= |grid| && r <= |seen|
    requires ParentForest(grid, rows, cols, v', rank[n := r], seen + {n}, start)
    ensures Exploring(grid, rows, cols, start, v', rank[n := r], seen + {n}, pending + [Node(n, a, 0)], done, {a})
  {
    var seen', pending' := seen + {n}, pending + [Node(n, a, 0)];
    var rank' := rank[n := r];
    NeighboursGrow(grid, rows, cols, seen, n);
    IndicesAppend(pending, Node(n, a, 0));
    forall x | x in seen' ensures rank'[x] < |seen'| {
      if x != n {
        assert rank[x] < |seen|;
      }
    }
    forall k | 0 <= k < |pending'| ensures pending'[k].index in seen' {
      if k < |pending| {
        assert pending'[k] == pending[k];
      }
    }
    forall b | b in seen'
      ensures b in IndicesOf(pending') || b in {a} || NeighboursIn(grid, rows, cols, b, seen')
    {
      if b != n && b !in IndicesOf(pending) && b != a {
        assert NeighboursIn(grid, rows, cols, b, seen);
      }
    }
  }

  /** A slot whose neighbour is absent, a wall or already seen needs nothing more. */
  lemma ExploringSkip(grid: seq<Cell>, rows: int, cols: int, a: int, seen: set<int>, slot: int)
    requires GridShape(|grid|, rows, cols) && 0 <= a < |grid| && 0 <= slot < 4
    requires SlotsIn(grid, rows, cols, a, seen, slot)
    requires HasNeighbour(a, cols, rows, slot) ==>
      var n := NeighbourIndex(a, cols, slot); 0 <= n < |grid| && (n in seen || IsWall(grid[n]))
    ensures SlotsIn(grid, rows, cols, a, seen, slot + 1)
  {
  }

  /**
   * What a search leaves behind: the cells of `seen` painted sky blue and
   * those of `path` gold over the grid it started from; seen cells other
   * than the start are open; a non-empty path is a route of distinct cells
   * from the start to the end; an empty one means that start and end
   * coincide or that no route joins them.
   */
  ghost predicate SearchOutcome(grid: seq<Cell>, now: seq<Cell>, rows: int, cols: int, start: int, end: int,
                                path: seq<int>, seen: set<int>)
    requires GridShape(|grid|, rows, cols)
  {
    |now| == |grid| && start in seen &&
    (forall i :: i in seen ==> 0 <= i < |grid| && (i != start ==> !IsWall(grid[i]))) &&
    (forall i :: 0 <= i < |grid| ==>
      now[i] == if i in path then grid[i].(color := Gold)
                else if i in seen then grid[i].(color := SkyBlue)
                else grid[i]) &&
    (path != [] ==> Route(grid, rows, cols, path, start, end) && Distinct(path) &&
                    (forall k :: 0 <= k < |path| ==> path[k] in seen)) &&
    (path == [] ==> start == end || forall w :: !Route(grid, rows, cols, w, start, end)) &&
    (start == end ==> path == [])
  }

  /** The outcome when the end cell was found: trace the chain back and paint it. */
  lemma FoundOutcome(grid: seq<Cell>, mid: seq<Cell>, now: seq<Cell>, rows: int, cols: int, start: int, end: int,
                     v: seq<Node>, rank: seq<int>, seen: set<int>, path: seq<int>)
    requires GridShape(|grid|, rows, cols) && ParentForest(grid, rows, cols, v, rank, seen, start)
    requires end in seen && end != start
    requires SeenColouring(mid, grid, seen) && PaintedGold(now, mid, path)
    requires path == Chain(grid, rows, cols, v, rank, seen, start, end)
    ensures SearchOutcome(grid, now, rows, cols, start, end, path, seen)
  {
    ChainIsRoute(grid, rows, cols, v, rank, seen, start, end);
    ForestIsOpen(grid, rows, cols, v, rank, seen, start);
  }

  /**
   * The end of a search that discovered the end cell: paints the recorded
   * path gold, which makes the search's outcome a found route.
   */
  method PaintFound(cells: array<Cell>, rows: int, cols: int, visited: array<Node>, endIndex: int,
                    ghost grid: seq<Cell>, ghost rank: seq<int>, ghost seen: set<int>, ghost start: int)
    returns (ghost path: seq<int>)
    requires GridShape(cells.Length, rows, cols) && |grid| == cells.Length
    requires ParentForest(grid, rows, cols, visited[..], rank, seen, start)
    requires endIndex in seen && endIndex != start && SeenColouring(cells[..], grid, seen)
    modifies cells
    ensures SearchOutcome(grid, cells[..], rows, cols, start, endIndex, path, seen)
    ensures path == Chain(grid, rows, cols, old(visited[..]), rank, seen, start, endIndex)
  {
    ghost var mid := cells[..];
    path := TracePath(cells, rows, cols, visited, endIndex, grid, rank, seen, start);
    FoundOutcome(grid, mid, cells[..], rows, cols, start, endIndex, visited[..], rank, seen, path);
  }

  /**
   * The outcome when no route leaves the recorded cells: every recorded cell
   * has all its open neighbours recorded, and the end is recorded only when
   * it is the start.
   */
  lemma ClosedOutcome(grid: seq<Cell>, now: seq<Cell>, rows: int, cols: int, start: int, end: int,
                      v: seq<Node>, rank: seq<int>, seen: set<int>)
    requires GridShape(|grid|, rows, cols) && ParentForest(grid, rows, cols, v, rank, seen, start)
    requires forall a :: a in seen ==> NeighboursIn(grid, rows, cols, a, seen)
    requires SeenColouring(now, grid, seen) && (end in seen ==> end == start)
    ensures SearchOutcome(grid, now, rows, cols, start, end, [], seen)
  {
    ForestIsOpen(grid, rows, cols, v, rank, seen, start);
    forall w | Route(grid, rows, cols, w, start, end) ensures start == end {
      ClosedSetContainsRoutes(grid, rows, cols, seen, start, w, end);
    }
  }

  /** The outcome when DepthFirstSearch or BreadthFirstSearch ran out of cells to expand. */
  lemma ExhaustedOutcome(grid: seq<Cell>, now: seq<Cell>, rows: int, cols: int, start: int, end: int,
                         v: seq<Node>, rank: seq<int>, seen: set<int>, done: int)
    requires GridShape(|grid|, rows, cols)
    requires Exploring(grid, rows, cols, start, v, rank, seen, [], done, {})
    requires SeenColouring(now, grid, seen) && (end in seen ==> end == start)
    ensures SearchOutcome(grid, now, rows, cols, start, end, [], seen)
  {
    ClosedOutcome(grid, now, rows, cols, start, end, v, rank, seen);
  }
}
