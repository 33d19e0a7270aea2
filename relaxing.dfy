/**
 * What Dijkstra and AStar share: a distance table whose unreached entries
 * hold INT_MAX, a min-heap whose nodes have pairwise different cell indices,
 * and the facts kept while nodes are extracted and their neighbours relaxed.
 */
module Relaxing {
  import opened Cells
  import opened Geometry
  import opened Heap
  import opened Walks

  /** The distance column of a table. */
  ghost function Distances(t: seq<Node>): (r: seq<int>)
    ensures |r| == |t| && forall i :: 0 <= i < |t| ==> r[i] == t[i].distance
  {
    seq(|t|, i requires 0 <= i < |t| => t[i].distance)
  }

  /** What walking w costs: the entry cost of every cell after the first. */
  ghost function RouteCost(grid: seq<Cell>, w: seq<int>): int
    requires forall k :: 0 <= k < |w| ==> 0 <= w[k] < |grid|
  {
    if |w| <= 1 then 0 else RouteCost(grid, w[..|w| - 1]) + Cost(grid[w[|w| - 1]])
  }

  /** One more step costs what entering its cell costs. */
  lemma RouteCostAppend(grid: seq<Cell>, w: seq<int>, z: int)
    requires |w| >= 1 && (forall k :: 0 <= k < |w| ==> 0 <= w[k] < |grid|) && 0 <= z < |grid|
    ensures RouteCost(grid, w + [z]) == RouteCost(grid, w) + Cost(grid[z])
  {
    assert (w + [z])[..|w|] == w;
  }

  /**
   * Every open neighbour of a in the slots below `upto` has a distance in g
   * no greater than a's plus the cost of entering it: those slots of a are
   * relaxed.
   */
  ghost predicate RelaxedSlots(grid: seq<Cell>, rows: int, cols: int, g: seq<Node>, a: int, upto: int)
    requires GridShape(|grid|, rows, cols)
  {
    0 <= a < |grid| <= |g| &&
    forall slot :: 0 <= slot < upto && HasNeighbour(a, cols, rows, slot) ==>
      var b := NeighbourIndex(a, cols, slot);
      0 <= b < |grid| && (!IsWall(grid[b]) ==> g[b].distance <= g[a].distance + Cost(grid[b]))
  }

  /** Lowering the distance of another cell keeps the relaxed slots of a relaxed. */
  lemma RelaxedLowered(grid: seq<Cell>, rows: int, cols: int, g: seq<Node>, a: int, upto: int, n: int, x: Node)
    requires GridShape(|grid|, rows, cols) && RelaxedSlots(grid, rows, cols, g, a, upto)
    requires a != n && 0 <= n < |g| && x.distance <= g[n].distance
    ensures RelaxedSlots(grid, rows, cols, g[n := x], a, upto)
  {
  }

  /** A slot left alone because its neighbour is absent, a wall or no farther than through a is relaxed. */
  lemma RelaxedSkip(grid: seq<Cell>, rows: int, cols: int, g: seq<Node>, a: int, slot: int)
    requires GridShape(|grid|, rows, cols) && RelaxedSlots(grid, rows, cols, g, a, slot) && 0 <= slot < 4
    requires HasNeighbour(a, cols, rows, slot) ==>
      var n := NeighbourIndex(a, cols, slot);
      0 <= n < |grid| && (IsWall(grid[n]) || g[n].distance <= g[a].distance + Cost(grid[n]))
    ensures RelaxedSlots(grid, rows, cols, g, a, slot + 1)
  {
  }

  /**
   * An open cell next to a recorded cell whose slots are all relaxed is
   * recorded itself: its distance is at most a recorded distance plus 10,
   * which stays below INT_MAX.
   */
  lemma RelaxedReaches(grid: seq<Cell>, rows: int, cols: int, start: int, v: seq<Node>, g: seq<Node>,
                       rec: set<int>, h: seq<Node>, current: set<int>, p: int, n: int)
    requires GridShape(|grid|, rows, cols) && Settling(grid, rows, cols, start, v, g, rec, h, current)
    requires p in rec && 0 <= n < |grid| && Adjacent(p, n, rows, cols) && !IsWall(grid[n])
    ensures RelaxedSlots(grid, rows, cols, g, p, 4) ==> n in rec
  {
    var slot := AdjacentIsNeighbour(p, n, cols, rows);
    assert g[p].distance <= WEIGHTED_COST * (|rec| - 1) && |rec| <= MAX;
  }

  /** The distance of x is that of its parent plus the cost of entering x. */
  ghost predicate CostStep(grid: seq<Cell>, g: seq<Node>, x: int) {
    0 <= x < |grid| <= |g| && 0 <= g[x].parentIndex < |grid| &&
    g[x].distance == g[g[x].parentIndex].distance + Cost(grid[x])
  }

  /** Every recorded cell but the start costs its parent's distance plus its own entry cost. */
  ghost predicate CostForest(grid: seq<Cell>, g: seq<Node>, rec: set<int>, start: int) {
    forall x {:trigger CostStep(grid, g, x)} :: x in rec && x != start ==> CostStep(grid, g, x)
  }

  /** Then the chain of parents back to the start costs exactly the recorded distance. */
  lemma {:induction false} ChainCost(grid: seq<Cell>, rows: int, cols: int, start: int, g: seq<Node>,
                                     rec: set<int>, x: int)
    requires GridShape(|grid|, rows, cols) && ParentForest(grid, rows, cols, g, Distances(g), rec, start)
    requires g[start].distance == 0 && CostForest(grid, g, rec, start) && x in rec
    ensures var c := Chain(grid, rows, cols, g, Distances(g), rec, start, x);
      (forall k :: 0 <= k < |c| ==> 0 <= c[k] < |grid|) && RouteCost(grid, c) == g[x].distance
    decreases g[x].distance
  {
    var rank := Distances(g);
    ChainIsRoute(grid, rows, cols, g, rank, rec, start, x);
    ChainEnds(grid, rows, cols, g, rank, rec, start, x);
    if g[x].parentIndex != -1 {
      var p := g[x].parentIndex;
      ChainUnfold(grid, rows, cols, g, rank, rec, start, x);
      assert x != start && CostStep(grid, g, x);
      ChainCost(grid, rows, cols, start, g, rec, p);
      ChainIsRoute(grid, rows, cols, g, rank, rec, start, p);
      RouteCostAppend(grid, Chain(grid, rows, cols, g, rank, rec, start, p), x);
    } else {
      assert ParentLink(grid, rows, cols, g, rank, rec, start, x);
    }
  }

  /** The sum of the first n distances of t; every relaxation lowers it. */
  ghost function Potential(t: seq<Node>, n: int): int
    requires 0 <= n <= |t|
  {
    if n == 0 then 0 else Potential(t, n - 1) + t[n - 1].distance
  }

  lemma {:induction false} PotentialNonNegative(t: seq<Node>, n: int)
    requires 0 <= n <= |t| && forall i :: 0 <= i < n ==> t[i].distance >= 0
    ensures Potential(t, n) >= 0
  {
    if n > 0 {
      PotentialNonNegative(t, n - 1);
    }
  }

  lemma {:induction false} PotentialSame(t: seq<Node>, u: seq<Node>, n: int)
    requires 0 <= n <= |t| && n <= |u| && forall i :: 0 <= i < n ==> t[i].distance == u[i].distance
    ensures Potential(t, n) == Potential(u, n)
  {
    if n > 0 {
      PotentialSame(t, u, n - 1);
    }
  }

  /** Changing one entry below n changes the sum by the difference of its distances. */
  lemma {:induction false} PotentialUpdate(t: seq<Node>, n: int, j: int, x: Node)
    requires 0 <= j < n <= |t|
    ensures Potential(t[j := x], n) == Potential(t, n) - t[j].distance + x.distance
  {
    if j < n - 1 {
      PotentialUpdate(t, n - 1, j, x);
    } else {
      PotentialSame(t, t[j := x], n - 1);
    }
  }

  lemma SubsetCard(a: set<int>, b: set<int>)
    requires a <= b
    ensures |a| <= |b|
  {
    assert b == a + (b - a);
    assert a * (b - a) == {};
  }

  /** No two nodes of h share a cell index. */
  ghost predicate Unique(h: seq<Node>) {
    |IndicesOf(h)| == |h|
  }

  lemma {:induction false} IndicesBound(h: seq<Node>)
    ensures |IndicesOf(h)| <= |h|
  {
    if h != [] {
      var h' := h[..|h| - 1];
      assert h == h' + [h[|h| - 1]];
      IndicesBound(h');
      IndicesAppend(h', h[|h| - 1]);
    }
  }

  /** When no two nodes share an index, index g belongs to at most one node. */
  lemma UniqueAtMostOnce(h: seq<Node>, g: int)
    requires Unique(h)
    ensures AtMostOnce(h, g)
  {
    forall a, b | 0 <= a < |h| && 0 <= b < |h| && h[a].index == g && h[b].index == g
      ensures a == b
    {
      if a != b {
        var r := h[..b] + h[b + 1..];
        forall i | i in IndicesOf(h) ensures i in IndicesOf(r) {
          var k :| 0 <= k < |h| && h[k].index == i;
          var k' := if k == b then a else k;
          assert h[k'].index == i;
          if k' < b {
            assert r[k'] == h[k'];
          } else {
            assert r[k' - 1] == h[k'];
          }
        }
        IndicesBound(r);
        SubsetCard(IndicesOf(h), IndicesOf(r));
        assert false;
      }
    }
  }

  /** After ExtractMin took r: the indices left are those of h but r's, still unique. */
  lemma AfterExtract(h: seq<Node>, h': seq<Node>, r: Node)
    requires multiset(h') == multiset(h) - multiset{r} && r in h && Unique(h)
    ensures Unique(h') && forall i :: i in IndicesOf(h) ==> i in IndicesOf(h') || i == r.index
    ensures forall k :: 0 <= k < |h'| ==> h'[k] in h
  {
    forall k | 0 <= k < |h'| ensures h'[k] in h {
      assert h'[k] in multiset(h');
    }
    forall i | i in IndicesOf(h) && i != r.index ensures i in IndicesOf(h') {
      var k :| 0 <= k < |h| && h[k].index == i;
      assert h[k] in multiset(h');
      MemberIndex(h', h[k]);
    }
    assert |h'| == |h| - 1 by {
      assert |multiset(h)| == |h| && |multiset(h')| == |h'|;
    }
    MemberIndex(h, r);
    SubsetCard(IndicesOf(h) - {r.index}, IndicesOf(h'));
    assert |IndicesOf(h) - {r.index}| == |IndicesOf(h)| - 1;
    IndicesBound(h');
  }

  /** After Insert added x, whose index h lacked: the indices grow by x's, still unique. */
  lemma AfterInsert(h: seq<Node>, h': seq<Node>, x: Node)
    requires multiset(h') == multiset(h) + multiset{x} && Unique(h) && x.index !in IndicesOf(h)
    ensures Unique(h') && IndicesOf(h') == IndicesOf(h) + {x.index}
    ensures forall k :: 0 <= k < |h'| ==> h'[k] in h || h'[k] == x
  {
    forall k | 0 <= k < |h'| ensures h'[k] in h || h'[k] == x {
      assert h'[k] in multiset(h');
    }
    IndicesAppend(h, x);
    forall i | i in IndicesOf(h') ensures i in IndicesOf(h + [x]) {
      var k :| 0 <= k < |h'| && h'[k].index == i;
      assert h'[k] in multiset(h + [x]);
      MemberIndex(h + [x], h'[k]);
    }
    forall i | i in IndicesOf(h + [x]) ensures i in IndicesOf(h') {
      var k :| 0 <= k < |h + [x]| && (h + [x])[k].index == i;
      assert (h + [x])[k] in multiset(h');
      MemberIndex(h', (h + [x])[k]);
    }
    assert IndicesOf(h') == IndicesOf(h + [x]);
    assert |h'| == |h| + 1 by {
      assert |multiset(h)| == |h| && |multiset(h')| == |h'|;
    }
  }

  lemma WithPriorityIndices(h: seq<Node>, g: int, p: int)
    ensures IndicesOf(WithPriority(h, g, p)) == IndicesOf(h)
  {
    var w := WithPriority(h, g, p);
    forall i | i in IndicesOf(w) ensures i in IndicesOf(h) {
      var k :| 0 <= k < |w| && w[k].index == i;
      assert h[k].index == i;
    }
    forall i | i in IndicesOf(h) ensures i in IndicesOf(w) {
      var k :| 0 <= k < |h| && h[k].index == i;
      assert w[k].index == i;
    }
  }

  /** Two orderings of the same nodes have the same indices. */
  lemma PermutedIndices(a: seq<Node>, b: seq<Node>)
    requires multiset(a) == multiset(b)
    ensures IndicesOf(a) == IndicesOf(b) && |a| == |b|
  {
    forall i | i in IndicesOf(a) ensures i in IndicesOf(b) {
      var k :| 0 <= k < |a| && a[k].index == i;
      assert a[k] in multiset(b);
      MemberIndex(b, a[k]);
    }
    forall i | i in IndicesOf(b) ensures i in IndicesOf(a) {
      var k :| 0 <= k < |b| && b[k].index == i;
      assert b[k] in multiset(a);
      MemberIndex(a, b[k]);
    }
    assert |multiset(a)| == |a| && |multiset(b)| == |b|;
  }

  /** After DecreasePriority gave the node of index g priority p: same indices, still unique. */
  lemma AfterDecrease(h: seq<Node>, h': seq<Node>, g: int, p: int)
    requires multiset(h') == multiset(WithPriority(h, g, p)) && Unique(h)
    ensures Unique(h') && IndicesOf(h') == IndicesOf(h)
    ensures forall k :: 0 <= k < |h'| ==>
      (h'[k].index == g ==> h'[k].distance == p) && (h'[k].index != g ==> h'[k] in h)
  {
    var w := WithPriority(h, g, p);
    WithPriorityIndices(h, g, p);
    PermutedIndices(h', w);
    forall k | 0 <= k < |h'|
      ensures (h'[k].index == g ==> h'[k].distance == p) && (h'[k].index != g ==> h'[k] in h)
    {
      assert h'[k] in multiset(w);
      var j :| 0 <= j < |w| && w[j] == h'[k];
    }
  }

  /**
   * What Dijkstra and AStar keep about the recorded cells `rec` (those whose
   * distance in g is below INT_MAX) and the heap h: the parent table v is a
   * forest over rec ranked by the distances of g; the start has distance 0;
   * every recorded distance is at most WEIGHTED_COST per recorded cell; the
   * heap holds recorded cells, each once; and every recorded cell is in the
   * heap, being expanded (in `current`) or has all its open neighbours
   * recorded.
   */
  ghost predicate Settling(grid: seq<Cell>, rows: int, cols: int, start: int, v: seq<Node>, g: seq<Node>,
                           rec: set<int>, h: seq<Node>, current: set<int>)
    requires GridShape(|grid|, rows, cols)
  {
    |v| == MAX && |g| == MAX &&
    ParentForest(grid, rows, cols, v, Distances(g), rec, start) &&
    g[start].distance == 0 &&
    (forall i :: 0 <= i < |grid| && i !in rec ==> g[i].distance == INT_MAX) &&
    (forall x :: x in rec ==> g[x].distance <= WEIGHTED_COST * (|rec| - 1)) &&
    |rec| <= |grid| &&
    (forall k :: 0 <= k < |h| ==> h[k].index in rec) && Unique(h) &&
    (forall a :: a in rec ==> a in IndicesOf(h) || a in current || NeighboursIn(grid, rows, cols, a, rec))
  }

  /** Every distance below |grid| is non-negative, so the potential is too. */
  lemma SettlingPotential(grid: seq<Cell>, rows: int, cols: int, start: int, v: seq<Node>, g: seq<Node>,
                          rec: set<int>, h: seq<Node>, current: set<int>)
    requires GridShape(|grid|, rows, cols) && Settling(grid, rows, cols, start, v, g, rec, h, current)
    ensures Potential(g, |grid|) >= 0
  {
    PotentialNonNegative(g, |grid|);
  }

  /** The state just after the start node is inserted. */
  lemma SettlingStart(grid: seq<Cell>, rows: int, cols: int, start: int, v: seq<Node>, g: seq<Node>, h: seq<Node>)
    requires GridShape(|grid|, rows, cols) && 0 <= start < |grid|
    requires |v| == MAX && |g| == MAX && v[start] == Node(start, -1, 0) && g[start].distance == 0
    requires forall i :: 0 <= i < |grid| && i != start ==> g[i].distance == INT_MAX
    requires h == [Node(start, -1, 0)]
    ensures Settling(grid, rows, cols, start, v, g, {start}, h, {})
  {
    assert ParentLink(grid, rows, cols, v, Distances(g), {start}, start, start);
    assert h[0].index == start;
    assert start in IndicesOf(h);
    IndicesBound(h);
  }

  /** Extracting r from the heap makes its cell the one being expanded. */
  lemma SettlingExtract(grid: seq<Cell>, rows: int, cols: int, start: int, v: seq<Node>, g: seq<Node>,
                        rec: set<int>, h: seq<Node>, h': seq<Node>, r: Node)
    requires GridShape(|grid|, rows, cols) && Settling(grid, rows, cols, start, v, g, rec, h, {})
    requires multiset(h') == multiset(h) - multiset{r} && r in h
    ensures r.index in rec && Settling(grid, rows, cols, start, v, g, rec, h', {r.index})
  {
    var k :| 0 <= k < |h| && h[k] == r;
    AfterExtract(h, h', r);
    forall k | 0 <= k < |h'| ensures h'[k].index in rec {
      var j :| 0 <= j < |h| && h[j] == h'[k];
    }
  }

  /** Once all four slots of the expanded cell are done it needs nothing more. */
  lemma SettlingExpanded(grid: seq<Cell>, rows: int, cols: int, start: int, v: seq<Node>, g: seq<Node>,
                         rec: set<int>, h: seq<Node>, a: int)
    requires GridShape(|grid|, rows, cols) && Settling(grid, rows, cols, start, v, g, rec, h, {a})
    requires SlotsIn(grid, rows, cols, a, rec, 4)
    ensures Settling(grid, rows, cols, start, v, g, rec, h, {})
  {
  }

  /**
   * A slot needs nothing more when its neighbour is absent, a wall, or
   * already at most the distance through a: such a distance is below
   * INT_MAX, so that neighbour is recorded.
   */
  lemma SettlingSkip(grid: seq<Cell>, rows: int, cols: int, start: int, v: seq<Node>, g: seq<Node>,
                     rec: set<int>, h: seq<Node>, a: int, slot: int)
    requires GridShape(|grid|, rows, cols) && Settling(grid, rows, cols, start, v, g, rec, h, {a})
    requires a in rec && 0 <= slot < 4 && SlotsIn(grid, rows, cols, a, rec, slot)
    requires HasNeighbour(a, cols, rows, slot) ==>
      var n := NeighbourIndex(a, cols, slot);
      0 <= n < |grid| && (IsWall(grid[n]) || g[n].distance <= g[a].distance + Cost(grid[n]))
    ensures SlotsIn(grid, rows, cols, a, rec, slot + 1)
  {
    if HasNeighbour(a, cols, rows, slot) {
      var n := NeighbourIndex(a, cols, slot);
      if !IsWall(grid[n]) {
        assert g[a].distance + Cost(grid[n]) <= WEIGHTED_COST * |grid| <= WEIGHTED_COST * MAX;
      }
    }
  }

  /**
   * Relaxing the open neighbour n in slot `slot` of the cell a being
   * expanded: recording x = {n, a, distance of a + cost of n} in both tables,
   * when that is below n's distance, keeps the facts, provided the heap
   * afterwards holds n and the cells it held before, each once.
   */
  lemma SettlingRelax(grid: seq<Cell>, rows: int, cols: int, start: int, v: seq<Node>, g: seq<Node>,
                      rec: set<int>, h: seq<Node>, h': seq<Node>, a: int, slot: int, x: Node)
    requires GridShape(|grid|, rows, cols) && Settling(grid, rows, cols, start, v, g, rec, h, {a})
    requires a in rec && 0 <= slot < 4 && HasNeighbour(a, cols, rows, slot)
    requires SlotsIn(grid, rows, cols, a, rec, slot)
    requires var n := NeighbourIndex(a, cols, slot);
      0 <= n < |grid| && Adjacent(a, n, rows, cols) && (n in rec || !IsWall(grid[n])) &&
      x == Node(n, a, g[a].distance + Cost(grid[n])) && x.distance < g[n].distance
    requires var n := NeighbourIndex(a, cols, slot);
      Unique(h') && IndicesOf(h') == IndicesOf(h) + {n} && forall k :: 0 <= k < |h'| ==> h'[k].index in rec + {n}
    ensures var n := NeighbourIndex(a, cols, slot);
      n != start && !IsWall(grid[n]) &&
      Settling(grid, rows, cols, start, v[n := x], g[n := x], rec + {n}, h', {a}) &&
      SlotsIn(grid, rows, cols, a, rec + {n}, slot + 1) &&
      Potential(g[n := x], |grid|) < Potential(g, |grid|)
  {
    var n := NeighbourIndex(a, cols, slot);
    RelaxForest(grid, rows, cols, start, v, g, rec, a, n, x);
    NeighboursGrow(grid, rows, cols, rec, n);
    PotentialUpdate(g, |grid|, n, x);
    if n !in rec {
      SubsetBound(rec + {n}, |grid|);
    }
    var g' := g[n := x];
    assert forall i :: 0 <= i < |grid| && i !in rec + {n} ==> g'[i].distance == INT_MAX;
    assert forall y :: y in rec + {n} ==> g'[y].distance <= WEIGHTED_COST * (|rec + {n}| - 1);
  }

  /** The parent-forest half of SettlingRelax. */
  lemma RelaxForest(grid: seq<Cell>, rows: int, cols: int, start: int, v: seq<Node>, g: seq<Node>,
                    rec: set<int>, a: int, n: int, x: Node)
    requires GridShape(|grid|, rows, cols) && |v| == MAX && |g| == MAX
    requires ParentForest(grid, rows, cols, v, Distances(g), rec, start) && g[start].distance == 0
    requires a in rec && 0 <= n < |grid| && Adjacent(a, n, rows, cols) && (n in rec || !IsWall(grid[n]))
    requires x == Node(n, a, g[a].distance + Cost(grid[n])) && x.distance < g[n].distance
    ensures n != start && !IsWall(grid[n])
    ensures ParentForest(grid, rows, cols, v[n := x], Distances(g[n := x]), rec + {n}, start)
  {
    var rank := Distances(g);
    assert ParentLink(grid, rows, cols, v, rank, rec, start, a);
    ForestIsOpen(grid, rows, cols, v, rank, rec, start);
    assert Distances(g[n := x]) == rank[n := x.distance];
    ForestLink(grid, rows, cols, v, rank, rec, start, n, a, x.distance, x.distance);
  }

  /** With the heap empty and nothing being expanded, every recorded cell has its open neighbours recorded. */
  lemma SettlingDone(grid: seq<Cell>, rows: int, cols: int, start: int, v: seq<Node>, g: seq<Node>, rec: set<int>)
    requires GridShape(|grid|, rows, cols) && Settling(grid, rows, cols, start, v, g, rec, [], {})
    ensures forall a :: a in rec ==> NeighboursIn(grid, rows, cols, a, rec)
  {
  }

  /** A heap without the index n, over recorded cells of the grid, has room for one more node. */
  lemma HeapRoom(grid: seq<Cell>, rows: int, cols: int, start: int, v: seq<Node>, g: seq<Node>,
                 rec: set<int>, h: seq<Node>, current: set<int>, n: int)
    requires GridShape(|grid|, rows, cols) && Settling(grid, rows, cols, start, v, g, rec, h, current)
    requires 0 <= n < |grid| && forall k :: 0 <= k < |h| ==> h[k].index != n
    ensures n !in IndicesOf(h) && |h| < MAX
  {
    var s := IndicesOf(h) + {n};
    forall i | i in s ensures 0 <= i < |grid| {
      if i != n {
        var k :| 0 <= k < |h| && h[k].index == i;
      }
    }
    SubsetBound(s, |grid|);
  }

  /** The heap reports the cell n exactly when n is among the indices of its nodes. */
  lemma HeapHolds(h: seq<Node>, n: int)
    ensures n in IndicesOf(h) <==> exists k :: 0 <= k < |h| && h[k].index == n
  {
  }

  /**
   * Inserts the node of a cell that is not in the heap yet: the heap then
   * holds the cells it held before and that one, each once, and the node
   * for that cell carries the inserted priority.
   */
  method InsertHeapNode(minHeap: MinHeap, neighbour: Node, ghost h: seq<Node>, ghost v: seq<Node>, ghost g: seq<Node>,
                        ghost grid: seq<Cell>, ghost rows: int, ghost cols: int, ghost start: int,
                        ghost rec: set<int>, ghost a: int)
    requires GridShape(|grid|, rows, cols) && 0 <= neighbour.index < |grid|
    requires minHeap.Valid() && HeapOrdered(minHeap.Contents()) && minHeap.Contents() == h
    requires Settling(grid, rows, cols, start, v, g, rec, h, {a})
    requires forall k :: 0 <= k < |h| ==> h[k].index != neighbour.index
    modifies minHeap, minHeap.elements
    ensures minHeap.Valid() && HeapOrdered(minHeap.Contents())
    ensures Unique(minHeap.Contents()) && IndicesOf(minHeap.Contents()) == IndicesOf(h) + {neighbour.index}
    ensures forall k :: 0 <= k < |minHeap.Contents()| ==>
      (minHeap.Contents()[k].index == neighbour.index ==> minHeap.Contents()[k].distance == neighbour.distance) &&
      (minHeap.Contents()[k].index != neighbour.index ==> minHeap.Contents()[k] in h)
    ensures forall k :: 0 <= k < |minHeap.Contents()| ==> minHeap.Contents()[k].index in rec + {neighbour.index}
  {
    HeapRoom(grid, rows, cols, start, v, g, rec, h, {a}, neighbour.index);
    minHeap.Insert(neighbour);
    AfterInsert(h, minHeap.Contents(), neighbour);
    forall k | 0 <= k < |minHeap.Contents()| ensures minHeap.Contents()[k].index in rec + {neighbour.index} {
      if minHeap.Contents()[k] != neighbour {
        var j :| 0 <= j < |h| && h[j] == minHeap.Contents()[k];
      }
    }
  }
}
