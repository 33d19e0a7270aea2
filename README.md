# Pathfinding visualizer engine, modelled in Dafny

This project models the algorithmic engine of a grid pathfinding visualizer,
`pv_algorithms.cpp`. The engine works on a row-major grid of at most
`MAX` = 2500 cells. Each cell is open (`RAYWHITE`), a wall (`BEIGE`),
frontier or seen (`SKYBLUE`) or on the solution path (`GOLD`), and an open cell
may be weighted. The engine provides:

- three fixed-capacity containers of `Node {index, parentIndex, distance}`:
  a binary `MinHeap`, a `Stack` with removal at any index, and a `Queue`
  whose cursors only grow;
- grid geometry: conversion between an index and `(x, y)` using C's
  truncating `/` and `%`, the four neighbours (up, left, down, right) and
  the Manhattan distance;
- four searches, depth-first, breadth-first, Dijkstra and A*. Each colours
  the cells it reaches and, when it reaches the end cell, paints the path
  found by following the parent links back from the end;
- three maze generators, randomized Prim's, randomized depth-first and
  Sidewinder. Each carves open cells out of a grid of walls.

The modules follow the structure of the program:

| file | module | contents |
|---|---|---|
| `cells.dfy` | `Cells` | the cell colours, the `Cell` and `Node` records, `MAX`, `INT_MAX` and the step cost |
| `geometry.dfy` | `Geometry` | C-style division, coordinates and neighbours |
| `min_heap.dfy` | `Heap` | the `MinHeap` class over an `array<Node>` |
| `stack.dfy`, `queue.dfy` | `Stacks`, `Queues` | the stack and queue classes |
| `walks.dfy` | `Walks` | routes on the grid, the parent forest, path tracing and the outcome shared by the four searches |
| `relaxing.dfy` | `Relaxing` | what Dijkstra and A* both keep while relaxing edges |
| `depth_first.dfy`, `breadth_first.dfy`, `dijkstra.dfy`, `astar.dfy` | `DepthFirst`, `BreadthFirst`, `DijkstraSearch`, `AStarSearch` | the four searches |
| `carving.dfy` | `Carving` | carved cells, the tree invariant of the carving order, maximality and counting carved neighbours |
| `prims_maze.dfy`, `dfs_maze.dfy`, `sidewinder.dfy` | `PrimsMaze`, `DfsMaze`, `Sidewinder` | the three maze generators |

Containers and algorithms are imperative: classes with `modifies` frames,
arrays and loops with invariants. Each container's contents are a ghost
`Contents()` sequence. The searches and generators mutate the grid, an
`array<Cell>`, in place. Each is proved against an outcome predicate over
the grid before and after the call. Every call to `GetRandomValue` becomes a
nondeterministic choice (`:|`) within the range the call allows.

All four searches end in `Walks.SearchOutcome`, which says:

- the start and every seen cell are coloured sky blue and no other cell changes colour;
- every seen cell other than the start is open;
- a non-empty path is painted gold, and it is a route without repeated cells from the start to the end through adjacent open cells;
- an empty path means the start is the end or no route from the start to the end exists.

On top of that outcome, breadth-first search proves that its path has the
fewest cells of any route from the start to the end, and Dijkstra that its
path has the least total cost (1 per open cell entered, 10 per weighted
one) of any such route.

The three maze generators start from a grid of walls. Prim's and the
depth-first maze end with a carving order whose cells form a tree: each cell
carved after the first touched exactly one carved cell when it was carved,
so every carved cell is connected to the first one. The tree cannot be
extended: every wall next to a carved cell touches at least two carved
cells, so carving it would close a loop. The depth-first maze always ends
so; Prim's does whenever none of its pushes onto the wall list was refused
for lack of room. Sidewinder ends with a
board whose first row is open and whose other rows follow the rules listed
under `Sidewinder.SidewinderMaze` below. Every open cell of that board is
reached from cell 0.

## Model

| member | source | states |
|---|---|---|
| `Cells.Cost` | pv_algorithms.cpp:467-471 | the cost of entering a cell is 1, or 10 when the cell is weighted; it lies between 1 and `WEIGHTED_COST` |
| `Heap.Parent` | pv_algorithms.cpp:35-38 | for a positive index, the parent `(index - 1) / 2`, computed with C division, is a smaller index that has `index` as its left or right child |
| `Heap.ParentOfChild` | pv_algorithms.cpp:35-48 | `Parent` inverts `LeftChild` and `RightChild`: both children of i have parent i |
| `Heap.RootIsMinimum` | pv_algorithms.cpp:107-121 | in a heap-ordered sequence no node has a smaller distance than the root |
| `Heap.SiftUpStep` | pv_algorithms.cpp:69-73 | swapping a node with a larger parent keeps the heap ordered except at the parent |
| `Heap.LoweredIsExceptUp` | pv_algorithms.cpp:57-67 | lowering the distance of one node of a heap leaves it ordered except between that node and its ancestors |
| `Heap.SiftUpDone` | pv_algorithms.cpp:69 | the sift-up loop stops at the root or below a parent no larger than the node, and the heap is then ordered |
| `Heap.SiftDownStep` | pv_algorithms.cpp:82-99 | swapping a node with its smaller child keeps the heap ordered except below that child |
| `Heap.SiftDownDone` | pv_algorithms.cpp:95-103 | when neither child is smaller the sift-down ends with an ordered heap |
| `Heap.LastToRoot` | pv_algorithms.cpp:115-117 | moving the last node to the root leaves the heap ordered except below the root |
| `Heap.WithPriority` | pv_algorithms.cpp:60-67 | the same length, with every node of the given cell index given the new distance |
| `Heap.MinHeap.constructor` | pv_algorithms.cpp:18-21 | a heap with its own buffer of `MAX` nodes and no contents |
| `Heap.MinHeap.Swap` | pv_algorithms.cpp:50-55 | the two positions exchange their nodes and no other position changes |
| `Heap.MinHeap.SiftUp` | pv_algorithms.cpp:141-145 | a heap ordered except above one position becomes ordered, with the same multiset of nodes |
| `Heap.MinHeap.Insert` | pv_algorithms.cpp:135-146 | the heap stays ordered, grows by one and its multiset gains exactly the new node |
| `Heap.MinHeap.MinHeapify` | pv_algorithms.cpp:76-105 | a heap ordered except below one position becomes ordered, with the same multiset of nodes |
| `Heap.MinHeap.ExtractMin` | pv_algorithms.cpp:107-121 | the result is a node of the heap whose distance is no larger than any other's; the heap stays ordered and loses exactly that node |
| `Heap.MinHeap.DecreasePriority` | pv_algorithms.cpp:57-74 | the heap stays ordered and holds the old nodes with the given cell's distance replaced by the new priority |
| `Heap.MinHeap.Find` | pv_algorithms.cpp:123-133 | true exactly when some node in the heap has the given cell index |
| `Heap.MinHeap.IsEmpty` | pv_algorithms.cpp:148-151 | true exactly when the heap holds no node |
| `Stacks.Reverse` | pv_algorithms.cpp:203-206 | the reversal has the same length |
| `Stacks.ReverseAt` | pv_algorithms.cpp:203-206 | the element at position k of the reversal is the element at position length - 1 - k |
| `Stacks.ReversePrepend` | pv_algorithms.cpp:195 | reversing x followed by s gives the reversal of s followed by x |
| `Stacks.ReverseInvolutive` | pv_algorithms.cpp:187-207 | reversing twice restores the sequence, which is why the two loops of RemoveAtIndex restore the order |
| `Stacks.Remove` | pv_algorithms.cpp:187-207 | removing an index inside the stack shortens it by one; an index outside leaves it unchanged |
| `Stacks.PopAllExcept` | pv_algorithms.cpp:191-201 | popping everything except the given position yields at most as many nodes as were there |
| `Stacks.PopAllExceptReverses` | pv_algorithms.cpp:191-201 | the first loop of RemoveAtIndex builds the reversal of the stack without the given position |
| `Stacks.RemoveInit` | pv_algorithms.cpp:193-200 | one pop of the first loop: the top moves to the temporary stack unless it sits at the removed index |
| `Stacks.PopOneMore` | pv_algorithms.cpp:193-200 | one pop of the first loop moves the top node, unless it sits at the removed position, from the nodes still to pop to the end of those popped |
| `Stacks.Stack.constructor` | pv_algorithms.cpp:153-156 | a default-constructed stack has `top` 0, so it already holds one node, the buffer's first slot |
| `Stacks.Stack.Empty` | pv_algorithms.cpp:189 | a stack initialised with `top` = -1 holds no node |
| `Stacks.Stack.Pop` | pv_algorithms.cpp:164-167 | returns the top node and the stack loses exactly it |
| `Stacks.Stack.Push` | pv_algorithms.cpp:169-180 | succeeds exactly when fewer than `MAX` nodes are held; on success the node is appended, otherwise nothing changes |
| `Stacks.Stack.IsEmpty` | pv_algorithms.cpp:182-185 | true exactly when the stack holds no node |
| `Stacks.Stack.RemoveAtIndex` | pv_algorithms.cpp:187-207 | the stack holds its old nodes in the same order without the one at the index, and is unchanged for an index outside it |
| `Stacks.Stack.DrainInto` | pv_algorithms.cpp:191-201 | the stack ends empty and the temporary stack holds the reversal of the old contents without the removed position; at every step, what was moved followed by `PopAllExcept` of what is left is `PopAllExcept` of the old contents |
| `Stacks.Stack.MoveTop` | pv_algorithms.cpp:193-200 | one pass of the first loop: the top leaves the stack and goes onto the temporary stack unless it is at the removed index |
| `Stacks.Stack.RefillFrom` | pv_algorithms.cpp:203-206 | the stack ends holding the reversal of the temporary stack |
| `Stacks.Stack.MoveBack` | pv_algorithms.cpp:205 | one pass of the second loop: the temporary stack's top moves onto this stack |
| `Queues.PushedFromInitial` | pv_algorithms.cpp:227-239 | n pushes onto a fresh queue leave size n, front -1 and rear n - 1 |
| `Queues.AsWrittenPushOverruns` | pv_algorithms.cpp:229-236 | after `MAX` pushes and one pop, the size guard as written lets a push write slot `MAX`, one past the buffer |
| `Queues.Queue.constructor` | pv_algorithms.cpp:386 | the queue `{0, -1, -1}` holds no node |
| `Queues.Queue.Pop` | pv_algorithms.cpp:221-225 | returns the front node and the queue loses exactly it; rear does not move |
| `Queues.Queue.Push` | pv_algorithms.cpp:227-239 | succeeds exactly when rear can still advance inside the buffer, and never when `MAX` nodes are held; on success the node is appended |
| `Queues.Queue.IsEmpty` | pv_algorithms.cpp:241-244 | true exactly when the queue holds no node |
| `Geometry.Absolute` | pv_algorithms.cpp:262-265 | non-negative, and equal to i or -i |
| `Geometry.ManhattanDistance` | pv_algorithms.cpp:267-270 | non-negative, and zero exactly when the two coordinates are equal |
| `Geometry.CDivTruncates` | pv_algorithms.cpp:274-275 | the modelled C remainder has the sign of the dividend and is smaller than the divisor in magnitude |
| `Geometry.NegatedDivisor` | pv_algorithms.cpp:274 | C `%` with a negative divisor agrees with the non-negative remainder |
| `Geometry.NegatedDividend` | pv_algorithms.cpp:274 | C `%` of a negative dividend is the negated remainder |
| `Geometry.NegatedBoth` | pv_algorithms.cpp:274 | C `%` with both negative is the negated remainder |
| `Geometry.IndexToGridIndexes` | pv_algorithms.cpp:272-279 | `GridIndexesToIndex` of the result gives the index back; for a non-negative index and positive width, x lies in the row and y is non-negative |
| `Geometry.CoordinatesRoundTrip` | pv_algorithms.cpp:272-284 | converting in-grid coordinates to an index and back gives the same coordinates |
| `Geometry.RowBound` | pv_algorithms.cpp:281-284 | an index built from a column inside the row lies in the grid exactly when its row does |
| `Geometry.GetNeighbourIndexes` | pv_algorithms.cpp:286-327 | each of the four slots holds the up, left, down or right neighbour when that neighbour exists, and otherwise keeps its old value |
| `Geometry.NeighbourIsAdjacent` | pv_algorithms.cpp:286-327 | every neighbour that GetNeighbourIndexes writes shares a side with the cell |
| `Geometry.AdjacentSymmetric` | pv_algorithms.cpp:286-327 | adjacency is symmetric |
| `Geometry.AdjacentIsNeighbour` | pv_algorithms.cpp:286-327 | every cell that shares a side with the cell appears in some slot of GetNeighbourIndexes |
| `Walks.NeighboursGrow` | pv_algorithms.cpp:348-363 | adding a cell to the seen set keeps every "open neighbours are seen" fact |
| `Walks.SlotIsNeighbour` | pv_algorithms.cpp:344-346 | a slot that GetNeighbourIndexes fills holds an adjacent cell inside the grid |
| `Walks.IndicesAppend` | pv_algorithms.cpp:356 | pushing a node adds exactly its cell index to those held |
| `Walks.MemberIndex` | pv_algorithms.cpp:342 | a held node's cell index is among the held indices |
| `Walks.ColourStep` | pv_algorithms.cpp:353 | painting one more cell sky blue extends the seen colouring by that cell |
| `Walks.PaintUnlessFound` | pv_algorithms.cpp:577-582 | the cell is painted sky blue unless it was already held, and the seen colouring grows by it |
| `Walks.ClosedSetContainsRoutes` | pv_algorithms.cpp:340-379 | if a set holds the start and all open neighbours of its cells, every route from the start ends inside it |
| `Walks.ForestLink` | pv_algorithms.cpp:354-355 | recording a parent link from a seen cell to an adjacent open cell of higher rank keeps the parent table a forest rooted at the start |
| `Walks.ChainIsRoute` | pv_algorithms.cpp:369-376 | following the parent links from a recorded cell back to the start gives a route without repeated cells, through recorded cells |
| `Walks.ChainUnfold` | pv_algorithms.cpp:371-373 | the chain of a cell with a parent is the parent's chain followed by the cell |
| `Walks.ChainEnds` | pv_algorithms.cpp:369-371 | each recorded entry of the parent table is for its own cell, and a cell without a parent has the chain of itself alone |
| `Walks.PaintStep` | pv_algorithms.cpp:375 | painting one more cell gold extends the painted path at its front |
| `Walks.TracePath` | pv_algorithms.cpp:369-376 | the painted path is the parent chain from the start to the end cell, and exactly its cells turn gold |
| `Walks.ForestIsOpen` | pv_algorithms.cpp:350 | every recorded cell other than the start is open |
| `Walks.ExploringStart` | pv_algorithms.cpp:336-338 | after the start node is pushed the exploration invariant holds |
| `Walks.ExploringTake` | pv_algorithms.cpp:342 | taking any pending node keeps the invariant, with that node's cell being expanded |
| `Walks.ExploringDiscover` | pv_algorithms.cpp:350-356 | discovering an open, unseen neighbour keeps the invariant and leaves room in the container |
| `Walks.ExploringAppend` | pv_algorithms.cpp:354-356 | appending the discovered node keeps the invariant |
| `Walks.ExploringSkip` | pv_algorithms.cpp:350 | a slot holding no neighbour, a wall or a seen cell needs no work |
| `Walks.FoundOutcome` | pv_algorithms.cpp:366-378 | a traced chain from the start to the end satisfies the search outcome |
| `Walks.PaintFound` | pv_algorithms.cpp:366-378 | painting the chain of a found end cell yields the search outcome |
| `Walks.ClosedOutcome` | pv_algorithms.cpp:455-513 | when the heap empties without finding the end, the outcome holds with no path: no route reaches the end |
| `Walks.ExhaustedOutcome` | pv_algorithms.cpp:340-379 | when the container empties without finding the end, the outcome holds with no path |
| `DepthFirst.DepthFirstSearch` | pv_algorithms.cpp:329-381 | the search outcome: seen cells sky blue, a gold route without repeated cells to the end, or no path exactly when the end is unreachable or is the start |
| `DepthFirst.Explore` | pv_algorithms.cpp:340-379 | the loop ends either having found the end, with a forest over the seen cells, or with every seen cell's open neighbours seen |
| `DepthFirst.PopAndExpand` | pv_algorithms.cpp:342-363 | one iteration keeps the invariant and either sees a new cell or shrinks the stack |
| `DepthFirst.Expand` | pv_algorithms.cpp:344-363 | examining the four neighbours of the popped cell keeps the invariant and pushes only when it sees a new cell |
| `DepthFirst.Examine` | pv_algorithms.cpp:350-362 | one slot: an open, unseen neighbour is discovered, and finding the end stops the scan |
| `DepthFirst.Discover` | pv_algorithms.cpp:353-356 | the neighbour turns sky blue, is recorded with the current cell as parent and its node is pushed |
| `DepthFirst.DefaultStackExhaustion` | pv_algorithms.cpp:332-342 | a default-constructed stack, after the start node is pushed and popped, is still not empty |
| `BreadthFirst.BreadthFirstSearch` | pv_algorithms.cpp:383-435 | the search outcome, with the queue as the container; a non-empty path has no more cells than any route from the start to the end |
| `BreadthFirst.Explore` | pv_algorithms.cpp:394-433 | the loop ends having found the end with a forest over the seen cells whose ranks are hop counts no route beats, or with every seen cell's open neighbours seen |
| `BreadthFirst.PopAndExpand` | pv_algorithms.cpp:396-417 | one iteration keeps the invariant and either sees a new cell or shrinks the queue |
| `BreadthFirst.Expand` | pv_algorithms.cpp:398-417 | examining the four neighbours of the dequeued cell keeps the invariant |
| `BreadthFirst.ExamineSlots` | pv_algorithms.cpp:402-417 | the slot loop keeps the invariant and the hop counts, and stops once the end is discovered |
| `BreadthFirst.Examine` | pv_algorithms.cpp:404-416 | one slot: an open, unseen neighbour is discovered, and finding the end stops the scan |
| `BreadthFirst.Discover` | pv_algorithms.cpp:407-410 | the neighbour turns sky blue, is recorded with the current cell as parent and is enqueued |
| `BreadthFirst.Record` | pv_algorithms.cpp:407-410 | the cell turns sky blue, its node with the current cell as parent is recorded and enqueued, and nothing else changes |
| `BreadthFirst.HopsStart` | pv_algorithms.cpp:385-392 | the start alone, at hop count 0, satisfies the hop-count ranks, and its queued node is levelled |
| `BreadthFirst.TakeHops` | pv_algorithms.cpp:396 | dequeuing the head makes its hop count the new front, and the rest of the queue stays within front .. front + 1 in non-decreasing order |
| `BreadthFirst.FrontierBound` | pv_algorithms.cpp:394-417 | a route from the start to a cell not yet seen has more than front + 1 cells, because its last seen cell is queued or being expanded |
| `BreadthFirst.DiscoverHops` | pv_algorithms.cpp:404-410 | discovering a cell from the cell at the front gives it hop count front + 1, which no route beats, and keeps the queue levelled |
| `BreadthFirst.ChainHops` | pv_algorithms.cpp:423-430 | the parent chain back from a seen cell has its hop count plus one cells |
| `BreadthFirst.FewestSteps` | pv_algorithms.cpp:420-431 | the chain painted back from the end has no more cells than any route from the start to the end |
| `Relaxing.PotentialNonNegative` | pv_algorithms.cpp:474 | the sum of non-negative distances is non-negative |
| `Relaxing.PotentialSame` | pv_algorithms.cpp:474 | tables with the same distances have the same sum |
| `Relaxing.PotentialUpdate` | pv_algorithms.cpp:478 | replacing one entry changes the sum by the difference of the distances |
| `Relaxing.UniqueAtMostOnce` | pv_algorithms.cpp:480-486 | a heap whose nodes have pairwise different cells holds each cell at most once |
| `Relaxing.AfterExtract` | pv_algorithms.cpp:457 | extracting keeps the cells pairwise different; every remaining node was there before |
| `Relaxing.AfterInsert` | pv_algorithms.cpp:486 | inserting a cell not held keeps the cells pairwise different and adds the cell |
| `Relaxing.WithPriorityIndices` | pv_algorithms.cpp:57-67 | changing a priority does not change which cells the heap holds |
| `Relaxing.PermutedIndices` | pv_algorithms.cpp:69-73 | reordering the heap does not change which cells it holds or its size |
| `Relaxing.AfterDecrease` | pv_algorithms.cpp:480-482 | after a decrease the heap holds the same cells, the decreased cell with the new distance and every other node unchanged |
| `Relaxing.SettlingPotential` | pv_algorithms.cpp:455-498 | while relaxing, the sum of recorded distances is non-negative |
| `Relaxing.SettlingStart` | pv_algorithms.cpp:444-451 | after the start is inserted with distance 0 and every other distance is `INT_MAX`, the relaxing invariant holds |
| `Relaxing.SettlingExtract` | pv_algorithms.cpp:457 | extracting a node keeps the invariant with its cell being expanded |
| `Relaxing.SettlingExpanded` | pv_algorithms.cpp:462-498 | once all four slots are handled the expanded cell's open neighbours are recorded |
| `Relaxing.SettlingSkip` | pv_algorithms.cpp:465-474 | a slot with no neighbour, a wall, or no shorter distance needs no work |
| `Relaxing.SettlingRelax` | pv_algorithms.cpp:472-489 | recording a shorter distance keeps the invariant and strictly lowers the sum of distances |
| `Relaxing.RelaxForest` | pv_algorithms.cpp:474-478 | recording a shorter distance through the current cell keeps the parent table a forest ranked by distance |
| `Relaxing.SettlingDone` | pv_algorithms.cpp:455 | when the heap is empty every recorded cell has its open neighbours recorded |
| `Relaxing.HeapRoom` | pv_algorithms.cpp:486 | a cell not in the heap can be inserted without exceeding `MAX` |
| `Relaxing.HeapHolds` | pv_algorithms.cpp:123-133 | a cell is held exactly when some node in the heap has its index |
| `Relaxing.InsertHeapNode` | pv_algorithms.cpp:484-489 | the heap stays ordered, holds pairwise different cells and gains exactly the new node |
| `Relaxing.RouteCostAppend` | pv_algorithms.cpp:467-472 | a route's cost grows by the cost of entering each cell after the first |
| `Relaxing.RelaxedReaches` | pv_algorithms.cpp:462-498 | an open cell next to a recorded cell whose four slots were all relaxed is recorded itself |
| `Relaxing.ChainCost` | pv_algorithms.cpp:472-478 | the parent chain back from a recorded cell, the path Dijkstra paints, costs exactly that cell's recorded distance |
| `DijkstraSearch.MirrorsKept` | pv_algorithms.cpp:457 | removing heap nodes keeps every heap distance equal to its cell's recorded distance |
| `DijkstraSearch.MirrorsRelaxed` | pv_algorithms.cpp:478-486 | a decrease or an insert of the relaxed node keeps heap distances equal to the recorded ones |
| `DijkstraSearch.SettledStart` | pv_algorithms.cpp:450-451 | with only the start recorded and in the heap, nothing is settled yet and the cost invariant holds |
| `DijkstraSearch.FrontierCost` | pv_algorithms.cpp:455-498 | every route from the start to a cell that is not settled costs at least the distance of the last extraction |
| `DijkstraSearch.FrontierStart` | pv_algorithms.cpp:450-457 | the one-cell route to an unsettled start costs 0, which no heap distance undercuts |
| `DijkstraSearch.FrontierLeave` | pv_algorithms.cpp:462-489 | a route leaving the settled cells from p to y costs at least the last extracted distance |
| `DijkstraSearch.SettledExtract` | pv_algorithms.cpp:457 | extracting a node of least distance settles its cell: no route to it is cheaper than its distance |
| `DijkstraSearch.Extracted` | pv_algorithms.cpp:457 | an extraction keeps the relaxing invariant, the heap mirror, and the cost invariant with the extracted cell settled |
| `DijkstraSearch.SettledFinal` | pv_algorithms.cpp:472-474 | a settled neighbour is never improved through a recorded cell, so it is never relaxed again |
| `DijkstraSearch.SettledRelax` | pv_algorithms.cpp:472-489 | recording a shorter distance for an open neighbour keeps the cost invariant |
| `DijkstraSearch.SettledLowered` | pv_algorithms.cpp:477-489 | recording a shorter distance for a cell that is not settled keeps every settled cell least and relaxed |
| `DijkstraSearch.SolvedLeast` | pv_algorithms.cpp:472-495 | when a neighbour is recorded for the first time, as the end is when the search stops, no route to it costs less than the way through the cell being expanded |
| `DijkstraSearch.Lowered` | pv_algorithms.cpp:477-489 | one recorded relaxation keeps the relaxing and cost invariants and the heap mirror, lowers the distance sum, and makes a first-time cell least |
| `DijkstraSearch.Expanded` | pv_algorithms.cpp:462-498 | once all four slots of the expanded cell are relaxed, the invariants hold with no cell being expanded |
| `DijkstraSearch.Dijkstra` | pv_algorithms.cpp:437-515 | the search outcome, with weighted cells costing 10; a non-empty path costs no more than any route from the start to the end |
| `DijkstraSearch.InitVisited` | pv_algorithms.cpp:444-448 | every entry of the table has distance `INT_MAX` and no parent |
| `DijkstraSearch.Explore` | pv_algorithms.cpp:455-513 | the loop ends having found the end, with a forest ranked by distance whose every step costs the cell entered and no route to the end cheaper than its recorded distance, or with every recorded cell's open neighbours recorded |
| `DijkstraSearch.ExtractAndRelax` | pv_algorithms.cpp:457-498 | one iteration keeps the invariant and lowers the distance sum or shrinks the heap |
| `DijkstraSearch.TakeMin` | pv_algorithms.cpp:457 | extracts the minimum and keeps the invariant with its cell being expanded |
| `DijkstraSearch.Relax` | pv_algorithms.cpp:459-498 | relaxing the four neighbours keeps the invariant and only lowers distances |
| `DijkstraSearch.RelaxSlots` | pv_algorithms.cpp:462-498 | the slot loop keeps the relaxing and cost invariants, relaxes each slot it passes, and stops with the end least when it is found |
| `DijkstraSearch.RelaxSlot` | pv_algorithms.cpp:464-497 | one slot: an open neighbour with a shorter distance through the current cell is recorded, and finding the end stops with no route to it cheaper than its recorded distance |
| `DijkstraSearch.Lower` | pv_algorithms.cpp:477-489 | the shorter distance is recorded with the current cell as parent, and the heap is decreased or inserted into |
| `DijkstraSearch.HeapRecord` | pv_algorithms.cpp:480-489 | afterwards the heap holds the relaxed cell once, with the new distance, every other node is unchanged, and `found` only for a recorded cell |
| `DijkstraSearch.UpdateHeapNode` | pv_algorithms.cpp:480-482 | the held node's priority becomes the new distance and the heap stays ordered with the same cells |
| `AStarSearch.Estimate` | pv_algorithms.cpp:570-572 | the heuristic is non-negative and zero exactly at the end cell |
| `AStarSearch.EstimatesKept` | pv_algorithms.cpp:546 | removing heap nodes keeps every f-score equal to g plus the estimate, and priorities no lower than g |
| `AStarSearch.EstimatesRelaxed` | pv_algorithms.cpp:566-582 | recording a lower g-score and its f-score keeps that relation |
| `AStarSearch.AStar` | pv_algorithms.cpp:517-608 | the search outcome, with the heap ordered by g plus the Manhattan estimate |
| `AStarSearch.Explore` | pv_algorithms.cpp:544-606 | the loop ends having found the end with a forest ranked by g-score, or with every recorded cell's open neighbours recorded |
| `AStarSearch.Setup` | pv_algorithms.cpp:526-542 | the tables start at `INT_MAX` except the start with g 0 and f its estimate, the start is in the heap and painted |
| `AStarSearch.InitScores` | pv_algorithms.cpp:526-532 | every g-score and f-score entry is `INT_MAX` with no parent |
| `AStarSearch.ExtractAndRelax` | pv_algorithms.cpp:546-591 | one iteration keeps the invariant and lowers the g-score sum or shrinks the heap |
| `AStarSearch.TakeMin` | pv_algorithms.cpp:546 | extracts the node with the least f-score and keeps the invariant |
| `AStarSearch.Relax` | pv_algorithms.cpp:548-591 | relaxing the four neighbours keeps the invariant and only lowers g-scores |
| `AStarSearch.RelaxSlot` | pv_algorithms.cpp:553-590 | one slot: an open neighbour with a lower tentative score is recorded, and finding the end stops |
| `AStarSearch.Improve` | pv_algorithms.cpp:566-582 | the lower g-score and its f-score are recorded with the current cell as parent |
| `AStarSearch.QueueIfAbsent` | pv_algorithms.cpp:577-582 | a cell not in the heap is inserted with its f-score and painted; a held one keeps its old priority |
| `AStarSearch.HeldKept` | pv_algorithms.cpp:577 | a cell the heap already holds is recorded, and every heap node belongs to a recorded cell |
| `AStarSearch.Holds` | pv_algorithms.cpp:577 | the result is true exactly when the cell is among those the heap holds |
| `AStarSearch.InsertIfAbsent` | pv_algorithms.cpp:577-582 | `found` exactly when the cell was held, in which case the heap is unchanged; otherwise it gains the node; it stays ordered with pairwise different cells |
| `Carving.CarveCell` | pv_algorithms.cpp:659 | painting a cell `RAYWHITE` adds it to the carving order unless it was carved already |
| `Carving.CountIn` | pv_algorithms.cpp:647-654 | the number of carved neighbours among the first slots is at most the number of slots |
| `Carving.CountSees` | pv_algorithms.cpp:649-651 | a carved neighbour makes the count positive |
| `Carving.CountFinds` | pv_algorithms.cpp:649-651 | a positive count names a slot holding a carved neighbour |
| `Carving.CountGrows` | pv_algorithms.cpp:656 | carving more cells never lowers a count |
| `Carving.TreeStart` | pv_algorithms.cpp:619-622 | the random start cell alone is a carving order that forms a tree |
| `Carving.TreeExtend` | pv_algorithms.cpp:656-659 | carving a new cell with exactly one carved neighbour extends the tree |
| `Carving.DistinctBound` | pv_algorithms.cpp:612 | a carving order without repeats that misses a cell is shorter than the grid |
| `Carving.ElemsSize` | pv_algorithms.cpp:612 | an order without repeats has as many cells as entries |
| `Carving.TreeConnected` | pv_algorithms.cpp:656-668 | every carved cell is joined to the first one by a route through carved cells |
| `Carving.TreeIsConnected` | pv_algorithms.cpp:637-672 | the whole tree is connected to its first cell |
| `Carving.NextToCarved` | pv_algorithms.cpp:660-667 | a wall pushed next to a carved cell has at least one carved neighbour |
| `Carving.Slots` | pv_algorithms.cpp:644-645 | the neighbour slots of a cell, four of them, -1 where no neighbour exists |
| `Carving.AsWrittenReadsOutsideGrid` | pv_algorithms.cpp:644-649 | for cell 0 the up and left slots stay -1, so the code as written reads `cells[-1]` |
| `Carving.CountPathNeighbours` | pv_algorithms.cpp:647-654 | the count equals the number of carved neighbours, and exactly the carved slots are blanked to -1 |
| `Carving.CarveAt` | pv_algorithms.cpp:656-659 | carving a cell with exactly one carved neighbour keeps the tree and the carved colouring, and adds the cell |
| `PrimsMaze.Weight` | pv_algorithms.cpp:637-672 | the loop measure is at least the number of walls in the list |
| `PrimsMaze.WeightAppend` | pv_algorithms.cpp:660-667 | the measure of two lists is the sum of their measures |
| `PrimsMaze.WeightRemove` | pv_algorithms.cpp:671 | removing an entry lowers the measure by that entry's weight |
| `PrimsMaze.WeightOfWalls` | pv_algorithms.cpp:660-667 | uncarved entries weigh one each |
| `PrimsMaze.RemoveKeeps` | pv_algorithms.cpp:671 | removing an entry keeps only entries that were there |
| `PrimsMaze.FrontierRemove` | pv_algorithms.cpp:671 | removing an entry keeps every listed wall next to a carved cell |
| `PrimsMaze.FrontierGrows` | pv_algorithms.cpp:656-667 | pushing the uncarved neighbours of a carved cell keeps every listed wall next to a carved cell |
| `PrimsMaze.WeightAfterPush` | pv_algorithms.cpp:656-671 | carving a cell, pushing its walls and removing its entry lowers the measure |
| `PrimsMaze.RemoveIndices` | pv_algorithms.cpp:671 | removing one entry keeps every other listed cell listed |
| `PrimsMaze.SuffixIndices` | pv_algorithms.cpp:660-667 | a cell listed among the newly pushed entries is listed |
| `PrimsMaze.CountEmpty` | pv_algorithms.cpp:619-622 | before the start is carved no cell has a carved neighbour |
| `PrimsMaze.NewNeighbour` | pv_algorithms.cpp:656-667 | a wall that touches the carving only after a cell is carved is one of that cell's walled neighbours, which are the slots pushed |
| `PrimsMaze.PendingStart` | pv_algorithms.cpp:624-635 | after the start cell's walls are pushed every wall next to the start is listed |
| `PrimsMaze.FirstWalls` | pv_algorithms.cpp:624-635 | the start cell's pushed walls are next to it, and all of them are listed when no push was refused |
| `PrimsMaze.PendingSkip` | pv_algorithms.cpp:656-671 | removing the entry of a wall that cannot be carved keeps every wall next to the carving listed, unless it has two carved neighbours |
| `PrimsMaze.PendingCarve` | pv_algorithms.cpp:656-671 | carving a wall, pushing its walled neighbours and removing its entry keeps every wall next to the carving listed |
| `PrimsMaze.SkipWall` | pv_algorithms.cpp:656-671 | removing the entry of a wall that cannot be carved keeps the frontier, lowers the measure and keeps every carvable wall listed |
| `PrimsMaze.PushStep` | pv_algorithms.cpp:662-666 | one push of the loop lists its slot, or finds the list full |
| `PrimsMaze.RandomizedPrimsMaze` | pv_algorithms.cpp:610-675 | from a grid of walls, the carved cells form a tree carved exactly as recorded, each joined to the start cell by a route; when no push was refused, the tree cannot be extended (`Maximal`) |
| `PrimsMaze.PushWalls` | pv_algorithms.cpp:660-667 | the list gains, in slot order, one node for each slot not -1, and keeps what it held; either every such slot is listed or the list is full |
| `PrimsMaze.ProcessWall` | pv_algorithms.cpp:639-671 | one iteration keeps the tree, the carving and the frontier, carves a cell or lowers the measure, and, when every push is accepted, keeps every wall next to the carving listed (`WallStep`) |
| `PrimsMaze.CarveWall` | pv_algorithms.cpp:656-671 | a wall with at most one carved neighbour is carved and its walls pushed; once its entry is removed, the iteration's `WallStep` holds |
| `DfsMaze.Survivors` | pv_algorithms.cpp:702-732 | the number of slots left that are not -1 is at most the number of slots |
| `DfsMaze.CandidateCarvable` | pv_algorithms.cpp:703-731 | a surviving neighbour is an uncarved, adjacent grid cell with exactly one carved neighbour |
| `DfsMaze.NoSurvivors` | pv_algorithms.cpp:702-734 | when no slot survives the filter every slot holds -1 |
| `DfsMaze.ExhaustedGrows` | pv_algorithms.cpp:753 | carving another cell never revives a neighbour the filter blanked |
| `DfsMaze.VisitKeeps` | pv_algorithms.cpp:695-756 | after one pass every carved cell that is off the stack is exhausted: no neighbour of it survives the filter |
| `DfsMaze.ExhaustedMaximal` | pv_algorithms.cpp:695 | once every carved cell is exhausted, every wall next to the carving has two carved neighbours |
| `DfsMaze.RandomizedDFSMaze` | pv_algorithms.cpp:677-759 | from a grid of walls, the carved cells form a tree carved exactly as recorded, each joined to the start cell by a route, and the tree cannot be extended (`Maximal`) |
| `DfsMaze.Visit` | pv_algorithms.cpp:697-756 | a popped cell either has no candidate, so it is exhausted and nothing changes but the pop, or it is pushed back with one new adjacent carved cell on top |
| `DfsMaze.Advance` | pv_algorithms.cpp:734-756 | with candidates left, one adjacent candidate is carved and pushed above the current node |
| `DfsMaze.FilterNeighbours` | pv_algorithms.cpp:702-732 | each slot ends holding its candidate, or -1 for no neighbour, a carved one or one that would make a loop; the count is the survivors |
| `DfsMaze.FilterSlot` | pv_algorithms.cpp:705-731 | only the given slot changes: it becomes its candidate, and the result says whether it was blanked to -1 |
| `DfsMaze.WouldCreateLoop` | pv_algorithms.cpp:713-726 | true exactly when the neighbour already touches more than one carved cell |
| `DfsMaze.SelectNeighbour` | pv_algorithms.cpp:737-751 | the chosen slot survives and exactly `randIndex` surviving slots come before it |
| `Sidewinder.CellIndex` | pv_algorithms.cpp:782-783 | the index of column x of row y of the grid lies inside the grid |
| `Sidewinder.Beside` | pv_algorithms.cpp:776 | horizontally consecutive cells are adjacent |
| `Sidewinder.Stacked` | pv_algorithms.cpp:826-827 | vertically consecutive cells are adjacent |
| `Sidewinder.PaintOpen` | pv_algorithms.cpp:785 | after painting, the painted position is open and every other cell keeps its state |
| `Sidewinder.OpenGrows` | pv_algorithms.cpp:785 | painting a cell keeps every open cell open |
| `Sidewinder.ReachStart` | pv_algorithms.cpp:766-769 | cell 0 is reached once it is open |
| `Sidewinder.ReachStep` | pv_algorithms.cpp:785 | an open cell adjacent to a reached cell is reached |
| `Sidewinder.ReachGrows` | pv_algorithms.cpp:785 | opening more cells keeps every reached cell reached |
| `Sidewinder.ConnectedGrows` | pv_algorithms.cpp:785 | opening more cells keeps a connected prefix of the grid connected |
| `Sidewinder.SpreadRight` | pv_algorithms.cpp:776-791 | a run of open cells in a row is reached from its reached left end |
| `Sidewinder.SpreadLeft` | pv_algorithms.cpp:776-791 | a run of open cells in a row is reached from its reached right end |
| `Sidewinder.Above` | pv_algorithms.cpp:800-808 | the candidate columns are those of the run whose cell two rows up is open, in increasing order |
| `Sidewinder.AboveEmpty` | pv_algorithms.cpp:810 | no candidate means no cell of the run two rows up is open |
| `Sidewinder.OpenAbove` | pv_algorithms.cpp:797-808 | the candidate list is the run's open columns two rows up, and its length is their number |
| `Sidewinder.UpperKept` | pv_algorithms.cpp:785 | carving cells below a row keeps the rows above as they were |
| `Sidewinder.RowStart` | pv_algorithms.cpp:773-776 | at the start of an even row the row invariant holds with an empty run |
| `Sidewinder.EmptyRowUpper` | pv_algorithms.cpp:771-773 | the rows above a fresh even row satisfy the maze rules |
| `Sidewinder.ConnectedPastWalls` | pv_algorithms.cpp:771-773 | walls after a connected prefix keep it connected |
| `Sidewinder.SkipStep` | pv_algorithms.cpp:835-838 | a skipped column stays a wall and the row invariant moves past it |
| `Sidewinder.PaintRunCell` | pv_algorithms.cpp:779-785 | painting the current cell keeps the row invariant with the cell in the run |
| `Sidewinder.NoneAbove` | pv_algorithms.cpp:810 | in a carved row no candidate above can happen only for a run of one cell that is not the first |
| `Sidewinder.UpperConnect` | pv_algorithms.cpp:826-829 | opening a connector above the run keeps the upper rows' rules |
| `Sidewinder.ConnectReach` | pv_algorithms.cpp:826-829 | after the connector is painted, every open cell up to the current column of the row is reached from cell 0 |
| `Sidewinder.ConnectorReached` | pv_algorithms.cpp:826-829 | a connector below an open cell two rows up is reached |
| `Sidewinder.ConnectStep` | pv_algorithms.cpp:823-832 | painting the connector closes the run and sets up the skip of the next column |
| `Sidewinder.Patch` | pv_algorithms.cpp:812-819 | at the last column with no candidate, painting the column to the left keeps the row invariant |
| `Sidewinder.PatchReach` | pv_algorithms.cpp:812-819 | the patched last run is reached through its left neighbour |
| `Sidewinder.RowEnd` | pv_algorithms.cpp:776-838 | a finished even row, with its connectors above, extends the rows invariant by two |
| `Sidewinder.FirstRowDone` | pv_algorithms.cpp:765-769 | the open first row satisfies the rows invariant for row 2 |
| `Sidewinder.MazeDone` | pv_algorithms.cpp:771 | when the row loop ends the board is a Sidewinder maze |
| `Sidewinder.CloseRun` | pv_algorithms.cpp:795-833 | closing the run at column j either paints a connector, exactly when some run cell two rows up is open, or paints nothing except the left cell at the edge |
| `Sidewinder.JoinWest` | pv_algorithms.cpp:812-819 | paints exactly the cell left of the last column and keeps the row invariant |
| `Sidewinder.Connect` | pv_algorithms.cpp:823-832 | paints exactly one cell of the odd row, above a run column whose cell two rows up is open, and closes the run |
| `Sidewinder.CarveStep` | pv_algorithms.cpp:779-833 | paints the current cell, then extends or closes the run, keeping the row invariant |
| `Sidewinder.EndOrExtend` | pv_algorithms.cpp:787-833 | the run extends east, or closes at the edge or by chance, keeping the row invariant |
| `Sidewinder.CarveRow` | pv_algorithms.cpp:776-838 | carving one even row keeps the rows above and extends the rows invariant |
| `Sidewinder.SidewinderMaze` | pv_algorithms.cpp:761-842 | from a grid of walls: row 0 is open; the even rows start open, lack two walls side by side and each has a connector in the odd row above; odd rows hold only connectors; every open cell is reached from cell 0 |

## Left out

- Drawing, the window, the buttons and input handling are not part of this model. Neither is the code in `pv_gui.cpp` or `pv_window.cpp`.
- The worker thread, the `sleep_for(DELAY)` pauses and the atomic `done` flag are left out. Each run is one sequential method call, and the animation order of the colour changes is not stated.
- `SetRandomSeed`, `GetTime` and `GetRandomValue` are left out. Each random value is a nondeterministic choice in the same range, so every property holds for every sequence of random values.
- Integers are unbounded. `int` overflow cannot happen on grids of at most `MAX` cells with costs of at most 10, because distances stay below `10 * MAX`. `INT_MAX` is kept as a constant.
- Only the colour and the weight flag of a cell are modelled. Its screen bounds are presentation data.
- `Heap.MinHeap.Insert` requires `size < MAX`. The source writes past the buffer when the heap is full, which it leaves undefined; the searches never insert more nodes than the grid has cells.
- `Heap.MinHeap.ExtractMin` requires a non-empty heap. On an empty heap the source reads `elements[-1]`, which is undefined; every caller tests `IsEmpty` first.
- `Heap.MinHeap.DecreasePriority` requires the cell to occur at most once in the heap and the new priority to be no larger than its current one. The source only sifts up, so a larger priority could break the heap order; Dijkstra calls it only with a shorter distance for a held cell.
- `Stacks.Stack.Pop` and `Queues.Queue.Pop` require a non-empty container. The source reads outside the stored nodes when it is empty; its callers test `IsEmpty` first, except for the depth-first search finding below.
- `DfsMaze.SelectNeighbour` gives the chosen slot by its position among the surviving slots. Its requires assume the slots were filtered as `FilterNeighbours` does, which the caller guarantees. The source's extra re-test of the colour at line 743 is then always true.
- `AStarSearch.AStar`: that A* finds a cheapest path is not stated; its contract is the search outcome (the painted path is a route, an empty path means no route). The argument proved for Dijkstra needs cells to leave the heap in order of their recorded distance, and A* orders the heap by distance plus Manhattan estimate and keeps a cell's old priority when its distance falls while it is queued.
- `PrimsMaze.RandomizedPrimsMaze`: the carving is proved maximal only when no push onto the wall list was refused. The list holds at most `MAX` entries and may hold a cell more than once, so on a large grid a push can be refused, and the wall it names may then never be examined. `PrimsMaze.PushWalls` states that a push is refused only when the list is full.
- A* keeps an entry's old priority when its g-score falls and the cell is still in the heap, as in the source. The tables start at `INT_MAX` for g and f. The `visited` table, which the source leaves uninitialised, is read only for recorded cells.
- The three maze generators require a grid of walls (`AllWalls`). The caller resets the grid before each run, and that code is not part of this model.
- Sidewinder skips the column after each closed run, so that cell stays a wall. A row is therefore not fully open, and the model states the code's behaviour: no two walls side by side in an even row. When the number of rows is even, the last row stays walls.

## Findings

| source | as written | input that shows it | evidently intended | confidence | as-written member | corrected member |
|---|---|---|---|---|---|---|
| pv_algorithms.cpp:332 | depth-first search declares `Stack stack;`, whose default `top` is 0, so the stack already holds the uninitialised slot 0 before the start node is pushed | any grid where the end cannot be reached: after the start node is pushed and popped, `IsEmpty` is still false and the loop pops the garbage slot 0 | the stack starts empty (`top = -1`), as `Stack wallList = {-1};` does in the maze generators | not executed | `DepthFirst.DefaultStackExhaustion` | `DepthFirst.DepthFirstSearch` |
| pv_algorithms.cpp:229 | `Queue::Push` refuses only when `size >= MAX`, but `rear` never moves back | `MAX` pushes onto `{0, -1, -1}`, then one pop: the size is `MAX - 1`, so the next push writes `elements[MAX]`, past the buffer | refuse when `rear >= MAX - 1` | not executed | `Queues.AsWrittenPushOverruns` | `Queues.Queue.Push` |
| pv_algorithms.cpp:649 | Prim's maze reads `cells[indexes[i]]` before checking that `indexes[i]` is not -1 (also lines 705, 719 and 743 of the depth-first maze) | any grid, since cell 0 has no up or left neighbour: its slots 0 and 1 stay -1 and `cells[-1]` is read | test `indexes[i] != -1` first, and count an absent neighbour as not carved | not executed | `Carving.AsWrittenReadsOutsideGrid` | `Carving.CountPathNeighbours` |
