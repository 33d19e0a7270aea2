/**
 * Randomized Prim's maze: from a random start cell, keeps a list of walls
 * next to the carved cells, repeatedly picks one at random, carves it when
 * at most one of its neighbours is carved (pushing its walled neighbours),
 * and removes it from the list. GetRandomValue becomes a nondeterministic
 * choice in the same range.
 */
module PrimsMaze {
  import opened Cells
  import opened Geometry
  import opened Stacks
  import opened Walks
  import opened Carving

  /** Every entry of the wall list is a cell of the grid next to a carved cell. */
  ghost predicate Frontier(s: seq<Node>, rows: int, cols: int, order: seq<int>)
    requires cols > 0
  {
    forall e :: e in s ==> InGrid(e.index, rows, cols) && CountIn(e.index, cols, rows, Elems(order), 4) >= 1
  }

  /**
   * The termination measure of the loop, next to the number of cells still
   * walled: an entry of the wall list weighs 5 once its cell is carved and 1
   * before.
   */
  function EntryWeight(e: Node, carved: set<int>): nat {
    if e.index in carved then 5 else 1
  }

  function Weight(s: seq<Node>, carved: set<int>): (r: nat)
    ensures r >= |s|
  {
    if s == [] then 0 else Weight(s[..|s| - 1], carved) + EntryWeight(s[|s| - 1], carved)
  }

  lemma {:induction false} WeightAppend(s: seq<Node>, t: seq<Node>, carved: set<int>)
    ensures Weight(s + t, carved) == Weight(s, carved) + Weight(t, carved)
    decreases |t|
  {
    if t != [] {
      var t' := t[..|t| - 1];
      assert (s + t)[..|s + t| - 1] == s + t';
      WeightAppend(s, t', carved);
    } else {
      assert s + t == s;
    }
  }

  /** Removing an entry takes its weight off. */
  lemma WeightRemove(s: seq<Node>, k: int, carved: set<int>)
    requires 0 <= k < |s|
    ensures Weight(Remove(s, k), carved) + EntryWeight(s[k], carved) == Weight(s, carved)
  {
    assert s == s[..k] + [s[k]] + s[k + 1..];
    WeightAppend(s[..k] + [s[k]], s[k + 1..], carved);
    WeightAppend(s[..k], [s[k]], carved);
    WeightAppend(s[..k], s[k + 1..], carved);
    assert Weight([s[k]], carved) == EntryWeight(s[k], carved) by {
      assert [s[k]][..0] == [];
    }
  }

  /** Entries for walled cells weigh one each. */
  lemma {:induction false} WeightOfWalls(t: seq<Node>, carved: set<int>)
    requires forall e :: e in t ==> e.index !in carved
    ensures Weight(t, carved) == |t|
  {
    if t != [] {
      var t' := t[..|t| - 1];
      assert forall e :: e in t' ==> e in t;
      WeightOfWalls(t', carved);
    }
  }

  lemma RemoveKeeps(s: seq<Node>, k: int)
    ensures forall e :: e in Remove(s, k) ==> e in s
  {
    if 0 <= k < |s| {
      assert s == s[..k] + [s[k]] + s[k + 1..];
    }
  }

  /** Removing an entry keeps the frontier. */
  lemma FrontierRemove(s: seq<Node>, k: int, rows: int, cols: int, order: seq<int>)
    requires cols > 0 && Frontier(s, rows, cols, order)
    ensures Frontier(Remove(s, k), rows, cols, order)
  {
    RemoveKeeps(s, k);
  }

  /**
   * After `index` is carved, the old entries (next to cells carved before)
   * and the newly pushed walled neighbours of `index` (slots `ix`) are all
   * next to a carved cell.
   */
  lemma FrontierGrows(s0: seq<Node>, s1: seq<Node>, rows: int, cols: int, order0: seq<int>, order: seq<int>,
                      index: int, ix: seq<int>)
    requires cols > 0 && Frontier(s0, rows, cols, order0) && Elems(order0) <= Elems(order)
    requires index in order && InGrid(index, rows, cols)
    requires |ix| == 4 && forall slot :: 0 <= slot < 4 ==> ix[slot] == Walled(index, cols, rows, order0, slot)
    requires |s0| <= |s1| && s1[..|s0|] == s0
    requires forall k :: |s0| <= k < |s1| ==> s1[k].index in ix && s1[k].index != -1
    ensures Frontier(s1, rows, cols, order)
  {
    forall e | e in s1 ensures InGrid(e.index, rows, cols) && CountIn(e.index, cols, rows, Elems(order), 4) >= 1 {
      var k :| 0 <= k < |s1| && s1[k] == e;
      if k < |s0| {
        assert e == s0[k] && e in s0;
        CountGrows(e.index, cols, rows, Elems(order0), Elems(order), 4);
      } else {
        var slot :| 0 <= slot < 4 && ix[slot] == e.index;
        NextToCarved(rows, cols, index, slot, Elems(order));
        NeighbourIsAdjacent(index, cols, rows, slot);
      }
    }
  }

  /**
   * When the wall at `rw` was carved already, the walled neighbours pushed
   * for it (at most four, weight one each) weigh less than the removed entry.
   */
  lemma WeightAfterPush(s0: seq<Node>, s1: seq<Node>, rw: int, cols: int, rows: int, order: seq<int>,
                        index: int, ix: seq<int>)
    requires cols > 0 && 0 <= rw < |s0| && s0[rw].index == index && index in order
    requires |ix| == 4 && forall slot :: 0 <= slot < 4 ==> ix[slot] == Walled(index, cols, rows, order, slot)
    requires |s0| <= |s1| <= |s0| + 4 && s1[..|s0|] == s0
    requires forall k :: |s0| <= k < |s1| ==> s1[k].index in ix && s1[k].index != -1
    ensures Weight(Remove(s1, rw), Elems(order)) < Weight(s0, Elems(order))
  {
    var t := s1[|s0|..];
    assert s1 == s0 + t;
    forall e | e in t ensures e.index !in Elems(order) {
      var k :| 0 <= k < |t| && t[k] == e;
      assert s1[|s0| + k] == e;
      var slot :| 0 <= slot < 4 && ix[slot] == e.index;
    }
    WeightOfWalls(t, Elems(order));
    WeightAppend(s0, t, Elems(order));
    WeightRemove(s1, rw, Elems(order));
    assert s1[rw] == s0[rw];
  }

  /**
   * Every walled cell next to the carving is still listed, unless it has two
   * carved neighbours already and so can no longer be carved.
   */
  ghost predicate Pending(s: seq<Node>, rows: int, cols: int, order: seq<int>)
    requires cols > 0
  {
    forall c :: InGrid(c, rows, cols) && c !in order && CountIn(c, cols, rows, Elems(order), 4) >= 1 ==>
      c in IndicesOf(s) || CountIn(c, cols, rows, Elems(order), 4) >= 2
  }

  /** Removing an entry keeps every other cell listed. */
  lemma RemoveIndices(s: seq<Node>, k: int, c: int)
    requires 0 <= k < |s| && c in IndicesOf(s) && c != s[k].index
    ensures c in IndicesOf(Remove(s, k))
  {
    var j :| 0 <= j < |s| && s[j].index == c;
    var r := Remove(s, k);
    if j < k {
      assert r[j] == s[j];
    } else {
      assert r[j - 1] == s[j];
    }
  }

  /** A cell listed in a suffix of the list is listed. */
  lemma SuffixIndices(s: seq<Node>, n: int, c: int)
    requires 0 <= n <= |s| && c in IndicesOf(s[n..])
    ensures c in IndicesOf(s)
  {
    var k :| 0 <= k < |s[n..]| && s[n..][k].index == c;
    assert s[n + k] == s[n..][k];
  }

  /** No cell has a neighbour in the empty set. */
  lemma {:induction false} CountEmpty(index: int, cols: int, rows: int, upto: nat)
    requires cols != 0 && upto <= 4
    ensures CountIn(index, cols, rows, {}, upto) == 0
  {
    if upto > 0 {
      CountEmpty(index, cols, rows, upto - 1);
    }
  }

  /**
   * A wall that touches the carving only once `index` is carved is a walled
   * neighbour of `index`: slot `back` of `index` names it.
   */
  lemma NewNeighbour(rows: int, cols: int, order0: seq<int>, index: int, c: int) returns (back: int)
    requires cols > 0 && InGrid(index, rows, cols) && InGrid(c, rows, cols) && c !in order0 && c != index
    requires CountIn(c, cols, rows, Elems(order0 + [index]), 4) >= 1
    ensures 0 <= back < 4
    ensures CountIn(c, cols, rows, Elems(order0), 4) >= 1 || Walled(index, cols, rows, order0, back) == c
  {
    var slot := CountFinds(c, cols, rows, Elems(order0 + [index]), 4);
    var p := NeighbourIndex(c, cols, slot);
    back := 0;
    if p in Elems(order0) {
      CountSees(c, cols, rows, Elems(order0), slot, 4);
    } else {
      assert p == index;
      NeighbourIsAdjacent(c, cols, rows, slot);
      AdjacentSymmetric(c, p, rows, cols);
      back := AdjacentIsNeighbour(p, c, cols, rows);
    }
  }

  /** Pushing every walled neighbour of the start cell lists every wall next to it. */
  lemma PendingStart(s: seq<Node>, rows: int, cols: int, start: int, ix: seq<int>)
    requires cols > 0 && InGrid(start, rows, cols) && ix == Slots(start, cols, rows)
    requires forall slot :: 0 <= slot < 4 && ix[slot] != -1 ==> ix[slot] in IndicesOf(s)
    ensures Pending(s, rows, cols, [start])
  {
    assert Elems([]) == {};
    assert [] + [start] == [start];
    forall c | InGrid(c, rows, cols) && c !in [start] && CountIn(c, cols, rows, Elems([start]), 4) >= 1
      ensures c in IndicesOf(s)
    {
      CountEmpty(c, cols, rows, 4);
      var back := NewNeighbour(rows, cols, [], start, c);
      assert ix[back] == c;
    }
  }

  /** Removing the entry of a wall that cannot be carved keeps every wall next to the carving listed. */
  lemma PendingSkip(s: seq<Node>, rw: int, rows: int, cols: int, order: seq<int>)
    requires cols > 0 && 0 <= rw < |s|
    requires s[rw].index in order || CountIn(s[rw].index, cols, rows, Elems(order), 4) >= 2
    ensures Pending(s, rows, cols, order) ==> Pending(Remove(s, rw), rows, cols, order)
  {
    if Pending(s, rows, cols, order) {
      forall c | InGrid(c, rows, cols) && c !in order && CountIn(c, cols, rows, Elems(order), 4) >= 1 &&
                 c in IndicesOf(s) && c != s[rw].index
        ensures c in IndicesOf(Remove(s, rw))
      {
        RemoveIndices(s, rw, c);
      }
    }
  }

  /**
   * What one pass of the loop guarantees, from wall list s0 and carving
   * order0 to wall list s and carving order: every listed wall is next to
   * the carving; a cell is carved or the measure drops; and, when every
   * push was accepted, every wall next to the carving stays listed.
   */
  ghost predicate WallStep(s0: seq<Node>, s: seq<Node>, rows: int, cols: int,
                           order0: seq<int>, order: seq<int>, complete: bool)
    requires cols > 0
  {
    Frontier(s, rows, cols, order) &&
    (|order| > |order0| || (order == order0 && Weight(s, Elems(order)) < Weight(s0, Elems(order0)))) &&
    (complete && Pending(s0, rows, cols, order0) ==> Pending(s, rows, cols, order))
  }

  /** The walls pushed for the start cell are a frontier, and every wall next to the start cell when no push was refused. */
  lemma FirstWalls(s: seq<Node>, rows: int, cols: int, start: int, ix: seq<int>, complete: bool)
    requires cols > 0 && InGrid(start, rows, cols) && ix == Slots(start, cols, rows)
    requires forall k :: 0 <= k < |s| ==> s[k].index in ix && s[k].index != -1
    requires complete ==> forall slot :: 0 <= slot < 4 && ix[slot] != -1 ==> ix[slot] in IndicesOf(s[0..])
    ensures Frontier(s, rows, cols, [start])
    ensures complete ==> Pending(s, rows, cols, [start])
  {
    assert s[0..] == s;
    if complete {
      PendingStart(s, rows, cols, start, ix);
    }
    forall e | e in s ensures InGrid(e.index, rows, cols) && CountIn(e.index, cols, rows, Elems([start]), 4) >= 1 {
      var k :| 0 <= k < |s| && s[k] == e;
      var slot :| 0 <= slot < 4 && ix[slot] == e.index;
      NextToCarved(rows, cols, start, slot, Elems([start]));
      NeighbourIsAdjacent(start, cols, rows, slot);
    }
  }

  /** Removing the entry of a wall that cannot be carved keeps the frontier and lowers the measure. */
  lemma SkipWall(s: seq<Node>, rw: int, rows: int, cols: int, order: seq<int>)
    requires cols > 0 && 0 <= rw < |s| && Frontier(s, rows, cols, order)
    requires s[rw].index in order || CountIn(s[rw].index, cols, rows, Elems(order), 4) >= 2
    ensures WallStep(s, Remove(s, rw), rows, cols, order, order, true)
  {
    WeightRemove(s, rw, Elems(order));
    FrontierRemove(s, rw, rows, cols, order);
    PendingSkip(s, rw, rows, cols, order);
  }

  /**
   * Carving the wall at `rw`, pushing all its walled neighbours (slots
   * `ix`) and removing its entry keeps every wall next to the carving
   * listed.
   */
  lemma PendingCarve(s0: seq<Node>, s1: seq<Node>, rw: int, rows: int, cols: int, order0: seq<int>, order: seq<int>,
                     index: int, ix: seq<int>)
    requires cols > 0 && InGrid(index, rows, cols) && 0 <= rw < |s0| && s0[rw].index == index
    requires order == if index in order0 then order0 else order0 + [index]
    requires |ix| == 4 && forall slot :: 0 <= slot < 4 ==> ix[slot] == Walled(index, cols, rows, order0, slot)
    requires |s0| <= |s1| && s1[..|s0|] == s0
    requires forall slot :: 0 <= slot < 4 && ix[slot] != -1 ==> ix[slot] in IndicesOf(s1[|s0|..])
    ensures Pending(s0, rows, cols, order0) ==> Pending(Remove(s1, rw), rows, cols, order)
  {
    if Pending(s0, rows, cols, order0) {
      assert s1[rw] == s0[rw];
      assert Elems(order0) <= Elems(order);
      forall c | InGrid(c, rows, cols) && c !in order && CountIn(c, cols, rows, Elems(order), 4) >= 1
        ensures c in IndicesOf(Remove(s1, rw)) || CountIn(c, cols, rows, Elems(order), 4) >= 2
      {
        CountGrows(c, cols, rows, Elems(order0), Elems(order), 4);
        if CountIn(c, cols, rows, Elems(order0), 4) >= 1 {
          if c in IndicesOf(s0) {
            var k :| 0 <= k < |s0| && s0[k].index == c;
            assert s1[k] == s0[k];
            RemoveIndices(s1, rw, c);
          }
        } else if index !in order0 {
          var back := NewNeighbour(rows, cols, order0, index, c);
          assert ix[back] == c;
          SuffixIndices(s1, |s0|, c);
          RemoveIndices(s1, rw, c);
        }
      }
    }
  }

  /** The maze. The ghost result is the carving order. */
  method RandomizedPrimsMaze(cells: array<Cell>, rows: int, cols: int) returns (ghost order: seq<int>, ghost complete: bool)
    requires GridShape(cells.Length, rows, cols) && AllWalls(cells[..])
    modifies cells
    ensures Tree(rows, cols, order) && Carved(cells[..], order)
    ensures forall c :: c in order ==> exists w :: Route(cells[..], rows, cols, w, order[0], c)
    ensures complete ==> Maximal(rows, cols, order)
  {
    var size := rows * cols;

    // Start with grid filled with walls and keep track of walls being processed
    var wallList := new Stack.Empty();

    // Random start cell
    var randStartCell :| 0 <= randStartCell <= size - 1;

    // Mark random start cell as maze path
    cells[randStartCell] := cells[randStartCell].(color := RayWhite);
    order := [randStartCell];
    TreeStart(rows, cols, randStartCell);

    var indexes := new int[4](_ => -1);
    GetNeighbourIndexes(randStartCell, cols, rows, indexes);
    assert indexes[..] == Slots(randStartCell, cols, rows);
    complete := PushWalls(wallList, indexes);
    FirstWalls(wallList.Contents(), rows, cols, randStartCell, indexes[..], complete);

    while true
      invariant fresh(wallList) && fresh(wallList.elements) && wallList.Valid()
      invariant Tree(rows, cols, order) && Carved(cells[..], order) && |order| <= cells.Length
      invariant Frontier(wallList.Contents(), rows, cols, order)
      invariant complete ==> Pending(wallList.Contents(), rows, cols, order)
      decreases cells.Length - |order|, Weight(wallList.Contents(), Elems(order))
    {
      var empty := wallList.IsEmpty();
      if empty {
        break;
      }
      ghost var accepted;
      order, accepted := ProcessWall(cells, rows, cols, wallList, order);
      complete := complete && accepted;
    }
    assert IndicesOf(wallList.Contents()) == {};
    TreeIsConnected(cells[..], rows, cols, order);
  }

  /**
   * The push loop's state after slot i, from list s to list t: t extends s
   * by at most i nodes {index} for slots of ix not holding -1; when every
   * push was accepted, each such slot below i is listed, and otherwise the
   * list is full.
   */
  ghost predicate PushedUpTo(s: seq<Node>, t: seq<Node>, ix: seq<int>, i: int, complete: bool) {
    |s| <= |t| <= |s| + i && t[..|s|] == s &&
    (forall k :: |s| <= k < |t| ==> t[k] == Node(t[k].index, 0, 0) && t[k].index in ix && t[k].index != -1) &&
    (complete ==> forall slot :: 0 <= slot < i && slot < |ix| && ix[slot] != -1 ==> ix[slot] in IndicesOf(t[|s|..])) &&
    (!complete ==> |t| == MAX)
  }

  /** One pass of the push loop for a slot not holding -1, with Push's outcome ok. */
  lemma PushStep(s: seq<Node>, t: seq<Node>, t': seq<Node>, ix: seq<int>, i: int, complete: bool, ok: bool)
    requires 0 <= i < |ix| && ix[i] != -1 && PushedUpTo(s, t, ix, i, complete)
    requires |t| <= MAX && (ok <==> |t| < MAX) && t' == if ok then t + [Node(ix[i], 0, 0)] else t
    ensures PushedUpTo(s, t', ix, i + 1, complete && ok)
  {
    if ok {
      var wall := Node(ix[i], 0, 0);
      assert t'[..|s|] == t[..|s|];
      assert t'[|s|..] == t[|s|..] + [wall];
      IndicesAppend(t[|s|..], wall);
    }
  }

  /** The `for` loop that pushes a node {index} for every slot of `indexes` not holding -1. */
  method PushWalls(wallList: Stack, indexes: array<int>) returns (ghost complete: bool)
    requires wallList.Valid() && indexes.Length == 4
    modifies wallList, wallList.elements
    ensures wallList.Valid()
    ensures |old(wallList.Contents())| <= |wallList.Contents()| <= |old(wallList.Contents())| + 4
    ensures wallList.Contents()[..|old(wallList.Contents())|] == old(wallList.Contents())
    ensures forall k :: |old(wallList.Contents())| <= k < |wallList.Contents()| ==>
      wallList.Contents()[k] == Node(wallList.Contents()[k].index, 0, 0) &&
      wallList.Contents()[k].index in indexes[..] && wallList.Contents()[k].index != -1
    ensures complete ==> forall slot :: 0 <= slot < 4 && indexes[slot] != -1 ==>
      indexes[slot] in IndicesOf(wallList.Contents()[|old(wallList.Contents())|..])
    ensures !complete ==> |wallList.Contents()| == MAX
  {
    ghost var s := wallList.Contents();
    complete := true;
    assert s[|s|..] == [];
    for i := 0 to 4
      invariant wallList.Valid()
      invariant PushedUpTo(s, wallList.Contents(), indexes[..], i, complete)
    {
      if indexes[i] != -1 {
        var wall := Node(indexes[i], 0, 0);
        ghost var t := wallList.Contents();
        var ok := wallList.Push(wall);
        PushStep(s, t, wallList.Contents(), indexes[..], i, complete, ok);
        complete := complete && ok;
      }
    }
  }

  /**
   * One pass of the loop: picks a random entry of the wall list, carves its
   * cell when at most one of the cell's neighbours is carved, pushing the
   * cell's walled neighbours, and removes the entry. Either a new cell is
   * carved or the weight of the wall list drops.
   */
  method ProcessWall(cells: array<Cell>, rows: int, cols: int, wallList: Stack, ghost order0: seq<int>)
    returns (ghost order: seq<int>, ghost complete: bool)
    requires GridShape(cells.Length, rows, cols) && wallList.Valid() && wallList.Contents() != []
    requires Tree(rows, cols, order0) && Carved(cells[..], order0) && |order0| <= cells.Length
    requires Frontier(wallList.Contents(), rows, cols, order0)
    modifies cells, wallList, wallList.elements
    ensures wallList.Valid()
    ensures Tree(rows, cols, order) && Carved(cells[..], order) && |order| <= cells.Length
    ensures WallStep(old(wallList.Contents()), wallList.Contents(), rows, cols, order0, order, complete)
  {
    ghost var s0 := wallList.Contents();
    var randomWall :| 0 <= randomWall <= wallList.top;

    var index := wallList.elements[randomWall].index;
    assert s0[randomWall].index == index && s0[randomWall] in s0;

    var indexes := new int[4](_ => -1);
    GetNeighbourIndexes(index, cols, rows, indexes);
    assert indexes[..] == Slots(index, cols, rows);
    var neighbourPathCount := CountPathNeighbours(cells, rows, cols, indexes, index, order0);

    assert wallList.Contents() == s0;
    order, complete := order0, true;
    if neighbourPathCount <= 1 {
      order, complete := CarveWall(cells, rows, cols, wallList, index, indexes, randomWall, order0);
    } else {
      SkipWall(s0, randomWall, rows, cols, order0);
    }
    ghost var s1 := wallList.Contents();
    assert WallStep(s0, Remove(s1, randomWall), rows, cols, order0, order, complete);

    // Remove wall from the list
    wallList.RemoveAtIndex(randomWall);
    assert wallList.Contents() == Remove(s1, randomWall);
  }

  /**
   * The carving branch of ProcessWall, for a wall whose cell `index` has at
   * most one carved neighbour: carves it and pushes its walled neighbours.
   * After the entry at `randomWall` is removed, either a new cell is carved
   * or the weight of the wall list has dropped.
   */
  method CarveWall(cells: array<Cell>, rows: int, cols: int, wallList: Stack, index: int, indexes: array<int>,
                   randomWall: int, ghost order0: seq<int>)
    returns (ghost order: seq<int>, ghost complete: bool)
    requires GridShape(cells.Length, rows, cols) && wallList.Valid()
    requires Tree(rows, cols, order0) && Carved(cells[..], order0) && |order0| <= cells.Length
    requires Frontier(wallList.Contents(), rows, cols, order0)
    requires 0 <= randomWall < |wallList.Contents()| && wallList.Contents()[randomWall].index == index
    requires InGrid(index, rows, cols) && CountIn(index, cols, rows, Elems(order0), 4) <= 1
    requires indexes.Length == 4 && forall slot :: 0 <= slot < 4 ==> indexes[slot] == Walled(index, cols, rows, order0, slot)
    modifies cells, wallList, wallList.elements
    ensures wallList.Valid()
    ensures Tree(rows, cols, order) && Carved(cells[..], order) && |order| <= cells.Length
    ensures WallStep(old(wallList.Contents()), Remove(wallList.Contents(), randomWall), rows, cols, order0, order, complete)
  {
    ghost var s0 := wallList.Contents();
    assert s0[randomWall] in s0;
    order := CarveAt(cells, rows, cols, index, order0);
    complete := PushWalls(wallList, indexes);
    ghost var s1 := wallList.Contents();
    if complete {
      PendingCarve(s0, s1, randomWall, rows, cols, order0, order, index, indexes[..]);
    }
    FrontierGrows(s0, s1, rows, cols, order0, order, index, indexes[..]);
    if order == order0 {
      WeightAfterPush(s0, s1, randomWall, cols, rows, order, index, indexes[..]);
    }
    FrontierRemove(s1, randomWall, rows, cols, order);
  }
}
