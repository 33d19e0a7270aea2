/**
 * MinHeap: a fixed-capacity, 0-indexed binary min-heap of nodes keyed by
 * distance, with linear-scan Find and DecreasePriority.
 */
module Heap {
  import opened Cells
  import opened Geometry

  /** Parent slot of `index`: (index - 1) / 2 with C division. */
  function Parent(index: int): (r: int)
    ensures index > 0 ==> 0 <= r < index && IsChild(r, index)
  {
    CDivTruncates(index - 1, 2);
    CDiv(index - 1, 2)
  }

  function LeftChild(index: int): int {
    2 * index + 1
  }

  function RightChild(index: int): int {
    2 * index + 2
  }

  /** Slot c is the left or the right child of slot i. */
  predicate IsChild(i: int, c: int) {
    c == LeftChild(i) || c == RightChild(i)
  }

  /** Parent inverts LeftChild and RightChild. */
  lemma ParentOfChild(i: int, c: int)
    requires i >= 0 && IsChild(i, c)
    ensures Parent(c) == i
  {
    CDivTruncates(c - 1, 2);
  }

  /** s[..] with slots x and y exchanged. */
  function Swapped(s: seq<Node>, x: int, y: int): seq<Node>
    requires 0 <= x < |s| && 0 <= y < |s|
  {
    s[x := s[y]][y := s[x]]
  }

  /** No slot is smaller than its parent. */
  ghost predicate HeapOrdered(s: seq<Node>) {
    forall i, c :: 0 <= i < c < |s| && IsChild(i, c) ==> s[i].distance <= s[c].distance
  }

  /**
   * Heap order except between slot k and its parent (the state sift-up works on);
   * the parent of k is still no larger than k's children.
   */
  ghost predicate HeapOrderedExceptUp(s: seq<Node>, k: int) {
    (forall i, c :: 0 <= i < c < |s| && IsChild(i, c) && c != k ==> s[i].distance <= s[c].distance) &&
    (forall i, c :: 0 <= i < c < |s| && IsChild(i, k) && IsChild(k, c) ==> s[i].distance <= s[c].distance)
  }

  /**
   * Heap order except between slot k and its children (the state sift-down works on);
   * the parent of k is no larger than k's children.
   */
  ghost predicate HeapOrderedExceptDown(s: seq<Node>, k: int) {
    (forall i, c :: 0 <= i < c < |s| && IsChild(i, c) && i != k ==> s[i].distance <= s[c].distance) &&
    (forall i, c :: 0 <= i < c < |s| && IsChild(i, k) && IsChild(k, c) ==> s[i].distance <= s[c].distance)
  }

  /** In a heap-ordered sequence the root has the least distance. */
  lemma {:induction false} RootIsMinimum(s: seq<Node>, k: int)
    requires HeapOrdered(s) && 0 <= k < |s|
    ensures s[0].distance <= s[k].distance
  {
    if k > 0 {
      var p := Parent(k);
      assert IsChild(p, k);
      RootIsMinimum(s, p);
    }
  }

  /** One swap of sift-up moves the possible violation from k to its parent. */
  lemma SiftUpStep(s: seq<Node>, k: int)
    requires 0 < k < |s| && HeapOrderedExceptUp(s, k)
    requires s[Parent(k)].distance > s[k].distance
    ensures HeapOrderedExceptUp(Swapped(s, k, Parent(k)), Parent(k))
  {
    var p := Parent(k);
    var t := Swapped(s, k, p);
    forall i, c | 0 <= i < c < |t| && IsChild(i, c) && c != p
      ensures t[i].distance <= t[c].distance
    {
      if i == p && c != k {
        assert s[p].distance <= s[c].distance;
      } else if i == k {
        assert IsChild(p, k);
        assert s[p].distance <= s[c].distance;
      }
    }
    forall i, c | 0 <= i < c < |t| && IsChild(i, p) && IsChild(p, c)
      ensures t[i].distance <= t[c].distance
    {
      assert s[i].distance <= s[p].distance;
      if c != k {
        assert s[p].distance <= s[c].distance;
      }
    }
  }

  /** Lowering the distance of one slot of a heap leaves only that slot out of order upwards. */
  lemma LoweredIsExceptUp(s: seq<Node>, k: int, p: int)
    requires HeapOrdered(s) && 0 <= k < |s| && p <= s[k].distance
    ensures HeapOrderedExceptUp(s[k := s[k].(distance := p)], k)
  {
  }

  /** Sift-up stops at the root or once the parent is no larger. */
  lemma SiftUpDone(s: seq<Node>, k: int)
    requires (0 <= k < |s| || k == 0) && HeapOrderedExceptUp(s, k)
    requires k == 0 || s[Parent(k)].distance <= s[k].distance
    ensures HeapOrdered(s)
  {
    forall i, c | 0 <= i < c < |s| && IsChild(i, c)
      ensures s[i].distance <= s[c].distance
    {
      if c == k {
        ParentOfChild(i, c);
      }
    }
  }

  /** One swap of sift-down with the smaller child m moves the possible violation from k to m. */
  lemma SiftDownStep(s: seq<Node>, k: int, m: int)
    requires 0 <= k < m < |s| && IsChild(k, m) && HeapOrderedExceptDown(s, k)
    requires s[m].distance < s[k].distance
    requires forall c :: 0 <= c < |s| && IsChild(k, c) ==> s[m].distance <= s[c].distance
    ensures HeapOrderedExceptDown(Swapped(s, k, m), m)
  {
    var t := Swapped(s, k, m);
    forall i, c | 0 <= i < c < |t| && IsChild(i, c) && i != m
      ensures t[i].distance <= t[c].distance
    {
      if c == k {
        assert s[i].distance <= s[m].distance;
      }
    }
    forall i, c | 0 <= i < c < |t| && IsChild(i, m) && IsChild(m, c)
      ensures t[i].distance <= t[c].distance
    {
      assert i == k;
      assert s[m].distance <= s[c].distance;
    }
  }

  /** Sift-down stops once k is no larger than its children. */
  lemma SiftDownDone(s: seq<Node>, k: int)
    requires 0 <= k && HeapOrderedExceptDown(s, k)
    requires forall c :: 0 <= c < |s| && IsChild(k, c) ==> s[k].distance <= s[c].distance
    ensures HeapOrdered(s)
  {
  }

  /**
   * Moving the last node of a heap to the root leaves only the root out of
   * order downwards, and the nodes kept are all but the old root.
   */
  lemma LastToRoot(s: seq<Node>)
    requires HeapOrdered(s) && |s| >= 2
    ensures HeapOrderedExceptDown([s[|s| - 1]] + s[1..|s| - 1], 0)
    ensures multiset([s[|s| - 1]] + s[1..|s| - 1]) == multiset(s) - multiset{s[0]}
  {
    var t := [s[|s| - 1]] + s[1..|s| - 1];
    forall i, c | 0 <= i < c < |t| && IsChild(i, c) && i != 0
      ensures t[i].distance <= t[c].distance
    {
      assert t[i] == s[i] && t[c] == s[c];
    }
    assert s == [s[0]] + s[1..|s| - 1] + [s[|s| - 1]];
  }

  /** s with every node whose index is g given distance p (what DecreasePriority's scan does). */
  function WithPriority(s: seq<Node>, g: int, p: int): (r: seq<Node>)
    ensures |r| == |s|
    ensures forall i :: 0 <= i < |s| ==> r[i] == if s[i].index == g then s[i].(distance := p) else s[i]
  {
    if s == [] then []
    else [if s[0].index == g then s[0].(distance := p) else s[0]] + WithPriority(s[1..], g, p)
  }

  /** Index g occurs in at most one node of s. */
  /** A heap whose nodes make up the single node x is [x]. */
  lemma OnlyNode(s: seq<Node>, x: Node)
    requires multiset(s) == multiset{x}
    ensures s == [x]
  {
    assert |s| == |multiset(s)| == 1;
    assert s[0] in multiset(s);
  }

  ghost predicate AtMostOnce(s: seq<Node>, g: int) {
    forall a, b :: 0 <= a < |s| && 0 <= b < |s| && s[a].index == g && s[b].index == g ==> a == b
  }

  class MinHeap {
    var size: int
    const elements: array<Node>

    ghost predicate Valid()
      reads this
    {
      elements.Length == MAX && 0 <= size <= MAX
    }

    /** The nodes in the heap, in slot order. */
    ghost function Contents(): seq<Node>
      reads this, elements
      requires Valid()
    {
      elements[..size]
    }

    /** `MinHeap minHeap = {0};` */
    constructor ()
      ensures Valid() && fresh(elements) && Contents() == []
    {
      size := 0;
      elements := new Node[MAX];
    }

    method Swap(x: int, y: int)
      requires Valid() && 0 <= x < size && 0 <= y < size
      modifies elements
      ensures elements[..] == old(elements[..])[x := old(elements[y])][y := old(elements[x])]
      ensures Contents() == Swapped(old(Contents()), x, y)
      ensures multiset(Contents()) == old(multiset(Contents()))
    {
      ghost var s := elements[..size];
      var temp := elements[x];
      elements[x] := elements[y];
      elements[y] := temp;
      assert elements[..size] == Swapped(s, x, y);
    }

    /** Moves the node at `index` up until its parent is no larger (C++ lines 69-73 and 141-145). */
    method SiftUp(index: int)
      requires Valid() && (0 <= index < size || index == 0) && HeapOrderedExceptUp(Contents(), index)
      modifies elements
      ensures Valid() && HeapOrdered(Contents())
      ensures multiset(Contents()) == old(multiset(Contents()))
    {
      var k := index;
      while k != 0 && elements[Parent(k)].distance > elements[k].distance
        invariant 0 <= k < size || k == 0
        invariant HeapOrderedExceptUp(elements[..size], k)
        invariant multiset(elements[..size]) == old(multiset(elements[..size]))
        decreases k
      {
        ghost var s := elements[..size];
        SiftUpStep(s, k);
        Swap(k, Parent(k));
        assert elements[..size] == Swapped(s, k, Parent(k));
        k := Parent(k);
      }
      SiftUpDone(elements[..size], k);
    }

    method Insert(n: Node)
      requires Valid() && HeapOrdered(Contents()) && size < MAX
      modifies this, elements
      ensures Valid() && HeapOrdered(Contents()) && size == old(size) + 1
      ensures multiset(Contents()) == old(multiset(Contents())) + multiset{n}
    {
      ghost var s := Contents();
      size := size + 1;
      var index := size - 1;
      elements[index] := n;
      assert Contents() == s + [n];
      SiftUp(index);
    }

    /** Restores heap order below `index` by swapping it with its smaller child. */
    method MinHeapify(index: int)
      requires Valid() && 0 <= index && HeapOrderedExceptDown(Contents(), index)
      modifies elements
      ensures Valid() && HeapOrdered(Contents())
      ensures multiset(Contents()) == old(multiset(Contents()))
    {
      var k := index;
      var done := false;
      while !done
        invariant 0 <= k
        invariant HeapOrderedExceptDown(elements[..size], k)
        invariant done ==> HeapOrdered(elements[..size])
        invariant multiset(elements[..size]) == old(multiset(elements[..size]))
        decreases !done, size - k
      {
        var left := LeftChild(k);
        var right := RightChild(k);
        var smallest := k;
        if left < size && elements[left].distance < elements[smallest].distance {
          smallest := left;
        }
        if right < size && elements[right].distance < elements[smallest].distance {
          smallest := right;
        }
        if smallest != k {
          ghost var s := elements[..size];
          SiftDownStep(s, k, smallest);
          Swap(k, smallest);
          assert elements[..size] == Swapped(s, k, smallest);
          k := smallest;
        } else {
          SiftDownDone(elements[..size], k);
          done := true;
        }
      }
    }

    /** Removes and returns a node of least distance; requires a non-empty heap. */
    method ExtractMin() returns (r: Node)
      requires Valid() && HeapOrdered(Contents()) && size >= 1
      modifies this, elements
      ensures Valid() && HeapOrdered(Contents()) && size == old(size) - 1
      ensures r in old(Contents())
      ensures forall k :: 0 <= k < |old(Contents())| ==> r.distance <= old(Contents())[k].distance
      ensures multiset(Contents()) == old(multiset(Contents())) - multiset{r}
    {
      ghost var s := Contents();
      forall k | 0 <= k < |s| ensures s[0].distance <= s[k].distance {
        RootIsMinimum(s, k);
      }
      if size == 1 {
        size := size - 1;
        return elements[0];
      }
      r := elements[0];
      elements[0] := elements[size - 1];
      size := size - 1;
      assert Contents() == [s[|s| - 1]] + s[1..|s| - 1];
      LastToRoot(s);
      MinHeapify(0);
    }

    /** Gives the node with index n.index distance `priority` and sifts it up. */
    method DecreasePriority(n: Node, priority: int)
      requires Valid() && HeapOrdered(Contents()) && AtMostOnce(Contents(), n.index)
      requires forall k :: 0 <= k < size && elements[k].index == n.index ==> priority <= elements[k].distance
      modifies elements
      ensures Valid() && HeapOrdered(Contents())
      ensures multiset(Contents()) == multiset(WithPriority(old(Contents()), n.index, priority))
    {
      ghost var s := Contents();
      ghost var found := false;
      var index := 0;
      for i := 0 to size
        invariant forall k :: 0 <= k < size ==>
          elements[k] == if k < i && s[k].index == n.index then s[k].(distance := priority) else s[k]
        invariant found ==> 0 <= index < i && s[index].index == n.index
        invariant !found ==> index == 0 && forall k :: 0 <= k < i ==> s[k].index != n.index
      {
        if elements[i].index == n.index {
          index := i;
          found := true;
          elements[i] := elements[i].(distance := priority);
        }
      }
      assert Contents() == WithPriority(s, n.index, priority);
      if found {
        assert Contents() == s[index := s[index].(distance := priority)];
        LoweredIsExceptUp(s, index, priority);
      } else {
        assert Contents() == s;
      }
      SiftUp(index);
    }

    method Find(gridIndex: int) returns (found: bool)
      requires Valid()
      ensures found <==> exists k :: 0 <= k < size && elements[k].index == gridIndex
    {
      for i := 0 to size
        invariant forall k :: 0 <= k < i ==> elements[k].index != gridIndex
      {
        if elements[i].index == gridIndex {
          return true;
        }
      }
      return false;
    }

    method IsEmpty() returns (empty: bool)
      requires Valid()
      ensures empty <==> Contents() == []
    {
      return size < 1;
    }
  }
}
