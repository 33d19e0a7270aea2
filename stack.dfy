/**
 * Stack: a fixed-capacity array stack of nodes in which top == -1 means
 * empty, with an order-preserving RemoveAtIndex.
 */
module Stacks {
  import opened Cells

  /** s read from its last element to its first. */
  function Reverse(s: seq<Node>): (r: seq<Node>)
    ensures |r| == |s|
  {
    if s == [] then [] else [s[|s| - 1]] + Reverse(s[..|s| - 1])
  }

  lemma {:induction false} ReverseAt(s: seq<Node>, k: int)
    requires 0 <= k < |s|
    ensures Reverse(s)[k] == s[|s| - 1 - k]
  {
    if k > 0 {
      ReverseAt(s[..|s| - 1], k - 1);
    }
  }

  /** Reversing after putting x in front is reversing and then appending x. */
  lemma ReversePrepend(x: Node, s: seq<Node>)
    ensures Reverse([x] + s) == Reverse(s) + [x]
  {
    var t := [x] + s;
    forall k | 0 <= k < |t| ensures Reverse(t)[k] == (Reverse(s) + [x])[k] {
      ReverseAt(t, k);
      if k < |s| {
        ReverseAt(s, k);
      }
    }
  }

  lemma ReverseInvolutive(s: seq<Node>)
    ensures Reverse(Reverse(s)) == s
  {
    forall k | 0 <= k < |s| ensures Reverse(Reverse(s))[k] == s[k] {
      ReverseAt(Reverse(s), k);
      ReverseAt(s, |s| - 1 - k);
    }
  }

  /** s without its element at position k; s itself when k is not a position of s. */
  function Remove(s: seq<Node>, k: int): (r: seq<Node>)
    ensures 0 <= k < |s| ==> |r| == |s| - 1
    ensures !(0 <= k < |s|) ==> r == s
  {
    if 0 <= k < |s| then s[..k] + s[k + 1..] else s
  }

  /** The nodes of s in popping order (last first), leaving out position index. */
  function PopAllExcept(s: seq<Node>, index: int): (r: seq<Node>)
    ensures |r| <= |s|
  {
    if s == [] then []
    else (if |s| - 1 == index then [] else [s[|s| - 1]]) + PopAllExcept(s[..|s| - 1], index)
  }

  lemma {:induction false} PopAllExceptReverses(s: seq<Node>, index: int)
    ensures PopAllExcept(s, index) == Reverse(Remove(s, index))
  {
    if s != [] {
      var n := |s| - 1;
      PopAllExceptReverses(s[..n], index);
      RemoveInit(s, index);
    }
  }

  /**
   * One more pop of the drain: the node at position n - 1 (unless it is
   * position index) moves from the nodes still to pop to the end of those
   * popped.
   */
  lemma PopOneMore(popped: seq<Node>, s: seq<Node>, n: int, index: int)
    requires 0 < n <= |s|
    ensures popped + PopAllExcept(s[..n], index) ==
      (popped + if n - 1 == index then [] else [s[n - 1]]) + PopAllExcept(s[..n - 1], index)
  {
    assert s[..n][..n - 1] == s[..n - 1];
  }

  /** How removing position index from s relates to removing it from s without its last node. */
  lemma RemoveInit(s: seq<Node>, index: int)
    requires s != []
    ensures var n := |s| - 1;
      Reverse(Remove(s, index)) == (if n == index then [] else [s[n]]) + Reverse(Remove(s[..n], index))
  {
    var n := |s| - 1;
    if n == index {
      assert Remove(s, index) == s[..n];
    } else if 0 <= index < n {
      var r := Remove(s, index);
      assert r[..|r| - 1] == Remove(s[..n], index);
    }
  }

  class Stack {
    var top: int
    const elements: array<Node>

    ghost predicate Valid()
      reads this
    {
      elements.Length == MAX && -1 <= top < MAX
    }

    /** The stacked nodes, bottom first. */
    ghost function Contents(): seq<Node>
      reads this, elements
      requires Valid()
    {
      elements[..top + 1]
    }

    /**
     * `Stack stack;`: the default member initialiser sets top to 0, so the
     * uninitialised slot 0 already counts as an element.
     */
    constructor ()
      ensures Valid() && fresh(elements) && top == 0 && Contents() == [elements[0]]
    {
      top := 0;
      elements := new Node[MAX];
    }

    /** `Stack temp = {-1};`: an empty stack. */
    constructor Empty()
      ensures Valid() && fresh(elements) && Contents() == []
    {
      top := -1;
      elements := new Node[MAX];
    }

    /** Pops the most recently pushed node; the source leaves popping an empty stack undefined. */
    method Pop() returns (r: Node)
      requires Valid() && Contents() != []
      modifies this
      ensures Valid()
      ensures r == old(Contents())[|old(Contents())| - 1]
      ensures Contents() == old(Contents())[..|old(Contents())| - 1]
    {
      r := elements[top];
      top := top - 1;
    }

    /** Pushes item unless the stack already holds MAX nodes, in which case nothing changes. */
    method Push(item: Node) returns (ok: bool)
      requires Valid()
      modifies this, elements
      ensures Valid()
      ensures ok <==> |old(Contents())| < MAX
      ensures Contents() == if ok then old(Contents()) + [item] else old(Contents())
    {
      if top >= MAX - 1 {
        return false;
      } else {
        top := top + 1;
        elements[top] := item;
        return true;
      }
    }

    method IsEmpty() returns (empty: bool)
      requires Valid()
      ensures empty <==> Contents() == []
    {
      return top < 0;
    }

    /**
     * Removes the node at position `index` (0 is the bottom) and keeps the
     * others in order, by popping everything onto a scratch stack and back.
     */
    method RemoveAtIndex(index: int)
      requires Valid()
      modifies this, elements
      ensures Valid()
      ensures Contents() == Remove(old(Contents()), index)
    {
      var temp := new Stack.Empty();
      DrainInto(temp, index);
      RefillFrom(temp);
      ReverseInvolutive(Remove(old(Contents()), index));
    }

    /** First loop of RemoveAtIndex: pops every node, pushing all but position `index` onto temp. */
    method DrainInto(temp: Stack, index: int)
      requires Valid() && temp.Valid() && temp != this && temp.elements != elements
      requires temp.Contents() == []
      modifies this, temp, temp.elements
      ensures Valid() && temp.Valid() && Contents() == []
      ensures temp.Contents() == Reverse(Remove(old(Contents()), index))
    {
      ghost var s := Contents();
      while true
        invariant Valid() && temp.Valid()
        invariant top + 1 <= |s| && Contents() == s[..top + 1]
        invariant |temp.Contents()| + top + 1 <= |s|
        invariant temp.Contents() + PopAllExcept(s[..top + 1], index) == PopAllExcept(s, index)
        decreases top
      {
        var empty := IsEmpty();
        if empty {
          break;
        }
        PopOneMore(temp.Contents(), s, top + 1, index);
        MoveTop(temp, index);
      }
      assert s[..0] == [];
      PopAllExceptReverses(s, index);
    }

    /** One pass of the first loop: pops the top node and pushes it onto temp unless it sits at position `index`. */
    method MoveTop(temp: Stack, index: int)
      requires Valid() && temp.Valid() && temp != this && temp.elements != elements
      requires Contents() != [] && |temp.Contents()| < MAX
      modifies this, temp, temp.elements
      ensures Valid() && temp.Valid() && top == old(top) - 1
      ensures Contents() == old(Contents())[..|old(Contents())| - 1]
      ensures temp.Contents() ==
        old(temp.Contents()) + if old(top) == index then [] else [old(Contents())[|old(Contents())| - 1]]
    {
      if top != index {
        var x := Pop();
        var ok := temp.Push(x);
      } else {
        var x := Pop();
      }
    }

    /** Second loop of RemoveAtIndex: moves every node of temp back, restoring the order. */
    method RefillFrom(temp: Stack)
      requires Valid() && temp.Valid() && temp != this && temp.elements != elements
      requires Contents() == []
      modifies this, elements, temp
      ensures Valid() && Contents() == Reverse(old(temp.Contents()))
    {
      ghost var t := temp.Contents();
      while true
        invariant Valid() && temp.Valid()
        invariant temp.top + 1 <= |t| && temp.Contents() == t[..temp.top + 1]
        invariant |Contents()| + temp.top + 1 <= |t|
        invariant Contents() + PopAllExcept(t[..temp.top + 1], -1) == PopAllExcept(t, -1)
        decreases temp.top
      {
        var empty := temp.IsEmpty();
        if empty {
          break;
        }
        PopOneMore(Contents(), t, temp.top + 1, -1);
        MoveBack(temp);
      }
      assert t[..0] == [];
      PopAllExceptReverses(t, -1);
    }

    /** One pass of the second loop: pops the top node of temp and pushes it here. */
    method MoveBack(temp: Stack)
      requires Valid() && temp.Valid() && temp != this && temp.elements != elements
      requires temp.Contents() != [] && |Contents()| < MAX
      modifies this, elements, temp
      ensures Valid() && temp.Valid() && temp.top == old(temp.top) - 1
      ensures temp.Contents() == old(temp.Contents())[..|old(temp.Contents())| - 1]
      ensures Contents() == old(Contents()) + [old(temp.Contents())[|old(temp.Contents())| - 1]]
    {
      var x := temp.Pop();
      var ok := Push(x);
    }
  }
}
