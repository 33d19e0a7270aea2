/**
 * Queue: a fixed-capacity FIFO of nodes whose front and rear cursors only
 * advance and never wrap around.
 */
module Queues {
  import opened Cells

  /** The three cursors of a queue, as values. */
  datatype Cursors = Cursors(size: int, front: int, rear: int)

  /** The cursors of `Queue queue = {0, -1, -1};`. */
  const INITIAL: Cursors := Cursors(0, -1, -1)

  /**
   * Queue::Push's cursor update exactly as the source writes it: it refuses
   * only when size >= MAX. Returns the new cursors and the slot written, or
   * -1 when the push is refused.
   */
  function PushAsWritten(q: Cursors): (Cursors, int) {
    if q.size >= MAX then (q, -1) else (Cursors(q.size + 1, q.front, q.rear + 1), q.rear + 1)
  }

  /** Queue::Pop's cursor update. */
  function PopCursors(q: Cursors): Cursors {
    Cursors(q.size - 1, q.front + 1, q.rear)
  }

  /** The cursors after n as-written pushes from q. */
  function PushedAsWritten(q: Cursors, n: nat): Cursors {
    if n == 0 then q else PushAsWritten(PushedAsWritten(q, n - 1)).0
  }

  lemma {:induction false} PushedFromInitial(n: nat)
    requires n <= MAX
    ensures PushedAsWritten(INITIAL, n) == Cursors(n, -1, n - 1)
  {
    if n > 0 {
      PushedFromInitial(n - 1);
    }
  }

  /**
   * After MAX pushes and one pop the size guard admits another push, which
   * writes slot MAX: one past the end of elements[MAX].
   */
  lemma AsWrittenPushOverruns()
    ensures var q := PopCursors(PushedAsWritten(INITIAL, MAX));
      q.size < MAX && PushAsWritten(q).1 == MAX
  {
    PushedFromInitial(MAX);
  }

  class Queue {
    var size: int
    var front: int
    var rear: int
    const elements: array<Node>

    /** size == rear - front, and both cursors stay inside elements. */
    ghost predicate Valid()
      reads this
    {
      elements.Length == MAX && -1 <= front <= rear < MAX && size == rear - front
    }

    /** The queued nodes, oldest first. */
    ghost function Contents(): seq<Node>
      reads this, elements
      requires Valid()
    {
      elements[front + 1..rear + 1]
    }

    /** `Queue queue = {0, -1, -1};` */
    constructor ()
      ensures Valid() && fresh(elements) && Contents() == [] && rear == -1
    {
      size, front, rear := 0, -1, -1;
      elements := new Node[MAX];
    }

    /** Dequeues the oldest node; the source leaves popping an empty queue undefined. */
    method Pop() returns (r: Node)
      requires Valid() && Contents() != []
      modifies this
      ensures Valid() && rear == old(rear)
      ensures r == old(Contents())[0] && Contents() == old(Contents())[1..]
    {
      size := size - 1;
      front := front + 1;
      r := elements[front];
    }

    /**
     * Enqueues item unless the rear cursor is already at the last slot, in
     * which case nothing changes. (The source tests size >= MAX instead,
     * which lets a push write past the end; see AsWrittenPushOverruns.)
     */
    method Push(item: Node) returns (ok: bool)
      requires Valid()
      modifies this, elements
      ensures Valid()
      ensures ok <==> old(rear) < MAX - 1
      ensures old(size) >= MAX ==> !ok
      ensures rear == if ok then old(rear) + 1 else old(rear)
      ensures Contents() == if ok then old(Contents()) + [item] else old(Contents())
    {
      if rear >= MAX - 1 {
        return false;
      } else {
        rear := rear + 1;
        elements[rear] := item;
        size := size + 1;
        return true;
      }
    }

    method IsEmpty() returns (empty: bool)
      requires Valid()
      ensures empty <==> Contents() == []
    {
      return size == 0;
    }
  }
}
