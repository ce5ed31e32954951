/** FIFO queue built on the singly-linked list. The queue keeps the head of a
    chain and a cached tail slot, the place where the next item is to be linked:
    the head itself while the queue is empty, otherwise the `next` field of the
    last item. */
module SListQueue {
  import opened Sequences
  import opened SList

  class Queue {
    /** The queue's `head` field; a slot can refer to it, as `&queue->head` does. */
    const head: Head
    /** The queue's `tail` field. */
    var tail: Slot
    /** The items, front first. */
    ghost var Contents: seq<Node>

    /** The queue invariant: the head starts the chain of the items, and the tail
        slot is the head when the queue is empty and the last item's `next`
        field otherwise. */
    ghost predicate Valid()
      reads this, head, Contents
    {
      Linked(head.first, Contents) &&
      tail == if Contents == [] then HeadSlot(head) else NextSlot(Contents[|Contents| - 1])
    }

    /** A queue with its own head field, in the state genc_slq_init leaves it in. */
    constructor ()
      ensures Valid() && Contents == []
      ensures fresh(head)
    {
      head := new Head(null);
      tail := HeadSlot(head);
      Contents := [];
    }

    /** The tail slot of a valid queue holds null: it is the end of the chain. */
    lemma TailHoldsNull()
      requires Valid()
      ensures Get(tail) == null
    {
      if Contents != [] {
        LinkedChain(head.first, Contents);
      }
    }

    /** genc_slq_init: empties the queue, whatever its fields held before. */
    method Init()
      modifies this, head
      ensures head.first == null && tail == HeadSlot(head)
      ensures Valid() && Contents == []
    {
      head.first := null;
      tail := HeadSlot(head);
      Contents := [];
    }

    /** genc_slq_push_back: links the item in at the tail slot, which makes it the
        last item, and moves the tail to the item's own `next` field. */
    method PushBack(item: Node)
      requires Valid() && item !in Contents
      modifies this, tail.Owner(), item
      ensures Valid() && Contents == old(Contents) + [item]
      ensures tail == NextSlot(item) && item.next == null
    {
      TailHoldsNull();
      tail := InsertAt(item, tail, HeadSlot(head), Contents, |Contents|);
      assert Contents[..|Contents|] + [item] + Contents[|Contents|..] == Contents + [item];
      Contents := Contents + [item];
    }

    /** genc_slq_push_front: on an empty queue the same as PushBack, since the
        tail has to move; otherwise links the item in at the head and leaves the
        tail where it was. */
    method PushFront(item: Node)
      requires Valid() && item !in Contents
      modifies this, head, item
      ensures Valid() && Contents == [item] + old(Contents)
      ensures old(Contents) == [] ==> tail == NextSlot(item)
      ensures old(Contents) != [] ==> tail == old(tail)
    {
      if head.first == null {
        PushBack(item);
      } else {
        var _ := InsertAt(item, HeadSlot(head), HeadSlot(head), Contents, 0);
        assert Contents[..0] + [item] + Contents[0..] == [item] + Contents;
        Contents := [item] + Contents;
      }
    }

    /** genc_slq_pop_front: null, with nothing changed, when the queue is empty;
        otherwise unlinks the front item and returns it with `next` nulled. When
        that empties the queue the tail goes back to the head. */
    method PopFront() returns (r: Node?)
      requires Valid()
      modifies this, head, head.first
      ensures Valid()
      ensures old(Contents) == [] ==> r == null && unchanged(this, head)
      ensures old(Contents) != [] ==> r == old(Contents[0]) && r.next == null && Contents == old(Contents[1..])
      ensures Contents == [] ==> tail == HeadSlot(head)
    {
      r := RemoveAt(HeadSlot(head), HeadSlot(head), Contents, 0);
      if r == null {
        return;
      }
      DropFront(Contents, 0);
      assert Contents[0..] == Contents;
      Contents := Contents[1..];
      if head.first == null {
        tail := HeadSlot(head);
      }
    }

    /** genc_slq_is_empty: whether the head holds null, which for a valid queue
        means it has no items. */
    function IsEmpty(): (r: bool)
      reads this, head, Contents
      ensures Valid() ==> (r <==> Contents == [])
    {
      head.first == null
    }
  }

  /** genc_slq_swap: exchanges the fields of two queues, then points a tail that
      referred to the other queue's head back at the queue's own head. Swapping a
      queue with itself changes nothing. */
  method Swap(q1: Queue, q2: Queue)
    requires q1.Valid() && q2.Valid()
    requires q1 != q2 ==> q1.head != q2.head
    modifies q1, q2, q1.head, q2.head
    ensures q1.Valid() && q2.Valid()
    ensures q1.Contents == old(q2.Contents) && q2.Contents == old(q1.Contents)
    ensures q1 == q2 ==> unchanged(q1, q1.head)
  {
    if q1 == q2 {
      return;
    }
    var first1, tail1 := q1.head.first, q1.tail;
    q1.head.first, q1.tail := q2.head.first, q2.tail;
    q2.head.first, q2.tail := first1, tail1;
    q1.Contents, q2.Contents := q2.Contents, q1.Contents;
    if q1.tail == HeadSlot(q2.head) {
      q1.tail := HeadSlot(q1.head);
    }
    if q2.tail == HeadSlot(q1.head) {
      q2.tail := HeadSlot(q2.head);
    }
  }

  /** FIFO order: three items pushed at the back come off the front in the order
      they went in, and the queue ends up empty with its tail back at its head. */
  method FifoOrder(q: Queue, a: Node, b: Node, c: Node) returns (x: Node?, y: Node?, z: Node?)
    requires q.Valid() && q.Contents == []
    requires a != b && b != c && a != c
    modifies q, q.head, a, b, c
    ensures x == a && y == b && z == c
    ensures q.Valid() && q.Contents == [] && q.tail == HeadSlot(q.head)
  {
    q.PushBack(a);
    q.PushBack(b);
    q.PushBack(c);
    x := q.PopFront();
    y := q.PopFront();
    z := q.PopFront();
  }

  /** Pushing at the front of an empty queue moves the tail like PushBack does, so
      an item pushed at the back afterwards still lands behind it; an item pushed
      at the front of a non-empty queue lands before everything. */
  method MixedOrder(q: Queue, a: Node, b: Node, c: Node)
    requires q.Valid() && q.Contents == []
    requires a != b && b != c && a != c
    modifies q, q.head, a, b, c
    ensures q.Valid() && q.Contents == [c, a, b]
    ensures q.tail == NextSlot(b)
  {
    q.PushFront(a);
    q.PushBack(b);
    q.PushFront(c);
  }
}
