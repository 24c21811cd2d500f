/** The per-task event ring of kernel/process/scheduler.h and the events it carries. One slot always
    stays empty, so a ring of 128 slots is a FIFO of capacity 127. */
module EventQueue {
  datatype OSEvent = OSEvent(kind: nat, dx: int, dy: int, buttons: nat, scancode: nat, ascii: nat)

  const SIZE: nat := 128

  datatype Queue = Queue(slots: seq<OSEvent>, head: nat, tail: nat)

  predicate Valid(q: Queue) { |q.slots| == SIZE && q.head < SIZE && q.tail < SIZE }

  /** The pending events, oldest first. */
  function Contents(q: Queue): seq<OSEvent>
    requires Valid(q)
  {
    if q.head >= q.tail then q.slots[q.tail..q.head] else q.slots[q.tail..] + q.slots[..q.head]
  }

  function Advance(i: nat): nat { (i + 1) % SIZE }

  predicate Full(q: Queue) { Advance(q.head) == q.tail }

  predicate Empty(q: Queue) { q.head == q.tail }

  function Pushed(q: Queue, e: OSEvent): Queue
    requires Valid(q)
  {
    q.(slots := q.slots[q.head := e], head := Advance(q.head))
  }

  function Popped(q: Queue): Queue { q.(tail := Advance(q.tail)) }

  /** Full means exactly 127 pending events, empty exactly none. */
  lemma Capacity(q: Queue)
    requires Valid(q)
    ensures |Contents(q)| <= SIZE - 1
    ensures Full(q) <==> |Contents(q)| == 127
    ensures Empty(q) <==> Contents(q) == []
  {
  }

  /** A push appends at the back. */
  lemma PushAppends(q: Queue, e: OSEvent)
    requires Valid(q) && !Full(q)
    ensures Valid(Pushed(q, e)) && Contents(Pushed(q, e)) == Contents(q) + [e]
  {
    var p := Pushed(q, e);
    AdvanceIs(q.head);
    if q.head >= q.tail && q.head + 1 < SIZE {
      assert p.slots[q.tail..q.head] == q.slots[q.tail..q.head];
    } else if q.head >= q.tail {
      assert p.slots[q.tail..] == q.slots[q.tail..q.head] + [e];
    } else {
      assert p.slots[q.tail..] == q.slots[q.tail..];
      assert p.slots[..q.head + 1] == q.slots[..q.head] + [e];
    }
  }

  lemma SliceFront(s: seq<OSEvent>, lo: nat, hi: nat)
    requires lo < hi <= |s|
    ensures s[lo..hi] == [s[lo]] + s[lo + 1..hi]
  {
  }

  lemma AdvanceIs(i: nat)
    requires i < SIZE
    ensures Advance(i) == if i + 1 == SIZE then 0 else i + 1
  {
  }

  lemma WrapFront(s: seq<OSEvent>, lo: nat, hi: nat)
    requires lo < |s| && hi <= |s|
    ensures s[lo..] + s[..hi] == [s[lo]] + (s[lo + 1..] + s[..hi])
  {
    assert s[lo..] == [s[lo]] + s[lo + 1..];
  }

  /** A pop removes from the front. */
  lemma PopRemoves(q: Queue)
    requires Valid(q) && !Empty(q)
    ensures Valid(Popped(q)) && Contents(q) == [q.slots[q.tail]] + Contents(Popped(q))
  {
    AdvanceIs(q.tail);
    if q.head > q.tail {
      SliceFront(q.slots, q.tail, q.head);
    } else {
      WrapFront(q.slots, q.tail, q.head);
      if q.tail + 1 == SIZE {
        assert q.slots[q.tail + 1..] == [];
        assert [] + q.slots[..q.head] == q.slots[0..q.head];
      }
    }
  }
}
