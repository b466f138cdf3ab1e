/** The circular buffer of mnet_pool_t, in the form the C code gives it: an array, a head index and
    a count, updated in place inside the critical sections.  Each method is proved to do to the
    ring what the transition system of module Pool does to its queue. */
module PoolRing {
  import opened Pool

  /** Where the i-th queued connection lives. */
  function SlotIndex(head: nat, i: nat, capacity: nat): (k: nat)
    requires 0 < capacity && head < capacity
    ensures k < capacity
  {
    (head + i) % capacity
  }

  lemma SlotIndexUnfolds(head: nat, i: nat, capacity: nat)
    requires 0 < capacity && head < capacity && i <= capacity
    ensures SlotIndex(head, i, capacity) == if head + i < capacity then head + i else head + i - capacity
  {
    var q := (head + i) / capacity;
    assert head + i == capacity * q + (head + i) % capacity;
    assert q < 2 by { Grows(capacity, 2, q); }
    assert q == 0 || q == 1;
  }

  lemma Grows(m: nat, p: nat, q: nat)
    ensures p <= q ==> m * p <= m * q
  {
    if p <= q { assert m * q == m * p + m * (q - p); }
  }

  /** The queued connections, oldest first. */
  function Window(slots: seq<Conn>, head: nat, count: nat): (q: seq<Conn>)
    requires 0 < |slots| && head < |slots| && count <= |slots|
    ensures |q| == count
  {
    seq(count, i requires 0 <= i < count => slots[SlotIndex(head, i, |slots|)])
  }

  /** Live positions of the ring do not collide. */
  lemma SlotIndexInjective(head: nat, i: nat, j: nat, capacity: nat)
    requires 0 < capacity && head < capacity && i < j < capacity
    ensures SlotIndex(head, i, capacity) != SlotIndex(head, j, capacity)
  {
    SlotIndexUnfolds(head, i, capacity);
    SlotIndexUnfolds(head, j, capacity);
  }

  lemma SlotIndexAdvance(head: nat, i: nat, capacity: nat)
    requires 0 < capacity && head < capacity && i < capacity
    ensures SlotIndex(SlotIndex(head, 1, capacity), i, capacity) == SlotIndex(head, i + 1, capacity)
  {
    SlotIndexUnfolds(head, 1, capacity);
    SlotIndexUnfolds(SlotIndex(head, 1, capacity), i, capacity);
    SlotIndexUnfolds(head, i + 1, capacity);
  }

  lemma WindowPush(slots: seq<Conn>, head: nat, count: nat, conn: Conn)
    requires 0 < |slots| && head < |slots| && count < |slots|
    ensures Window(slots[SlotIndex(head, count, |slots|) := conn], head, count + 1) == Window(slots, head, count) + [conn]
  {
    forall i | 0 <= i < count
      ensures SlotIndex(head, i, |slots|) != SlotIndex(head, count, |slots|)
    {
      SlotIndexInjective(head, i, count, |slots|);
    }
  }

  lemma WindowPop(slots: seq<Conn>, head: nat, count: nat)
    requires 0 < |slots| && head < |slots| && 0 < count <= |slots|
    ensures Window(slots, head, count) == [slots[head]] + Window(slots, SlotIndex(head, 1, |slots|), count - 1)
  {
    SlotIndexUnfolds(head, 0, |slots|);
    forall i | 0 <= i < count - 1
      ensures SlotIndex(SlotIndex(head, 1, |slots|), i, |slots|) == SlotIndex(head, i + 1, |slots|)
    {
      SlotIndexAdvance(head, i, |slots|);
    }
  }

  class Ring {
    const capacity: nat
    var slots: array<Conn>
    var head: nat
    var count: nat
    var shuttingDown: bool

    ghost predicate Valid()
      reads this
    {
      && 0 < capacity
      && slots.Length == capacity
      && head < capacity
      && count <= capacity
    }

    ghost function Queue(): (q: seq<Conn>)
      requires Valid()
      reads this, slots
      ensures |q| == count
    {
      Window(slots[..], head, count)
    }

    ghost function Contents(): Shared
      requires Valid()
      reads this, slots
    {
      Shared(Queue(), shuttingDown)
    }

    constructor (cfg: Config)
      ensures Valid() && fresh(slots)
      ensures capacity == cfg.Capacity() && Contents() == Shared([], false)
    {
      capacity := cfg.Capacity();
      slots := new Conn[cfg.Capacity()];
      head, count, shuttingDown := 0, 0, false;
    }

    /** mnet_pool_push from the test of the wait loop up to cond_wait or the unlock. */
    method TryPush(conn: Conn, running: bool) returns (outcome: PushOutcome)
      requires Valid()
      modifies this`count, this`shuttingDown, slots
      ensures Valid() && slots == old(slots)
      ensures (Contents(), outcome) == PushSection(old(Contents()), capacity, conn, running)
    {
      if count == capacity && !shuttingDown {
        if running {
          return PushWaits;
        }
        shuttingDown := true;
      }
      if shuttingDown {
        assert Queue() == old(Queue());
        return PushRefused;
      }
      WindowPush(slots[..], head, count, conn);
      slots[(head + count) % capacity] := conn;
      assert slots[..] == old(slots[..])[SlotIndex(head, count, capacity) := conn];
      count := count + 1;
      return PushQueued;
    }

    /** Takes the oldest connection off the ring. */
    method TakeHead() returns (conn: Conn)
      requires Valid() && count > 0
      modifies this`head, this`count
      ensures Valid()
      ensures old(Queue()) == [conn] + Queue()
    {
      WindowPop(slots[..], head, count);
      conn := slots[head];
      head := (head + 1) % capacity;
      count := count - 1;
    }

    /** mnet_pool_pop from the test of the wait loop up to cond_wait or the unlock. */
    method TryPop() returns (outcome: PopOutcome)
      requires Valid()
      modifies this`head, this`count
      ensures Valid()
      ensures (Contents(), outcome) == PopSection(old(Contents()))
    {
      if count == 0 && !shuttingDown {
        return PopWaits;
      }
      if count == 0 {
        return PopFinished;
      }
      var conn := TakeHead();
      return PopTook(conn);
    }

    /** The drain loop of mnet_pool_shutdown: closes whatever is left, oldest first. */
    method DrainAll() returns (closed: seq<Conn>)
      requires Valid()
      modifies this`head, this`count
      ensures Valid() && Queue() == []
      ensures closed == old(Queue())
    {
      closed := [];
      ghost var all := Queue();
      while count > 0
        invariant Valid()
        invariant closed + Queue() == all
        decreases count
      {
        ghost var before := Queue();
        var c := TakeHead();
        assert closed + before == (closed + [c]) + Queue();
        closed := closed + [c];
      }
    }
  }
}
