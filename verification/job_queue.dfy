/**
 * The bounded job queue of src/job_queue.c: a ring buffer of `capacity`
 * slots with `front`, `rear` and `size`, and a one-way `destroyed` flag.
 * Each method is one call made while holding the queue's mutex; a call
 * whose wait loop would sleep returns a Blocked outcome and changes
 * nothing (see JobQueueSpec).
 */
module JobQueues {
  import opened JobQueueSpec
  import opened RingSlots

  class JobQueue<T(0)> {
    var buffer: array<T>
    var capacity: int
    var size: int
    var front: int
    var rear: int
    var destroyed: bool

    /** The ring-buffer invariant that every call keeps. */
    ghost predicate Valid()
      reads this
    {
      && 0 < capacity && buffer.Length == capacity
      && 0 <= size <= capacity
      && 0 <= front < capacity && 0 <= rear < capacity
      && rear == (front + size) % capacity
      && (destroyed ==> size == 0)
    }

    /** The queued jobs, oldest first: buffer[(front + i) % capacity] for i < size. */
    ghost function Contents(): (r: seq<T>)
      reads this, buffer
      requires Valid()
    {
      Ring(buffer[..], front, size)
    }

    /** The logical state of this queue. */
    ghost function Abstract(): (r: Queue<T>)
      reads this, buffer
      requires Valid()
    {
      Queue(Contents(), capacity, destroyed)
    }

    constructor Empty(capacity: int)
      requires 0 < capacity
      ensures Valid() && fresh(buffer)
      ensures this.capacity == capacity && size == 0 && front == 0 && rear == 0 && !destroyed
      ensures Contents() == []
    {
      buffer := new T[capacity];
      this.capacity := capacity;
      size := 0;
      front := 0;
      rear := 0;
      destroyed := false;
    }

    /**
     * job_queue_init: returns -1 and builds nothing for a non-positive
     * capacity; otherwise 0 and a fresh, empty, open queue.
     */
    static method Init(capacity: int) returns (status: int, q: JobQueue?<T>)
      ensures status == 0 || status == -1
      ensures status == -1 <==> capacity <= 0
      ensures status == -1 ==> q == null
      ensures status == 0 ==> q != null && fresh(q) && fresh(q.buffer) && q.Valid()
      ensures status == 0 ==> q.capacity == capacity && q.size == 0 && q.front == 0 && q.rear == 0 && !q.destroyed
      ensures status == 0 ==> Some(q.Abstract()) == JobQueueSpec.Init(capacity)
    {
      if capacity <= 0 {
        return -1, null;
      }
      q := new JobQueue.Empty(capacity);
      status := 0;
    }

    /**
     * job_queue_push: waits while full and open; once destroyed, refuses
     * and changes nothing; otherwise stores data at rear, advances rear
     * modulo capacity and counts the new job.
     */
    method Push(data: T) returns (r: PushResult)
      requires Valid()
      modifies this, buffer
      ensures Valid() && buffer == old(buffer) && capacity == old(capacity)
      ensures (r, Abstract()) == JobQueueSpec.Push(old(Abstract()), data)
      ensures r == Pushed ==> && buffer[old(rear)] == data
                              && (forall i :: 0 <= i < buffer.Length && i != old(rear) ==> buffer[i] == old(buffer[i]))
                              && rear == (old(rear) + 1) % capacity
                              && size == old(size) + 1 && front == old(front) && !destroyed
      ensures r != Pushed ==> unchanged(this) && unchanged(buffer)
    {
      ghost var before := buffer[..];
      if size == capacity && !destroyed {
        return PushBlocked;
      }
      if destroyed {
        return PushRefused;
      }
      buffer[rear] := data;
      var next := (rear + 1) % capacity;
      ModBelowTwice(rear + 1, capacity);
      RearAdvance(front, size, capacity);
      assert 0 <= next < capacity && next == (front + (size + 1)) % capacity;
      rear := next;
      size := size + 1;
      assert buffer[..] == before[(front + (size - 1)) % capacity := data];
      RingPush(before, front, size - 1, data);
      r := Pushed;
    }

    /**
     * job_queue_pop: waits while empty and open; when empty and destroyed
     * reports end of input and changes nothing; otherwise hands out the job
     * at front, advances front modulo capacity and uncounts it.
     */
    method Pop() returns (r: PopResult<T>)
      requires Valid()
      modifies this
      ensures Valid() && buffer == old(buffer) && capacity == old(capacity)
      ensures (r, Abstract()) == JobQueueSpec.Pop(old(Abstract()))
      ensures r.Popped? ==> && r.data == old(buffer[front])
                            && front == (old(front) + 1) % capacity
                            && size == old(size) - 1 && rear == old(rear) && destroyed == old(destroyed)
      ensures !r.Popped? ==> unchanged(this)
    {
      if size == 0 && !destroyed {
        return PopBlocked;
      }
      if size == 0 && destroyed {
        return EndOfInput;
      }
      ghost var before := Abstract();
      var data := buffer[front];
      RingHead(buffer[..], front, size);
      RingPop(buffer[..], front, size);
      var next := (front + 1) % capacity;
      ModBelowTwice(front + 1, capacity);
      RearAfterFrontAdvance(front, size, capacity);
      assert 0 <= next < capacity && rear == (next + (size - 1)) % capacity;
      front := next;
      size := size - 1;
      r := Popped(data);
      assert Contents() == before.items[1..];
      assert Abstract() == before.(items := before.items[1..]);
    }

    /**
     * job_queue_destroy: waits while jobs remain; once the queue is empty
     * sets the destroyed flag, which nothing clears again.
     */
    method Destroy() returns (r: DestroyResult)
      requires Valid()
      modifies this`destroyed
      ensures Valid()
      ensures (r, Abstract()) == JobQueueSpec.Destroy(old(Abstract()))
      ensures r == DestroyBlocked <==> old(size) > 0
      ensures destroyed == (old(destroyed) || r == Destroyed)
    {
      if size > 0 {
        return DestroyBlocked;
      }
      destroyed := true;
      r := Destroyed;
    }
  }

  /**
   * The calls made on one queue, in the order the mutex admitted them,
   * collecting the jobs the pushes enqueued and the jobs the pops handed
   * out. The queue ends in the state `Run` gives, so every lemma about
   * `Run` holds of the class.
   */
  method PerformCalls<T(0)>(q: JobQueue<T>, calls: seq<Call<T>>) returns (accepted: seq<T>, delivered: seq<T>)
    requires q.Valid()
    modifies q, q.buffer
    ensures q.Valid() && q.buffer == old(q.buffer)
    ensures Trace(q.Abstract(), accepted, delivered) == Run(old(q.Abstract()), calls)
  {
    ghost var start := q.Abstract();
    accepted, delivered := [], [];
    var i := 0;
    while i < |calls|
      invariant 0 <= i <= |calls|
      invariant q.Valid() && q.buffer == old(q.buffer)
      invariant Trace(q.Abstract(), accepted, delivered) == Run(start, calls[..i])
    {
      ghost var here := q.Abstract();
      RunAppend(start, calls[..i], [calls[i]]);
      assert calls[..i + 1] == calls[..i] + [calls[i]];
      assert Run(here, [calls[i]]) == Step(here, calls[i]) by {
        assert [calls[i]][1..] == [];
      }
      match calls[i] {
        case PushCall(x) =>
          var r := q.Push(x);
          if r == Pushed {
            accepted := accepted + [x];
          }
        case PopCall =>
          var r := q.Pop();
          if r.Popped? {
            delivered := delivered + [r.data];
          }
        case DestroyCall =>
          var r := q.Destroy();
      }
      i := i + 1;
    }
    assert calls[..|calls|] == calls;
  }

  /**
   * A capacity-2 queue: two pushes go through, a third waits, a pop hands
   * out the first job, the waiting push then goes through, and the next two
   * pops hand out the remaining jobs in order.
   */
  method BoundedBlockingScenario<T(0)>(a: T, b: T, c: T)
    returns (third: PushResult, first: PopResult<T>, retried: PushResult, second: PopResult<T>, last: PopResult<T>)
    ensures third == PushBlocked && retried == Pushed
    ensures first == Popped(a) && second == Popped(b) && last == Popped(c)
  {
    var status, q := JobQueue<T>.Init(2);
    var r := q.Push(a);
    r := q.Push(b);
    third := q.Push(c);
    first := q.Pop();
    retried := q.Push(c);
    second := q.Pop();
    last := q.Pop();
  }

  /**
   * Drain then close: with two jobs queued, destroy waits; it still waits
   * after one pop, and goes through after the second; afterwards a pop
   * reports end of input and a push is refused.
   */
  method DrainThenCloseScenario<T(0)>(a: T, b: T)
    returns (whileFull: DestroyResult, whileOne: DestroyResult, drained: DestroyResult,
             first: PopResult<T>, second: PopResult<T>, after: PopResult<T>, late: PushResult)
    ensures whileFull == DestroyBlocked && whileOne == DestroyBlocked && drained == Destroyed
    ensures first == Popped(a) && second == Popped(b)
    ensures after == EndOfInput && after.Code() == -1
    ensures late == PushRefused && late.Code() == -1
  {
    var status, q := JobQueue<T>.Init(2);
    var r := q.Push(a);
    r := q.Push(b);
    whileFull := q.Destroy();
    first := q.Pop();
    whileOne := q.Destroy();
    second := q.Pop();
    drained := q.Destroy();
    after := q.Pop();
    late := q.Push(a);
  }
}
