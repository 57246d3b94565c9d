/**
 * The slots of a ring buffer. A queue of `size` items starting at slot
 * `front` of a buffer of `n` slots occupies slots (front + i) % n for
 * i < size; this module gives that sequence and proves what a write at the
 * rear and an advance of the front do to it.
 */
module RingSlots {

  /** x % n for 0 <= x < 2n, written without `%`. */
  lemma ModBelowTwice(x: int, n: int)
    requires 0 < n && 0 <= x < 2 * n
    ensures x % n == if x < n then x else x - n
  {
    if x < n {
      assert x == n * 0 + x;
    } else {
      assert x == n * 1 + (x - n);
    }
  }

  /** The items held by the ring: slot (front + i) % |buf| for i < size. */
  ghost function Ring<T>(buf: seq<T>, front: int, size: int): (r: seq<T>)
    requires 0 <= front < |buf| && 0 <= size <= |buf|
    ensures |r| == size
  {
    seq(size, i requires 0 <= i < size => buf[(front + i) % |buf|])
  }

  /** The head of a non-empty ring is the slot at `front`. */
  lemma RingHead<T>(buf: seq<T>, front: int, size: int)
    requires 0 <= front < |buf| && 0 < size <= |buf|
    ensures Ring(buf, front, size)[0] == buf[front]
  {
    ModBelowTwice(front, |buf|);
  }

  /**
   * Writing x into the slot just past the last item, when the ring is not
   * full, appends x and keeps every item already there.
   */
  lemma RingPush<T>(buf: seq<T>, front: int, size: int, x: T)
    requires 0 <= front < |buf| && 0 <= size < |buf|
    ensures Ring(buf[(front + size) % |buf| := x], front, size + 1) == Ring(buf, front, size) + [x]
  {
    var n := |buf|;
    var rear := (front + size) % n;
    ModBelowTwice(front + size, n);
    var buf' := buf[rear := x];
    forall i | 0 <= i < size + 1
      ensures Ring(buf', front, size + 1)[i] == (Ring(buf, front, size) + [x])[i]
    {
      ModBelowTwice(front + i, n);
    }
  }

  /**
   * Advancing front by one slot modulo the buffer length drops the head of
   * the ring and keeps the rest in order.
   */
  lemma RingPop<T>(buf: seq<T>, front: int, size: int)
    requires 0 <= front < |buf| && 0 < size <= |buf|
    ensures 0 <= (front + 1) % |buf| < |buf|
    ensures Ring(buf, (front + 1) % |buf|, size - 1) == Ring(buf, front, size)[1..]
  {
    var n := |buf|;
    ModBelowTwice(front + 1, n);
    var front' := (front + 1) % n;
    forall i | 0 <= i < size - 1
      ensures Ring(buf, front', size - 1)[i] == Ring(buf, front, size)[1..][i]
    {
      ModBelowTwice(front' + i, n);
      ModBelowTwice(front + 1 + i, n);
    }
  }

  /**
   * The rear index (front + size) % n moves one slot on when an item is
   * added at the rear, and stays put when the front advances and size drops.
   */
  lemma RearAdvance(front: int, size: int, n: int)
    requires 0 < n && 0 <= front < n && 0 <= size < n
    ensures ((front + size) % n + 1) % n == (front + size + 1) % n
  {
    ModBelowTwice(front + size, n);
    ModBelowTwice((front + size) % n + 1, n);
    ModBelowTwice(front + size + 1, n);
  }

  lemma RearAfterFrontAdvance(front: int, size: int, n: int)
    requires 0 < n && 0 <= front < n && 0 < size <= n
    ensures ((front + 1) % n + (size - 1)) % n == (front + size) % n
  {
    ModBelowTwice(front + 1, n);
    ModBelowTwice((front + 1) % n + (size - 1), n);
    ModBelowTwice(front + size, n);
  }
}
