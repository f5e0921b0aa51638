/** `Queue<T>`: a bounded FIFO queue in a ring buffer. The counters `ini` and
    `end` only grow (until `empty()` resets them) and address the array modulo its
    capacity. `Contents` is the abstract sequence, oldest element first. Counters
    are unbounded integers here; Java's wrap-around after 2^31 operations is not
    modelled. */
module Queue {

  datatype Queue<T> = Queue(q: seq<T>, capacity: int, ini: int, end: int)

  /** Every queue the operations build: the array has `capacity` cells and holds
      between none and `capacity` live elements. */
  ghost predicate Valid<T>(Q: Queue<T>) {
    |Q.q| == Q.capacity && 0 <= Q.ini <= Q.end <= Q.ini + Q.capacity
  }

  /** The live elements: those enqueued and not yet dequeued, oldest first. */
  ghost function Contents<T>(Q: Queue<T>): (c: seq<T>)
    requires Valid(Q)
    ensures |c| == Q.end - Q.ini
  {
    seq(Q.end - Q.ini, k requires 0 <= k < Q.end - Q.ini => Q.q[(Q.ini + k) % Q.capacity])
  }

  /** `new Queue(size)`: an empty queue of capacity `size` whose cells hold `blank`. */
  function New<T>(size: nat, blank: T): (Q: Queue<T>)
    ensures Valid(Q) && Contents(Q) == [] && Capacity(Q) == size
  {
    Empty(Queue(seq(size, _ => blank), size, 0, 0))
  }

  /** `capacity()`: the number of elements the queue can hold. */
  function Capacity<T>(Q: Queue<T>): (r: int)
    requires Valid(Q)
    ensures r == |Q.q| && r >= |Contents(Q)|
  {
    Q.capacity
  }

  /** `size()`: the number of live elements. The second branch is the one Java
      takes after the counters wrap around; it is never reached here. */
  function Size<T>(Q: Queue<T>): (r: int)
    requires Valid(Q)
    ensures r == |Contents(Q)|
  {
    if Q.ini <= Q.end then Q.end - Q.ini else (Q.capacity - Q.end) + Q.ini
  }

  /** `empty()`: both counters back to zero; the array and capacity are kept. */
  function Empty<T>(Q: Queue<T>): (r: Queue<T>)
    requires |Q.q| == Q.capacity >= 0
    ensures Valid(r) && Contents(r) == [] && IsEmpty(r) && Size(r) == 0
    ensures r.q == Q.q && r.capacity == Q.capacity
  {
    Q.(ini := 0, end := 0)
  }

  /** `isEmpty()`: there is nothing to dequeue. */
  function IsEmpty<T>(Q: Queue<T>): (r: bool)
    requires Valid(Q)
    ensures r <==> Contents(Q) == []
    ensures r <==> Size(Q) == 0
  {
    Q.ini == Q.end
  }

  /** `enqueue(v)` on a queue below capacity: `v` joins the back. Only the cell
      `end % capacity` of the array is written. */
  function Enqueue<T>(Q: Queue<T>, v: T): (r: Queue<T>)
    requires Valid(Q) && Size(Q) < Capacity(Q)
    ensures Valid(r) && Contents(r) == Contents(Q) + [v]
    ensures Size(r) == Size(Q) + 1 && r.capacity == Q.capacity
    ensures forall i :: 0 <= i < |Q.q| && i != Q.end % Q.capacity ==> r.q[i] == Q.q[i]
  {
    var r := Q.(q := Q.q[Q.end % Q.capacity := v], end := Q.end + 1);
    EnqueueContents(Q, v, r);
    r
  }

  lemma EnqueueContents<T>(Q: Queue<T>, v: T, r: Queue<T>)
    requires Valid(Q) && Q.end - Q.ini < Q.capacity
    requires r == Q.(q := Q.q[Q.end % Q.capacity := v], end := Q.end + 1)
    ensures Valid(r) && Contents(r) == Contents(Q) + [v]
  {
    var n := Q.end - Q.ini;
    forall k | 0 <= k < n
      ensures Contents(r)[k] == Contents(Q)[k]
    {
      ModDistinct(Q.ini + k, Q.end, Q.capacity);
    }
    assert Contents(r)[n] == v;
  }

  /** `dequeue()` on a non-empty queue: the oldest element, and the queue without
      it. The array is not touched. */
  function Dequeue<T>(Q: Queue<T>): (r: (Queue<T>, T))
    requires Valid(Q) && !IsEmpty(Q)
    ensures Valid(r.0) && Contents(Q) == [r.1] + Contents(r.0)
    ensures Size(r.0) == Size(Q) - 1 && r.0.capacity == Q.capacity && r.0.q == Q.q
  {
    var v := Q.q[Q.ini % Q.capacity];
    var r := (Q.(ini := Q.ini + 1), v);
    assert Contents(Q) == [r.1] + Contents(r.0);
    r
  }

  /** First in, first out: an element enqueued on an empty queue is the next one
      out, and the queue is empty again afterwards. */
  lemma EnqueueThenDequeue<T>(Q: Queue<T>, v: T)
    requires Valid(Q) && IsEmpty(Q) && Capacity(Q) > 0
    ensures Dequeue(Enqueue(Q, v)).1 == v
    ensures IsEmpty(Dequeue(Enqueue(Q, v)).0)
  {
  }

  /** Two counters less than one capacity apart name different cells. */
  lemma ModDistinct(a: int, b: int, c: int)
    requires 0 < c && a < b < a + c
    ensures a % c != b % c
  {
    var t := b / c - a / c;
    assert b - a == c * t + (b % c - a % c);
    if t <= 0 {
      assert c * t <= 0;
    } else {
      assert c * t >= c;
    }
  }
}
