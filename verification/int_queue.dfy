/** `IntQueue` is `Queue<T>` specialised to `int`; its operations are those of
    module `Queue` at `T = int`. Only creation differs: a fresh `int[]` holds zeros. */
module IntQueue {
  import Queue

  /** `new IntQueue(size)`: empty, capacity `size`, zero-filled cells. */
  function New(size: nat): (Q: Queue.Queue<int>)
    ensures Queue.Valid(Q) && Queue.IsEmpty(Q) && Queue.Size(Q) == 0
    ensures Queue.Capacity(Q) == size
    ensures forall i :: 0 <= i < size ==> Q.q[i] == 0
  {
    Queue.New(size, 0)
  }
}
