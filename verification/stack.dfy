/** `Stack<T>`: a bounded stack kept in a fixed array `S` filled up to `len`.
    The value is immutable here: every operation returns the stack as it is
    afterwards, and `Contents` is the abstract sequence, bottom first. */
module Stack {

  datatype Stack<T> = Stack(slots: seq<T>, len: int)

  /** Every stack the operations build keeps `len` within the array. */
  ghost predicate Valid<T>(s: Stack<T>) {
    0 <= s.len <= |s.slots|
  }

  /** The elements on the stack, the most recently pushed last. */
  ghost function Contents<T>(s: Stack<T>): seq<T>
    requires Valid(s)
  {
    s.slots[..s.len]
  }

  /** `S.length`, fixed when the stack is created. */
  function Capacity<T>(s: Stack<T>): nat {
    |s.slots|
  }

  /** `new Stack(size)`: an empty stack over an array of `size` cells, each holding
      `blank` (`null` for the generic class, `0` for `IntStack`). */
  function New<T>(size: nat, blank: T): (s: Stack<T>)
    ensures Valid(s) && Contents(s) == [] && Capacity(s) == size
  {
    Stack(seq(size, _ => blank), 0)
  }

  /** `empty()`: forgets every element and keeps the array. */
  function Empty<T>(s: Stack<T>): (r: Stack<T>)
    ensures Valid(r) && Contents(r) == [] && IsEmpty(r)
    ensures r.slots == s.slots
  {
    s.(len := 0)
  }

  /** `push(v)`: on a stack that is not full, `v` becomes the new top. */
  function Push<T>(s: Stack<T>, v: T): (r: Stack<T>)
    requires Valid(s) && !IsFull(s)
    ensures Valid(r) && Contents(r) == Contents(s) + [v]
    ensures Capacity(r) == Capacity(s)
  {
    Stack(s.slots[s.len := v], s.len + 1)
  }

  /** `pop()`: on a non-empty stack, the top element, and the stack without it. */
  function Pop<T>(s: Stack<T>): (r: (Stack<T>, T))
    requires Valid(s) && !IsEmpty(s)
    ensures Valid(r.0) && Contents(s) == Contents(r.0) + [r.1]
    ensures Capacity(r.0) == Capacity(s)
  {
    var len := s.len - 1;
    (s.(len := len), s.slots[len])
  }

  /** `peek()`: the top element of a non-empty stack; the stack is unchanged. */
  function Peek<T>(s: Stack<T>): (r: T)
    requires Valid(s) && !IsEmpty(s)
    ensures r == Contents(s)[|Contents(s)| - 1]
    ensures r == Pop(s).1
  {
    s.slots[s.len - 1]
  }

  /** `isFull()`: no room for another element. */
  function IsFull<T>(s: Stack<T>): (r: bool)
    requires Valid(s)
    ensures r <==> |Contents(s)| == Capacity(s)
  {
    s.len == |s.slots|
  }

  /** `isEmpty()`: nothing to pop. */
  function IsEmpty<T>(s: Stack<T>): (r: bool)
    requires Valid(s)
    ensures r <==> Contents(s) == []
  {
    s.len == 0
  }

  /** Last in, first out: `pop()` right after `push(v)` returns `v` and leaves the
      stack holding what it held before the push. */
  lemma PushThenPop<T>(s: Stack<T>, v: T)
    requires Valid(s) && !IsFull(s)
    ensures Pop(Push(s, v)).1 == v
    ensures Contents(Pop(Push(s, v)).0) == Contents(s)
  {
  }
}
