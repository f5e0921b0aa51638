/** `IntStack` is `Stack<T>` specialised to `int`; its operations are those of
    module `Stack` at `T = int`. Only creation differs: a fresh `int[]` holds zeros. */
module IntStack {
  import Stack

  /** `new IntStack(size)`: empty, with `size` zero-filled cells. */
  function New(size: nat): (s: Stack.Stack<int>)
    ensures Stack.Valid(s) && Stack.IsEmpty(s)
    ensures Stack.Capacity(s) == size
    ensures forall i :: 0 <= i < size ==> s.slots[i] == 0
  {
    Stack.New(size, 0)
  }
}
