/** The bounded ring buffer of NTHU-OS-Pthreads/ts_queue.hpp. */
module TSQueues {

  /** The slot `i` places after `head`, wrapping around a buffer of `n` slots. */
  function Slot(head: nat, i: nat, n: nat): (s: nat)
    requires head < n && i <= n
    ensures s < n
  {
    if head + i < n then head + i else head + i - n
  }

  lemma Wrap(a: nat, n: nat)
    requires a < n
    ensures (a + 1) % n == if a + 1 < n then a + 1 else 0
  {
  }

  class TSQueue<T(0)> {
    const bufferSize: nat
    const buffer: array<T>
    var size: nat
    var head: nat
    var tail: nat

    ghost predicate Valid()
      reads this
    {
      && buffer.Length == bufferSize
      && size <= bufferSize
      && (bufferSize == 0 ==> head == tail == 0)
      && (bufferSize > 0 ==> head < bufferSize && tail == Slot(head, size, bufferSize))
    }

    /** The queue: the `size` slots from `head` on, wrapping around. */
    ghost function Contents(): (q: seq<T>)
      requires Valid()
      reads this, buffer
      ensures |q| == size
    {
      seq(size, i requires 0 <= i < size && Valid() reads this, buffer => buffer[Slot(head, i, bufferSize)])
    }

    constructor (bufferSize: nat)
      ensures Valid() && fresh(buffer) && this.bufferSize == bufferSize && Contents() == []
    {
      this.bufferSize := bufferSize;
      buffer := new T[bufferSize];
      size, head, tail := 0, 0, 0;
    }

    /** `enqueue` past its wait loop, holding the mutex. */
    method Enqueue(item: T)
      requires Valid() && size < bufferSize
      modifies this, buffer
      ensures Valid() && Contents() == old(Contents()) + [item]
    {
      Wrap(tail, bufferSize);
      buffer[tail] := item;
      tail := (tail + 1) % bufferSize;
      size := size + 1;
    }

    /** `dequeue` past its wait loop, holding the mutex. */
    method Dequeue() returns (element: T)
      requires Valid() && size > 0
      modifies this
      ensures Valid() && old(Contents()) == [element] + Contents()
    {
      Wrap(head, bufferSize);
      element := buffer[head];
      head := (head + 1) % bufferSize;
      size := size - 1;
      assert old(Contents())[1..] == Contents();
    }
  }
}
