/** `Ring_Buffer`: a bounded queue in a circular array. */
module RingBuffer {
  import opened Bits

  /** Position `x` of a circle of `n`, for positions less than once around. */
  function Wrap(x: nat, n: nat): (r: nat)
    requires n > 0
    ensures x < 2 * n ==> r < n
  {
    if x < n then x else x - n
  }

  lemma WrapIs(x: nat, n: nat)
    requires n > 0 && x < 2 * n
    ensures x % n == Wrap(x, n)
  {
    ModUnique(x, n, if x < n then 0 else 1, Wrap(x, n));
  }

  /** The `size` elements from `head` on. */
  function Around<T>(data: seq<T>, head: nat, size: nat): (s: seq<T>)
    requires head < |data| && size <= |data|
    ensures |s| == size && forall i :: 0 <= i < size ==> s[i] == data[Wrap(head + i, |data|)]
  {
    seq(size, i requires 0 <= i < size => data[Wrap(head + i, |data|)])
  }

  class Queue<T> {
    const data: array<T>
    var head: nat
    var tail: nat
    var size: nat

    ghost predicate Valid()
      reads this
    {
      && 0 < data.Length && head < data.Length && size <= data.Length
      && tail == Wrap(head + size, data.Length)
    }

    /** The elements, oldest first. */
    ghost function Contents(): (s: seq<T>)
      requires Valid()
      reads this, data
      ensures |s| == size
    {
      Around(data[..], head, size)
    }

    constructor (n: nat, blank: T)
      requires n > 0
      ensures Valid() && Contents() == [] && data.Length == n && fresh(data)
    {
      data := new T[n](_ => blank);
      head, tail, size := 0, 0, 0;
    }

    predicate Empty()
      reads this
    {
      size == 0
    }

    predicate Full()
      reads this
    {
      size == data.Length
    }

    method PushBack(element: T)
      requires Valid() && size < data.Length
      modifies this`tail, this`size, data
      ensures Valid() && Contents() == old(Contents()) + [element]
    {
      WrapIs(tail + 1, data.Length);
      ghost var before := data[..];
      data[tail] := element;
      assert data[..] == before[tail := element];
      tail := (tail + 1) % data.Length;
      size := size + 1;
    }

    method PopFront() returns (element: T)
      requires Valid() && size > 0
      modifies this`head, this`size
      ensures Valid() && [element] + Contents() == old(Contents())
    {
      WrapIs(head + 1, data.Length);
      element := data[head];
      head := (head + 1) % data.Length;
      size := size - 1;
    }
  }
}
