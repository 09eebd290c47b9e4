/** The storage record of src/oarray.h: the same pointer-and-count record and
    the same open/openHeap/close/resize as src/ospace.h, except that openHeap
    and resize store the requested count even when allocation fails. */
module OArrayStores {
  import opened SizeT
  import opened Allocator

  class OArrayStore<T(0)> {
    var at: array?<T>
    var size: SizeT
    /** Ownership of `at`; the C code keeps no such record. */
    ghost var binding: Binding

    /** The count never exceeds what the buffer holds. */
    ghost predicate Consistent()
      reads this
    {
      if at == null then size == 0 else size <= at.Length
    }

    /** The stored elements, positions 0 to size - 1. */
    ghost function Elements(): seq<T>
      reads this, at
      requires Consistent()
    {
      if at == null then [] else at[..size]
    }

    /** A declared, not yet opened record. */
    constructor ()
      ensures at == null && size == 0 && binding == Unbound && Consistent()
    {
      at := null;
      size := 0;
      binding := Unbound;
    }

    /** open(at, size): records a caller-owned buffer and its count and
        returns the buffer. */
    method Open(buf: array?<T>, n: SizeT) returns (r: array?<T>)
      requires buf != null ==> n <= buf.Length
      modifies this
      ensures at == buf && size == n && r == buf && binding == External
      ensures buf != null ==> Consistent() && Elements() == buf[..n]
    {
      at := buf;
      size := n;
      binding := External;
      r := at;
    }

    /** openHeap(size): allocates n elements and records the count n whether
        or not malloc succeeded, so a failed request of n > 0 leaves a record
        that claims n elements behind a NULL buffer. */
    method OpenHeap(n: SizeT, ok: bool) returns (r: array?<T>)
      modifies this
      ensures r == at && size == n && binding == Heap
      ensures ok ==> at != null && fresh(at) && at.Length == n && Consistent()
      ensures !ok ==> at == null && (Consistent() <==> n == 0)
    {
      at := Malloc<T>(n, ok);
      size := n;
      binding := Heap;
      r := at;
    }

    /** close(): frees the buffer and returns NULL; `at` and `size` keep their
        values, the buffer is simply no longer usable. */
    method Close() returns (r: array?<T>)
      requires binding == Heap
      modifies this`binding
      ensures r == null && binding == Unbound
    {
      binding := Unbound;
      r := null;
    }

    /** resize(size): reallocates to n elements keeping the first min(old, n)
        elements; on failure `at` becomes NULL while the count is still n.
        The old buffer may be NULL with a non-zero count (left so by a failed
        openHeap or resize): realloc then acts as malloc. */
    method Resize(n: SizeT, ok: bool) returns (r: array?<T>)
      requires binding == Heap && (at != null ==> size <= at.Length)
      modifies this
      ensures r == at && size == n && binding == Heap
      ensures ok ==> at != null && fresh(at) && at.Length == n && Consistent()
      ensures ok && old(at) != null ==> at[..Min(old(size), n)] == old(at[..Min(size, n)])
      ensures !ok ==> at == null && (Consistent() <==> n == 0)
    {
      var a := Realloc(at, n, ok);
      at := a;
      size := n;
      r := at;
    }
  }
}
