/** The storage record of src/ospace.h: a buffer pointer and its element
    count, with open/openHeap/close/resize. Unlike src/oarray.h it sets the
    count to 0 whenever allocation fails, so the record never claims elements
    that no buffer holds. */
module OSpaces {
  import opened SizeT
  import opened Allocator

  class OSpace<T(0)> {
    var at: array?<T>
    var size: SizeT
    /** Ownership of `at`; the C code keeps no such record. */
    ghost var binding: Binding

    /** The count never exceeds what the buffer holds; in particular a NULL
        buffer goes with a count of 0. */
    ghost predicate Consistent()
      reads this
    {
      if at == null then size == 0 else size <= at.Length
    }

    /** The stored elements, positions 0 to size - 1. */
    ghost function Elements(): seq<T>
      reads this, at
      requires Consistent()
    {
      if at == null then [] else at[..size]
    }

    /** A declared, not yet opened record. */
    constructor ()
      ensures at == null && size == 0 && binding == Unbound && Consistent()
    {
      at := null;
      size := 0;
      binding := Unbound;
    }

    /** open(at, size): records a caller-owned buffer and its count and
        returns the buffer. */
    method Open(buf: array?<T>, n: SizeT) returns (r: array?<T>)
      requires buf != null ==> n <= buf.Length
      modifies this
      ensures at == buf && size == n && r == buf && binding == External
      ensures buf != null ==> Consistent() && Elements() == buf[..n]
    {
      at := buf;
      size := n;
      binding := External;
      r := at;
    }

    /** openHeap(size): allocates n elements; the count is n when malloc
        succeeds and 0 when it returns NULL. */
    method OpenHeap(n: SizeT, ok: bool) returns (r: array?<T>)
      modifies this
      ensures r == at && binding == Heap && Consistent()
      ensures ok ==> at != null && fresh(at) && at.Length == n && size == n
      ensures !ok ==> at == null && size == 0
    {
      at := Malloc<T>(n, ok);
      size := if at != null then n else 0;
      binding := Heap;
      r := at;
    }

    /** close(): frees the buffer and returns NULL; `at` and `size` keep their
        values, the buffer is simply no longer usable. */
    method Close() returns (r: array?<T>)
      requires binding == Heap
      modifies this`binding
      ensures r == null && binding == Unbound
    {
      binding := Unbound;
      r := null;
    }

    /** resize(size): reallocates to n elements keeping the first min(old, n)
        elements; on failure `at` becomes NULL and the count 0. */
    method Resize(n: SizeT, ok: bool) returns (r: array?<T>)
      requires binding == Heap && Consistent()
      modifies this
      ensures r == at && binding == Heap && Consistent()
      ensures ok ==> at != null && fresh(at) && at.Length == n && size == n
      ensures ok ==> Elements()[..Min(old(size), n)] == old(Elements())[..Min(old(size), n)]
      ensures !ok ==> at == null && size == 0
    {
      var a := Realloc(at, n, ok);
      at := a;
      size := if at != null then n else 0;
      r := at;
    }
  }
}
