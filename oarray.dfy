/** The earlier container of src/coll/oarray.h: the same buffer-plus-space
    instance and the same cursor primitives as coll/earray.h, but only get, set,
    fill, find and findBack, and these run to the end of the array instead of
    to a stop position given by the caller. */
module OArrays {
  import opened SizeT
  import opened Cursor
  import opened Spans
  import opened Ranges
  import opened Allocator

  class OArray<T(0,==)> {
    var at: array?<T>
    var space: SizeT
    /** Ownership of `at`; the C code keeps no such record. */
    ghost var binding: Binding

    /** Bound to a buffer that holds all `space` elements. */
    ghost predicate Valid()
      reads this
    {
      binding != Unbound && at != null && space <= at.Length
    }

    /** The container's elements, positions 0 to space - 1. */
    ghost function Elements(): seq<T>
      reads this, at
      requires Valid()
    {
      at[..space]
    }

    /** A declared, not yet opened instance. */
    constructor ()
      ensures at == null && space == 0 && binding == Unbound
    {
      at := null;
      space := 0;
      binding := Unbound;
    }

    /** open(at, space): binds a caller-owned buffer of at least n elements. */
    method Open(buf: array?<T>, n: SizeT) returns (r: array?<T>)
      requires buf != null ==> n <= buf.Length
      modifies this
      ensures at == buf && space == n && r == buf && binding == External
      ensures buf != null ==> Valid() && Elements() == buf[..n]
    {
      at := buf;
      space := n;
      binding := External;
      r := at;
    }

    /** openHeap(space) = open(malloc(space * sizeof(T)), space): `space` is
        set to n even when malloc fails and `at` is NULL. */
    method OpenHeap(n: SizeT, ok: bool) returns (r: array?<T>)
      modifies this
      ensures space == n && r == at && binding == Heap
      ensures ok ==> at != null && fresh(at) && at.Length == n && Valid()
      ensures !ok ==> at == null
    {
      var a := Malloc<T>(n, ok);
      r := Open(a, n);
      binding := Heap;
    }

    /** close(): frees the heap buffer and returns NULL; `at` and `space` keep
        their values. */
    method Close() returns (r: array?<T>)
      requires binding == Heap
      modifies this`binding
      ensures r == null && binding == Unbound
    {
      binding := Unbound;
      r := null;
    }

    /** at(): the bound buffer; it holds the elements. */
    function At(): (r: array?<T>)
      reads this
      ensures Valid() ==> r != null && space <= r.Length
    {
      at
    }

    /** get(i): the element at position i. */
    function Get(i: SizeT): (r: T)
      reads this, at
      requires Valid() && i < space
      ensures r == Elements()[i]
    {
      at[i]
    }

    /** set(i, v): stores v at position i and returns it; nothing else changes. */
    method Set(i: SizeT, v: T) returns (r: T)
      requires Valid() && i < space
      modifies at
      ensures r == v && Get(i) == v
      ensures at[..] == old(at[..])[i := v]
    {
      at[i] := v;
      r := at[i];
    }

    /** fill(i0, i1, v): stores v at every position from i0 to the end of the
        array and returns v; the second position argument is never read. */
    method Fill(i0: SizeT, i1: SizeT, v: T) returns (r: T)
      requires Valid() && i0 <= space
      modifies at
      ensures r == v
      ensures at[..] == Write(old(at[..]), i0, Repeat(v, space - i0), true)
    {
      var j := i0;
      while HasNext(space, j)
        invariant i0 <= j <= space
        invariant at[..] == Write(old(at[..]), i0, Repeat(v, j - i0), true)
        decreases space - j
      {
        WriteSnoc(old(at[..]), i0, Repeat(v, j - i0), v, true);
        assert Repeat(v, j - i0 + 1) == Repeat(v, j - i0) + [v];
        var _ := Set(j, v);
        j := Next(j);
      }
      r := v;
    }

    /** find(i, v): the smallest position at or after i whose element equals
        v; SIZE_MAX when there is none. */
    method Find(i: SizeT, v: T) returns (r: SizeT)
      requires Valid() && i <= space
      ensures r == FirstMatch(Elements(), v, i, space - i, true)
    {
      var j := i;
      while HasNext(space, j)
        invariant i <= j <= space
        invariant FirstMatch(Elements(), v, i, space - i, true)
               == FirstMatch(Elements(), v, j, space - j, true)
        decreases space - j
      {
        if Get(j) == v {
          return j;
        }
        j := Next(j);
      }
      return EndBack();
    }

    /** findBack(i, v): the largest position at or before i whose element
        equals v; SIZE_MAX when there is none (always so from the backward end). */
    method FindBack(i: SizeT, v: T) returns (r: SizeT)
      requires Valid() && (i < space || i == EndBack())
      ensures r == FirstMatch(Elements(), v, i, DistBack(i, EndBack()), false)
    {
      ghost var len := DistBack(i, EndBack());
      var j := i;
      ghost var k := 0;
      while HasPrev(j)
        invariant k <= len && j == Bwd(i, k)
        invariant FirstMatch(Elements(), v, i, len, false)
               == FirstMatch(Elements(), v, Pos(i, k, false), len - k, false)
        decreases len - k
      {
        BackWalkMeetsEnd(i, EndBack(), k);
        BwdInSpan(i, len, space, k);
        BwdStep(i, k);
        if Get(j) == v {
          return j;
        }
        j := Prev(j);
        k := k + 1;
      }
      BackWalkMeetsEnd(i, EndBack(), k);
      return EndBack();
    }
  }

  /** The usage in src/main.cpp: a 32-byte buffer opened as 32 / sizeof(int)
      = 8 ints, then a heap buffer of 64; the last slot of each is written
      and read back. */
  method DemoScenario(heapOk: bool)
  {
    var o := new OArray<int>();
    var buffer := new int[8];
    var _ := o.Open(buffer, 32 / 4);
    assert o.space == 8;
    var _ := o.Set(o.space - 1, 0x0BAD_B055);
    assert o.Get(7) == 0x0BAD_B055;
    var _ := o.OpenHeap(64, heapOk);
    assert o.space == 64;
    if heapOk {
      var _ := o.Set(o.space - 1, 0x600D_B055);
      assert o.Get(63) == 0x600D_B055;
    }
    var _ := o.Close();
  }
}
