/** The full container of coll/earray.h: a buffer `at` holding `space`
    elements (its size is its space), the storage binding operations, indexed
    access, and the bulk operations, each a loop over the cursor protocol of
    module Cursor. */
module EArrays {
  import opened SizeT
  import opened Cursor
  import opened Spans
  import opened Ranges
  import opened Allocator

  class EArray<T(0,==)> {
    var at: array?<T>
    var space: SizeT
    /** Ownership of `at`; the C code keeps no such record. */
    ghost var binding: Binding

    /** Bound to a buffer that holds all `space` elements. */
    ghost predicate Valid()
      reads this
    {
      binding != Unbound && at != null && space <= at.Length
    }

    /** A heap binding whose buffer, if any, has exactly `space` elements:
        what reopen and close may be applied to. */
    ghost predicate HeapBound()
      reads this
    {
      binding == Heap && (at != null ==> at.Length == space)
    }

    /** The container's elements, positions 0 to space - 1. */
    ghost function Elements(): seq<T>
      reads this, at
      requires Valid()
    {
      at[..space]
    }

    /** A declared, not yet opened instance. */
    constructor ()
      ensures at == null && space == 0 && binding == Unbound
    {
      at := null;
      space := 0;
      binding := Unbound;
    }

    /** open(at, space): binds a caller-owned buffer of at least n elements. */
    method Open(buf: array?<T>, n: SizeT) returns (r: array?<T>)
      requires buf != null ==> n <= buf.Length
      modifies this
      ensures at == buf && space == n && r == buf && binding == External
      ensures buf != null ==> Valid() && Elements() == buf[..n]
    {
      at := buf;
      space := n;
      binding := External;
      r := at;
    }

    /** openHeap(space) = open(malloc(space * sizeof(T)), space): `space` is
        set to n even when malloc fails and `at` is NULL. */
    method OpenHeap(n: SizeT, ok: bool) returns (r: array?<T>)
      modifies this
      ensures space == n && r == at && HeapBound()
      ensures ok ==> at != null && fresh(at) && Valid()
      ensures !ok ==> at == null
    {
      var a := Malloc<T>(n, ok);
      r := Open(a, n);
      binding := Heap;
    }

    /** reopen(space) = open(realloc(at, space * sizeof(T)), space): on success
        the first min(old space, n) elements are kept; on failure `at` is NULL
        and `space` is still set to n. */
    method Reopen(n: SizeT, ok: bool) returns (r: array?<T>)
      requires HeapBound()
      modifies this
      ensures space == n && r == at && HeapBound()
      ensures ok ==> at != null && fresh(at) && Valid()
      ensures ok && old(at) != null ==>
        Elements()[..Min(old(space), n)] == old(Elements()[..Min(space, n)])
      ensures !ok ==> at == null
    {
      var a := Realloc(at, n, ok);
      r := Open(a, n);
      binding := Heap;
    }

    /** close(): frees the heap buffer and returns NULL; `at` and `space` keep
        their values, the buffer is simply no longer usable. */
    method Close() returns (r: array?<T>)
      requires HeapBound()
      modifies this`binding
      ensures r == null && binding == Unbound
    {
      binding := Unbound;
      r := null;
    }

    /** at(): the bound buffer; it holds the elements. */
    function At(): (r: array?<T>)
      reads this
      ensures Valid() ==> r != null && space <= r.Length
    {
      at
    }

    /** space(): the element count. */
    function Space(): (r: SizeT)
      reads this, at
      ensures Valid() ==> r == |Elements()|
    {
      space
    }

    /** size() = space(): an earray is always full. */
    function Size(): (r: SizeT)
      reads this, at
      ensures r == Space() && Dist(Begin(), End(r)) == r
    {
      Space()
    }

    /** count(i, ie): how many `next` steps lead from i to ie. */
    method Count(i: SizeT, ie: SizeT) returns (n: SizeT)
      ensures n == Dist(i, ie)
      ensures i <= ie ==> n == ie - i
    {
      n := 0;
      var j := i;
      while j != ie
        invariant n <= Dist(i, ie) && j == Fwd(i, n)
        decreases Dist(i, ie) - n
      {
        WalkMeetsEnd(i, ie, n);
        FwdStep(i, n);
        j := Next(j);
        n := n + 1;
      }
      WalkMeetsEnd(i, ie, n);
    }

    /** countBack(i, ie): how many `prev` steps lead from i to ie; i + 1 when
        ie is the backward end. */
    method CountBack(i: SizeT, ie: SizeT) returns (n: SizeT)
      ensures n == DistBack(i, ie)
      ensures ie <= i ==> n == i - ie
      ensures ie == EndBack() && i < MAX ==> n == i + 1
    {
      n := 0;
      var j := i;
      while j != ie
        invariant n <= DistBack(i, ie) && j == Bwd(i, n)
        decreases DistBack(i, ie) - n
      {
        BackWalkMeetsEnd(i, ie, n);
        BwdStep(i, n);
        j := Prev(j);
        n := n + 1;
      }
      BackWalkMeetsEnd(i, ie, n);
    }

    /** get(i): the element at position i. */
    function Get(i: SizeT): (r: T)
      reads this, at
      requires Valid() && i < space
      ensures r == Elements()[i]
    {
      at[i]
    }

    /** set(i, v): stores v at position i and returns it; nothing else changes. */
    method Set(i: SizeT, v: T) returns (r: T)
      requires Valid() && i < space
      modifies at
      ensures r == v && Get(i) == v
      ensures at[..] == old(at[..])[i := v]
    {
      at[i] := v;
      r := at[i];
    }

    /** getMany(i, ie, d, ds): copies the elements of the forward range, at
        most ds of them, into d[0..n). */
    method GetMany(i: SizeT, ie: SizeT, d: array<T>, ds: SizeT) returns (n: SizeT)
      requires Valid() && ds <= d.Length && d != at
      requires SpanIn(i, Min(ds, Dist(i, ie)), true, space)
      modifies d
      ensures n == Min(ds, Dist(i, ie))
      ensures d[..n] == Walk(Elements(), i, n, true)
      ensures d[n..] == old(d[n..])
    {
      ghost var m := Min(ds, Dist(i, ie));
      n := 0;
      var j := i;
      while n < ds && j != ie
        invariant n <= m && j == Fwd(i, n)
        invariant d[..n] == Walk(Elements(), i, n, true)
        invariant forall q :: n <= q < d.Length ==> d[q] == old(d[q])
        decreases ds - n
      {
        WalkMeetsEnd(i, ie, n);
        FwdInSpan(i, m, space, n);
        FwdStep(i, n);
        d[n] := Get(j);
        n := n + 1;
        j := Next(j);
      }
      WalkMeetsEnd(i, ie, n);
    }

    /** getBackMany(i, ie, d, ds): the same over the backward range; d[k]
        receives the element at i - k. */
    method GetBackMany(i: SizeT, ie: SizeT, d: array<T>, ds: SizeT) returns (n: SizeT)
      requires Valid() && ds <= d.Length && d != at
      requires SpanIn(i, Min(ds, DistBack(i, ie)), false, space)
      modifies d
      ensures n == Min(ds, DistBack(i, ie))
      ensures d[..n] == Walk(Elements(), i, n, false)
      ensures d[n..] == old(d[n..])
    {
      ghost var m := Min(ds, DistBack(i, ie));
      n := 0;
      var j := i;
      while n < ds && j != ie
        invariant n <= m && j == Bwd(i, n)
        invariant d[..n] == Walk(Elements(), i, n, false)
        invariant forall q :: n <= q < d.Length ==> d[q] == old(d[q])
        decreases ds - n
      {
        BackWalkMeetsEnd(i, ie, n);
        BwdInSpan(i, m, space, n);
        BwdStep(i, n);
        d[n] := Get(j);
        n := n + 1;
        j := Prev(j);
      }
      BackWalkMeetsEnd(i, ie, n);
    }

    /** setMany(i, ie, d, ds): stores d[0..n) along the forward range, at most
        ds elements; nothing outside the n positions written changes. */
    method SetMany(i: SizeT, ie: SizeT, d: array<T>, ds: SizeT) returns (n: SizeT)
      requires Valid() && ds <= d.Length && d != at
      requires SpanIn(i, Min(ds, Dist(i, ie)), true, space)
      modifies at
      ensures n == Min(ds, Dist(i, ie))
      ensures at[..] == Write(old(at[..]), i, d[..n], true)
    {
      ghost var m := Min(ds, Dist(i, ie));
      n := 0;
      var j := i;
      while n < ds && j != ie
        invariant n <= m && j == Fwd(i, n)
        invariant at[..] == Write(old(at[..]), i, d[..n], true)
        decreases ds - n
      {
        WalkMeetsEnd(i, ie, n);
        FwdInSpan(i, m, space, n);
        FwdStep(i, n);
        WriteSnoc(old(at[..]), i, d[..n], d[n], true);
        assert d[..n + 1] == d[..n] + [d[n]];
        var _ := Set(j, d[n]);
        n := n + 1;
        j := Next(j);
      }
      WalkMeetsEnd(i, ie, n);
    }

    /** setBackMany(i, ie, d, ds): the same over the backward range; the
        element at i - k receives d[k]. */
    method SetBackMany(i: SizeT, ie: SizeT, d: array<T>, ds: SizeT) returns (n: SizeT)
      requires Valid() && ds <= d.Length && d != at
      requires SpanIn(i, Min(ds, DistBack(i, ie)), false, space)
      modifies at
      ensures n == Min(ds, DistBack(i, ie))
      ensures at[..] == Write(old(at[..]), i, d[..n], false)
    {
      ghost var m := Min(ds, DistBack(i, ie));
      n := 0;
      var j := i;
      while n < ds && j != ie
        invariant n <= m && j == Bwd(i, n)
        invariant at[..] == Write(old(at[..]), i, d[..n], false)
        decreases ds - n
      {
        BackWalkMeetsEnd(i, ie, n);
        BwdInSpan(i, m, space, n);
        BwdStep(i, n);
        WriteSnoc(old(at[..]), i, d[..n], d[n], false);
        assert d[..n + 1] == d[..n] + [d[n]];
        var _ := Set(j, d[n]);
        n := n + 1;
        j := Prev(j);
      }
      BackWalkMeetsEnd(i, ie, n);
    }

    /** fill(i, ie, v): stores v at every position of [i, ie) and returns how
        many that is; nothing else changes. */
    method Fill(i: SizeT, ie: SizeT, v: T) returns (n: SizeT)
      requires Valid() && SpanIn(i, Dist(i, ie), true, space)
      modifies at
      ensures n == Dist(i, ie)
      ensures at[..] == Write(old(at[..]), i, Repeat(v, n), true)
    {
      n := 0;
      var j := i;
      while j != ie
        invariant n <= Dist(i, ie) && j == Fwd(i, n)
        invariant at[..] == Write(old(at[..]), i, Repeat(v, n), true)
        decreases Dist(i, ie) - n
      {
        WalkMeetsEnd(i, ie, n);
        FwdInSpan(i, Dist(i, ie), space, n);
        FwdStep(i, n);
        WriteSnoc(old(at[..]), i, Repeat(v, n), v, true);
        assert Repeat(v, n + 1) == Repeat(v, n) + [v];
        var _ := Set(j, v);
        n := n + 1;
        j := Next(j);
      }
      WalkMeetsEnd(i, ie, n);
    }

    /** copy(i, ie, di): walks the source forward over [i, ie) and the
        destination forward from di, storing at each destination position the
        CURRENT element of the source position; returns the range length (the
        `n++` of its return statement has no effect). Overlap-safe when di <= i. */
    method Copy(i: SizeT, ie: SizeT, di: SizeT) returns (n: SizeT)
      requires Valid()
      requires SpanIn(i, Dist(i, ie), true, space) && SpanIn(di, Dist(i, ie), true, space)
      modifies at
      ensures n == Dist(i, ie)
      ensures at[..] == CopyRun(old(at[..]), i, di, n, true, true)
    {
      n := 0;
      var j, dj := i, di;
      while j != ie
        invariant n <= Dist(i, ie) && j == Fwd(i, n) && dj == Fwd(di, n)
        invariant at[..] == CopyRun(old(at[..]), i, di, n, true, true)
        decreases Dist(i, ie) - n
      {
        WalkMeetsEnd(i, ie, n);
        FwdInSpan(i, Dist(i, ie), space, n);
        FwdInSpan(di, Dist(i, ie), space, n);
        FwdStep(i, n);
        FwdStep(di, n);
        var _ := Set(dj, Get(j));
        n := n + 1;
        j := Next(j);
        dj := Next(dj);
      }
      WalkMeetsEnd(i, ie, n);
    }

    /** copyDown(i, ie, di): source forward over [i, ie), destination backward
        from di: source i + k goes to di - k. Returns the range length. */
    method CopyDown(i: SizeT, ie: SizeT, di: SizeT) returns (n: SizeT)
      requires Valid()
      requires SpanIn(i, Dist(i, ie), true, space) && SpanIn(di, Dist(i, ie), false, space)
      modifies at
      ensures n == Dist(i, ie)
      ensures at[..] == CopyRun(old(at[..]), i, di, n, true, false)
    {
      n := 0;
      var j, dj := i, di;
      while j != ie
        invariant n <= Dist(i, ie) && j == Fwd(i, n) && dj == Bwd(di, n)
        invariant at[..] == CopyRun(old(at[..]), i, di, n, true, false)
        decreases Dist(i, ie) - n
      {
        WalkMeetsEnd(i, ie, n);
        FwdInSpan(i, Dist(i, ie), space, n);
        BwdInSpan(di, Dist(i, ie), space, n);
        FwdStep(i, n);
        BwdStep(di, n);
        var _ := Set(dj, Get(j));
        n := n + 1;
        j := Next(j);
        dj := Prev(dj);
      }
      WalkMeetsEnd(i, ie, n);
    }

    /** copyBack(i, ie, di): source backward from i to ie, destination
        forward from di: source i - k goes to di + k. Returns the range length. */
    method CopyBack(i: SizeT, ie: SizeT, di: SizeT) returns (n: SizeT)
      requires Valid()
      requires SpanIn(i, DistBack(i, ie), false, space) && SpanIn(di, DistBack(i, ie), true, space)
      modifies at
      ensures n == DistBack(i, ie)
      ensures at[..] == CopyRun(old(at[..]), i, di, n, false, true)
    {
      n := 0;
      var j, dj := i, di;
      while j != ie
        invariant n <= DistBack(i, ie) && j == Bwd(i, n) && dj == Fwd(di, n)
        invariant at[..] == CopyRun(old(at[..]), i, di, n, false, true)
        decreases DistBack(i, ie) - n
      {
        BackWalkMeetsEnd(i, ie, n);
        BwdInSpan(i, DistBack(i, ie), space, n);
        FwdInSpan(di, DistBack(i, ie), space, n);
        BwdStep(i, n);
        FwdStep(di, n);
        var _ := Set(dj, Get(j));
        n := n + 1;
        j := Prev(j);
        dj := Next(dj);
      }
      BackWalkMeetsEnd(i, ie, n);
    }

    /** copyBackDown(i, ie, di): source backward from i to ie, destination
        backward from di: source i - k goes to di - k. Returns the range
        length. Overlap-safe when di >= i. */
    method CopyBackDown(i: SizeT, ie: SizeT, di: SizeT) returns (n: SizeT)
      requires Valid()
      requires SpanIn(i, DistBack(i, ie), false, space) && SpanIn(di, DistBack(i, ie), false, space)
      modifies at
      ensures n == DistBack(i, ie)
      ensures at[..] == CopyRun(old(at[..]), i, di, n, false, false)
    {
      n := 0;
      var j, dj := i, di;
      while j != ie
        invariant n <= DistBack(i, ie) && j == Bwd(i, n) && dj == Bwd(di, n)
        invariant at[..] == CopyRun(old(at[..]), i, di, n, false, false)
        decreases DistBack(i, ie) - n
      {
        BackWalkMeetsEnd(i, ie, n);
        BwdInSpan(i, DistBack(i, ie), space, n);
        BwdInSpan(di, DistBack(i, ie), space, n);
        BwdStep(i, n);
        BwdStep(di, n);
        var _ := Set(dj, Get(j));
        n := n + 1;
        j := Prev(j);
        dj := Prev(dj);
      }
      BackWalkMeetsEnd(i, ie, n);
    }

    /** find(i, ie, v): the first position of [i, ie), scanning forward,
        whose element equals v; SIZE_MAX when there is none. */
    method Find(i: SizeT, ie: SizeT, v: T) returns (r: SizeT)
      requires Valid() && SpanIn(i, Dist(i, ie), true, space)
      ensures r == FirstMatch(Elements(), v, i, Dist(i, ie), true)
    {
      ghost var len := Dist(i, ie);
      var j := i;
      ghost var k := 0;
      while j != ie
        invariant k <= len && j == Fwd(i, k)
        invariant FirstMatch(Elements(), v, i, len, true)
               == FirstMatch(Elements(), v, Pos(i, k, true), len - k, true)
        decreases len - k
      {
        WalkMeetsEnd(i, ie, k);
        FwdInSpan(i, len, space, k);
        FwdStep(i, k);
        if Get(j) == v {
          return j;
        }
        j := Next(j);
        k := k + 1;
      }
      WalkMeetsEnd(i, ie, k);
      return EndBack();
    }

    /** findMany(i, ie, v, d, ds): writes the positions of [i, ie) whose
        element equals v, in forward order, to d, stopping after ds of them;
        returns how many it wrote. */
    method FindMany(i: SizeT, ie: SizeT, v: T, d: array<SizeT>, ds: SizeT) returns (n: SizeT)
      requires Valid() && ds <= d.Length && at as object? != d
      requires SpanIn(i, Dist(i, ie), true, space)
      modifies d
      ensures var m := Matches(Elements(), v, i, Dist(i, ie), true);
        n == Min(ds, |m|) && d[..n] == m[..n]
      ensures d[n..] == old(d[n..])
    {
      ghost var len := Dist(i, ie);
      n := 0;
      var j := i;
      ghost var k := 0;
      while n < ds && j != ie
        invariant n <= k <= len && n <= ds && j == Fwd(i, k)
        invariant d[..n] == Matches(Elements(), v, i, k, true)
        invariant forall q :: n <= q < d.Length ==> d[q] == old(d[q])
        decreases len - k
      {
        WalkMeetsEnd(i, ie, k);
        FwdInSpan(i, len, space, k);
        FwdStep(i, k);
        assert Matches(Elements(), v, i, k + 1, true)
            == Matches(Elements(), v, i, k, true) + if Get(j) == v then [j] else [];
        ghost var found := d[..n];
        if Get(j) == v {
          d[n] := j;
          n := n + 1;
          assert d[..n] == found + [j];
        }
        j := Next(j);
        k := k + 1;
      }
      WalkMeetsEnd(i, ie, k);
      MatchesPrefix(Elements(), v, i, k, len, true);
    }

    /** findBack(i, ie, v): the first position, scanning backward from i to
        ie, whose element equals v; SIZE_MAX when there is none. */
    method FindBack(i: SizeT, ie: SizeT, v: T) returns (r: SizeT)
      requires Valid() && SpanIn(i, DistBack(i, ie), false, space)
      ensures r == FirstMatch(Elements(), v, i, DistBack(i, ie), false)
    {
      ghost var len := DistBack(i, ie);
      var j := i;
      ghost var k := 0;
      while j != ie
        invariant k <= len && j == Bwd(i, k)
        invariant FirstMatch(Elements(), v, i, len, false)
               == FirstMatch(Elements(), v, Pos(i, k, false), len - k, false)
        decreases len - k
      {
        BackWalkMeetsEnd(i, ie, k);
        BwdInSpan(i, len, space, k);
        BwdStep(i, k);
        if Get(j) == v {
          return j;
        }
        j := Prev(j);
        k := k + 1;
      }
      BackWalkMeetsEnd(i, ie, k);
      return EndBack();
    }

    /** findBackMany(i, ie, v, d, ds): the same scanning backward. */
    method FindBackMany(i: SizeT, ie: SizeT, v: T, d: array<SizeT>, ds: SizeT) returns (n: SizeT)
      requires Valid() && ds <= d.Length && at as object? != d
      requires SpanIn(i, DistBack(i, ie), false, space)
      modifies d
      ensures var m := Matches(Elements(), v, i, DistBack(i, ie), false);
        n == Min(ds, |m|) && d[..n] == m[..n]
      ensures d[n..] == old(d[n..])
    {
      ghost var len := DistBack(i, ie);
      n := 0;
      var j := i;
      ghost var k := 0;
      while n < ds && j != ie
        invariant n <= k <= len && n <= ds && j == Bwd(i, k)
        invariant d[..n] == Matches(Elements(), v, i, k, false)
        invariant forall q :: n <= q < d.Length ==> d[q] == old(d[q])
        decreases len - k
      {
        BackWalkMeetsEnd(i, ie, k);
        BwdInSpan(i, len, space, k);
        BwdStep(i, k);
        assert Matches(Elements(), v, i, k + 1, false)
            == Matches(Elements(), v, i, k, false) + if Get(j) == v then [j] else [];
        ghost var found := d[..n];
        if Get(j) == v {
          d[n] := j;
          n := n + 1;
          assert d[..n] == found + [j];
        }
        j := Prev(j);
        k := k + 1;
      }
      BackWalkMeetsEnd(i, ie, k);
      MatchesPrefix(Elements(), v, i, k, len, false);
    }
  }

  /** copy stores the original source i + k at di + k whenever the
      destination starts at or below the source (overlapping or not), or
      above the whole source range. */
  lemma CopyMoves<T>(s: seq<T>, i: nat, di: nat, n: nat)
    requires SpanIn(i, n, true, |s|) && SpanIn(di, n, true, |s|)
    requires di <= i || i + n <= di
    ensures var r := CopyRun(s, i, di, n, true, true);
      forall k :: 0 <= k < n ==> r[Pos(di, k, true)] == s[i + k]
  {
    ParallelCopyNoClobber(i, di, n, true);
    CopyRunMoves(s, i, di, n, true, true);
  }

  /** copyDown stores the original source i + k at di - k whenever the
      destination starts at or below the source, or at least 2n - 2 slots
      above it (disjoint ranges, and overlaps meeting only in the last slot). */
  lemma CopyDownMoves<T>(s: seq<T>, i: nat, di: nat, n: nat)
    requires SpanIn(i, n, true, |s|) && SpanIn(di, n, false, |s|)
    requires di <= i || i + 2 * n - 2 <= di
    ensures var r := CopyRun(s, i, di, n, true, false);
      forall k :: 0 <= k < n ==> r[Pos(di, k, false)] == s[i + k]
  {
    MirrorCopyNoClobber(i, di, n, true);
    CopyRunMoves(s, i, di, n, true, false);
  }

  /** copyBack stores the original source i - k at di + k whenever the
      destination starts at or above the source, or at least 2n - 2 slots
      below it. */
  lemma CopyBackMoves<T>(s: seq<T>, i: nat, di: nat, n: nat)
    requires SpanIn(i, n, false, |s|) && SpanIn(di, n, true, |s|)
    requires i <= di || di + 2 * n - 2 <= i
    ensures var r := CopyRun(s, i, di, n, false, true);
      forall k :: 0 <= k < n ==> r[Pos(di, k, true)] == s[i - k]
  {
    MirrorCopyNoClobber(i, di, n, false);
    CopyRunMoves(s, i, di, n, false, true);
  }

  /** copyBackDown stores the original source i - k at di - k whenever the
      destination starts at or above the source (overlapping or not), or
      below the whole source range. */
  lemma CopyBackDownMoves<T>(s: seq<T>, i: nat, di: nat, n: nat)
    requires SpanIn(i, n, false, |s|) && SpanIn(di, n, false, |s|)
    requires i <= di || di + n <= i
    ensures var r := CopyRun(s, i, di, n, false, false);
      forall k :: 0 <= k < n ==> r[Pos(di, k, false)] == s[i - k]
  {
    ParallelCopyNoClobber(i, di, n, false);
    CopyRunMoves(s, i, di, n, false, false);
  }

  /** The traced scenario: on [10, 20, 30, 40, 50], copyDown(0, 3, 4) stores
      10 at 4, then 20 at 3, then 30 at 2 (over itself), giving
      [10, 20, 30, 20, 10], and returns 3. */
  lemma CopyDownScenario()
    ensures Dist(0, 3) == 3
    ensures CopyRun([10, 20, 30, 40, 50], 0, 4, 3, true, false) == [10, 20, 30, 20, 10]
  {
    var s := [10, 20, 30, 40, 50];
    assert CopyRun(s, 0, 4, 1, true, false) == [10, 20, 30, 40, 10];
    assert CopyRun(s, 0, 4, 2, true, false) == [10, 20, 30, 20, 10];
  }

  /** The traced scenario run through the container: a five-slot buffer
      holding [10, 20, 30, 40, 50] is opened and copyDown(0, 3, 4) is called. */
  method CopyDownDemo() returns (n: SizeT, after: seq<int>)
    ensures n == 3 && after == [10, 20, 30, 20, 10]
  {
    var buf := new int[5];
    buf[0], buf[1], buf[2], buf[3], buf[4] := 10, 20, 30, 40, 50;
    assert buf[..] == [10, 20, 30, 40, 50];
    var a := new EArray<int>();
    var _ := a.Open(buf, 5);
    n := a.CopyDown(0, 3, 4);
    CopyDownScenario();
    after := buf[..];
  }
}
