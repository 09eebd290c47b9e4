/** The index-cursor protocol shared by coll/earray.h and src/coll/oarray.h.
    A position is a `size_t`; the forward walk runs begin, next, next, ... until
    it equals end, the backward walk runs beginBack, prev, prev, ... until it
    equals endBack. Both files define the primitives with identical bodies over
    the container's element count, which is the `size` argument here. */
module Cursor {
  import opened SizeT
  import opened Spans

  /** next(i) = i + 1 in size_t: the last value wraps round to 0. */
  function Next(i: SizeT): (r: SizeT)
    ensures i < MAX ==> r == i + 1
    ensures i == MAX ==> r == 0
  {
    Wrap(i + 1)
  }

  /** prev(i) = i - 1 in size_t: 0 wraps round to SIZE_MAX. */
  function Prev(i: SizeT): (r: SizeT)
    ensures 0 < i ==> r == i - 1
    ensures i == 0 ==> r == MAX
  {
    Wrap(i - 1)
  }

  /** endBack() = (size_t)-1: the position just before the first one. */
  function EndBack(): (r: SizeT)
    ensures r == Prev(0) && Next(r) == 0
  {
    MAX
  }

  /** hasNext(i) = i != end(): for a position of the forward walk it says
      whether that position can be read. */
  function HasNext(size: SizeT, i: SizeT): (r: bool)
    ensures i <= size ==> (r <==> i < size)
  {
    i != End(size)
  }

  /** hasPrev(i) = i != endBack(): false exactly at the position that precedes
      position 0. */
  function HasPrev(i: SizeT): (r: bool)
    ensures !r <==> Next(i) == 0
  {
    i != EndBack()
  }

  /** begin() = 0: a readable position exactly when the array is not empty. */
  function Begin(): (r: SizeT)
    ensures forall size: SizeT :: HasNext(size, r) <==> 0 < size
  {
    0
  }

  /** end() = size(): a forward walk from begin reaches it after exactly
      `size` steps, and it cannot be read. */
  function End(size: SizeT): (r: SizeT)
    ensures Dist(0, r) == size
    ensures !(r < size)
  {
    size
  }

  /** beginBack() = size() - 1 in size_t: the last element, or, for an empty
      array, the backward end itself, so that a backward walk visits nothing. */
  function BeginBack(size: SizeT): (r: SizeT)
    ensures 0 < size ==> r == size - 1
    ensures size == 0 ==> r == EndBack()
    ensures DistBack(r, EndBack()) == size
  {
    Wrap(size - 1)
  }

  /** Number of `next` steps that lead from i to ie (the loop count of
      `for(; i != ie; i = next(i))`); when ie is below i the walk wraps round. */
  function Dist(i: SizeT, ie: SizeT): (n: SizeT)
    ensures i <= ie ==> n == ie - i
    ensures ie < i ==> n == ie - i + LIMIT
  {
    Wrap(ie - i)
  }

  /** Number of `prev` steps that lead from i to ie; towards the backward end
      (SIZE_MAX) this is i + 1. */
  function DistBack(i: SizeT, ie: SizeT): (n: SizeT)
    ensures ie <= i ==> n == i - ie
    ensures i < ie ==> n == i - ie + LIMIT
    ensures ie == MAX && i < MAX ==> n == i + 1
  {
    Wrap(i - ie)
  }

  /** The position reached from i after k `next` steps. */
  function Fwd(i: SizeT, k: nat): SizeT
  {
    Wrap(i + k)
  }

  /** The position reached from i after k `prev` steps. */
  function Bwd(i: SizeT, k: nat): SizeT
  {
    Wrap(i - k)
  }

  /** next and prev undo each other, the sentinels included. */
  lemma NextPrevInverse(i: SizeT)
    ensures Prev(Next(i)) == i && Next(Prev(i)) == i
  {
  }

  /** One more `next` step moves the walk one position further. */
  lemma FwdStep(i: SizeT, k: nat)
    requires k < LIMIT
    ensures Fwd(i, 0) == i && Next(Fwd(i, k)) == Fwd(i, k + 1)
  {
  }

  /** One more `prev` step moves the walk one position further back. */
  lemma BwdStep(i: SizeT, k: nat)
    requires k < LIMIT
    ensures Bwd(i, 0) == i && Prev(Bwd(i, k)) == Bwd(i, k + 1)
  {
  }

  /** A forward walk from i meets ie for the first time after Dist(i, ie)
      steps: the loop `i != ie` stops exactly there. */
  lemma WalkMeetsEnd(i: SizeT, ie: SizeT, k: nat)
    requires k <= Dist(i, ie)
    ensures Fwd(i, k) == ie <==> k == Dist(i, ie)
  {
  }

  /** A backward walk from i meets ie for the first time after
      DistBack(i, ie) steps. */
  lemma BackWalkMeetsEnd(i: SizeT, ie: SizeT, k: nat)
    requires k <= DistBack(i, ie)
    ensures Bwd(i, k) == ie <==> k == DistBack(i, ie)
  {
  }

  /** Inside a valid span the walk does not wrap: the k-th position is i + k. */
  lemma FwdInSpan(i: SizeT, n: nat, size: SizeT, k: nat)
    requires SpanIn(i, n, true, size) && k < n
    ensures Fwd(i, k) == i + k < size
  {
  }

  /** Inside a valid span the backward walk does not wrap: the k-th position is i - k. */
  lemma BwdInSpan(i: SizeT, n: nat, size: SizeT, k: nat)
    requires SpanIn(i, n, false, size) && k < n
    ensures Bwd(i, k) == i - k && 0 <= i - k < size
  {
  }

  /** The forward walk over a whole array visits 0, 1, ..., size - 1 and then
      reaches end. */
  lemma ForwardWalkVisitsAll(size: SizeT)
    ensures Dist(Begin(), End(size)) == size && SpanIn(Begin(), size, true, size)
    ensures forall k :: 0 <= k < size ==> Fwd(Begin(), k) == k
  {
  }

  /** The backward walk over a whole array visits size - 1, ..., 0 and then
      reaches endBack; for an empty array it visits nothing. */
  lemma BackwardWalkVisitsAll(size: SizeT)
    ensures DistBack(BeginBack(size), EndBack()) == size
    ensures SpanIn(BeginBack(size), size, false, size)
    ensures forall k :: 0 <= k < size ==> Bwd(BeginBack(size), k) == size - 1 - k
  {
  }
}
