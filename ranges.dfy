/** What the bulk operations of the containers do to the element sequence,
    stated on `seq` values over the walks of module Spans. */
module Ranges {
  import opened SizeT
  import opened Spans

  function Reversed<T>(t: seq<T>): (r: seq<T>)
    ensures |r| == |t| && forall q :: 0 <= q < |t| ==> r[q] == t[|t| - 1 - q]
  {
    seq(|t|, q requires 0 <= q < |t| => t[|t| - 1 - q])
  }

  function Repeat<T>(v: T, n: nat): (r: seq<T>)
    ensures |r| == n && forall q :: 0 <= q < n ==> r[q] == v
  {
    seq(n, _ => v)
  }

  /** The elements a walk from p reads, in walk order. */
  function Walk<T>(s: seq<T>, p: int, n: nat, up: bool): (r: seq<T>)
    requires SpanIn(p, n, up, |s|)
    ensures |r| == n && forall k :: 0 <= k < n ==> r[k] == s[Pos(p, k, up)]
  {
    seq(n, k requires 0 <= k < n => s[Pos(p, k, up)])
  }

  /** s after the walk from p has stored t[k] at its k-th position. */
  function Write<T>(s: seq<T>, p: int, t: seq<T>, up: bool): (r: seq<T>)
    requires SpanIn(p, |t|, up, |s|)
    ensures |r| == |s|
    ensures forall k :: 0 <= k < |t| ==> r[Pos(p, k, up)] == t[k]
    ensures forall x :: 0 <= x < |s| && !InSpan(x, p, |t|, up) ==> r[x] == s[x]
  {
    if |t| == 0 then s
    else if up then s[..p] + t + s[p + |t|..]
    else s[..p + 1 - |t|] + Reversed(t) + s[p + 1..]
  }

  /** Storing one more element extends the walk by one position. */
  lemma WriteSnoc<T>(s: seq<T>, p: int, t: seq<T>, x: T, up: bool)
    requires SpanIn(p, |t| + 1, up, |s|)
    ensures Write(s, p, t + [x], up) == Write(s, p, t, up)[Pos(p, |t|, up) := x]
  {
    var a, b := Write(s, p, t + [x], up), Write(s, p, t, up)[Pos(p, |t|, up) := x];
    forall y | 0 <= y < |s|
      ensures a[y] == b[y]
    {
      if InSpan(y, p, |t|, up) {
        var k := if up then y - p else p - y;
        assert Pos(p, k, up) == y && (t + [x])[k] == t[k];
      }
    }
  }

  /** Reading back a span just written yields what was written. */
  lemma WalkOfWrite<T>(s: seq<T>, p: int, t: seq<T>, up: bool)
    requires SpanIn(p, |t|, up, |s|)
    ensures Walk(Write(s, p, t, up), p, |t|, up) == t
  {
  }

  /** Writing back what a walk read leaves the sequence as it was. */
  lemma WriteOfWalk<T>(s: seq<T>, p: int, n: nat, up: bool)
    requires SpanIn(p, n, up, |s|)
    ensures Write(s, p, Walk(s, p, n, up), up) == s
  {
    var r := Write(s, p, Walk(s, p, n, up), up);
    forall x | 0 <= x < |s|
      ensures r[x] == s[x]
    {
      if InSpan(x, p, n, up) {
        var k := if up then x - p else p - x;
        assert Pos(p, k, up) == x;
      }
    }
  }

  /** The state of s after the first n steps of `for(...) set(di, get(i))`
      where i walks from i0 in direction srcUp and di from d0 in direction
      dstUp. Each step reads the CURRENT value, so overlapping ranges see
      values written by earlier steps. */
  function CopyRun<T>(s: seq<T>, i0: int, d0: int, n: nat, srcUp: bool, dstUp: bool): (r: seq<T>)
    requires SpanIn(i0, n, srcUp, |s|) && SpanIn(d0, n, dstUp, |s|)
    ensures |r| == |s|
    decreases n
  {
    if n == 0 then s
    else
      var r' := CopyRun(s, i0, d0, n - 1, srcUp, dstUp);
      r'[Pos(d0, n - 1, dstUp) := r'[Pos(i0, n - 1, srcUp)]]
  }

  /** No step writes a slot that a later step still has to read. */
  ghost predicate NoClobber(i0: int, d0: int, n: nat, srcUp: bool, dstUp: bool)
  {
    forall j, k :: 0 <= j < k < n ==> Pos(d0, j, dstUp) != Pos(i0, k, srcUp)
  }

  /** The source and destination spans share no slot. */
  ghost predicate Disjoint(i0: int, d0: int, n: nat, srcUp: bool, dstUp: bool)
  {
    forall x :: !(InSpan(x, i0, n, srcUp) && InSpan(x, d0, n, dstUp))
  }

  /** A copy changes only the destination span. */
  lemma {:induction false} CopyRunFrame<T>(s: seq<T>, i0: int, d0: int, n: nat, srcUp: bool, dstUp: bool, x: int)
    requires SpanIn(i0, n, srcUp, |s|) && SpanIn(d0, n, dstUp, |s|)
    requires 0 <= x < |s| && !InSpan(x, d0, n, dstUp)
    ensures CopyRun(s, i0, d0, n, srcUp, dstUp)[x] == s[x]
    decreases n
  {
    if n > 0 {
      CopyRunFrame(s, i0, d0, n - 1, srcUp, dstUp, x);
    }
  }

  /** When no slot is overwritten before it is read, the k-th destination
      slot ends up holding the ORIGINAL value of the k-th source slot. */
  lemma {:induction false} CopyRunMoves<T>(s: seq<T>, i0: int, d0: int, n: nat, srcUp: bool, dstUp: bool)
    requires SpanIn(i0, n, srcUp, |s|) && SpanIn(d0, n, dstUp, |s|)
    requires NoClobber(i0, d0, n, srcUp, dstUp)
    ensures forall k :: 0 <= k < n ==>
      CopyRun(s, i0, d0, n, srcUp, dstUp)[Pos(d0, k, dstUp)] == s[Pos(i0, k, srcUp)]
    decreases n
  {
    if n > 0 {
      var m := n - 1;
      assert NoClobber(i0, d0, m, srcUp, dstUp);
      CopyRunMoves(s, i0, d0, m, srcUp, dstUp);
      var src := Pos(i0, m, srcUp);
      var j := if dstUp then src - d0 else d0 - src;
      assert Pos(d0, j, dstUp) == src;
      assert InSpan(src, d0, m, dstUp) <==> 0 <= j < m;
      CopyRunFrame(s, i0, d0, m, srcUp, dstUp, src);
    }
  }

  /** Disjoint spans never clobber, whatever the directions. */
  lemma DisjointNoClobber(i0: int, d0: int, n: nat, srcUp: bool, dstUp: bool)
    requires Disjoint(i0, d0, n, srcUp, dstUp)
    ensures NoClobber(i0, d0, n, srcUp, dstUp)
  {
    forall j, k | 0 <= j < k < n
      ensures Pos(d0, j, dstUp) != Pos(i0, k, srcUp)
    {
      var x := Pos(i0, k, srcUp);
      assert InSpan(x, i0, n, srcUp);
      assert !InSpan(x, d0, n, dstUp);
    }
  }

  /** A copy whose source and destination walk in the same direction is free
      of clobbering exactly when the destination starts behind the source
      start (in walk order) or at least n slots ahead of it, past the whole
      source span; for any gap in between the first step already writes a
      slot a later step reads. */
  lemma ParallelCopyNoClobber(i0: int, d0: int, n: nat, up: bool)
    ensures var gap := if up then d0 - i0 else i0 - d0;
      NoClobber(i0, d0, n, up, up) <==> gap <= 0 || n <= gap
  {
    var gap := if up then d0 - i0 else i0 - d0;
    if 0 < gap < n {
      assert Pos(d0, 0, up) == Pos(i0, gap, up);
    }
  }

  /** A copy whose source and destination walk in opposite directions is free
      of clobbering exactly when the destination starts on the far side of
      the source start, or at least 2n - 2 slots away on the near side; for
      any gap in between some step writes a slot a later step still reads. */
  lemma MirrorCopyNoClobber(i0: int, d0: int, n: nat, srcUp: bool)
    ensures var gap := if srcUp then d0 - i0 else i0 - d0;
      NoClobber(i0, d0, n, srcUp, !srcUp) <==> gap <= 0 || 2 * n - 2 <= gap
  {
    var gap := if srcUp then d0 - i0 else i0 - d0;
    if 0 < gap < 2 * n - 2 {
      var j := (gap - 1) / 2;
      var k := gap - j;
      assert 0 <= j < k < n && Pos(d0, j, !srcUp) == Pos(i0, k, srcUp);
    }
  }

  /** The first position of the walk whose element equals v, or SIZE_MAX. */
  function FirstMatch<T(==)>(s: seq<T>, v: T, p: int, n: nat, up: bool): int
    requires SpanIn(p, n, up, |s|)
    decreases n
  {
    if n == 0 then MAX
    else if s[p] == v then p
    else FirstMatch(s, v, Pos(p, 1, up), n - 1, up)
  }

  /** FirstMatch is SIZE_MAX exactly when no position of the walk holds v;
      otherwise it is a position of the walk holding v, and no earlier
      position of the walk holds v. */
  lemma {:induction false} FirstMatchIsFirst<T>(s: seq<T>, v: T, p: int, n: nat, up: bool)
    requires SpanIn(p, n, up, |s|) && |s| <= MAX
    ensures var r := FirstMatch(s, v, p, n, up);
      && (r == MAX <==> forall x :: InSpan(x, p, n, up) ==> s[x] != v)
      && (r != MAX ==> InSpan(r, p, n, up) && s[r] == v)
      && (r != MAX ==> forall x :: InSpan(x, p, n, up) && ScanBefore(x, r, up) ==> s[x] != v)
    decreases n
  {
    if n > 0 && s[p] != v {
      FirstMatchIsFirst(s, v, Pos(p, 1, up), n - 1, up);
    }
  }

  /** The positions of the walk whose element equals v, in walk order. */
  function Matches<T(==)>(s: seq<T>, v: T, p: int, n: nat, up: bool): seq<int>
    requires SpanIn(p, n, up, |s|)
    decreases n
  {
    if n == 0 then []
    else
      var x := Pos(p, n - 1, up);
      Matches(s, v, p, n - 1, up) + (if s[x] == v then [x] else [])
  }

  /** Matches lists exactly the positions of the walk that hold v, each
      once, strictly in walk order. */
  lemma {:induction false} MatchesSpec<T>(s: seq<T>, v: T, p: int, n: nat, up: bool)
    requires SpanIn(p, n, up, |s|)
    ensures var m := Matches(s, v, p, n, up);
      && (forall x :: x in m <==> InSpan(x, p, n, up) && s[x] == v)
      && (forall a, b :: 0 <= a < b < |m| ==> ScanBefore(m[a], m[b], up))
    decreases n
  {
    if n > 0 {
      MatchesSpec(s, v, p, n - 1, up);
      var m' := Matches(s, v, p, n - 1, up);
      assert forall a :: 0 <= a < |m'| ==> ScanBefore(m'[a], Pos(p, n - 1, up), up) by {
        forall a | 0 <= a < |m'|
          ensures ScanBefore(m'[a], Pos(p, n - 1, up), up)
        {
          assert m'[a] in m';
        }
      }
    }
  }

  /** A shorter walk's matches are a prefix of a longer walk's. */
  lemma {:induction false} MatchesPrefix<T>(s: seq<T>, v: T, p: int, k: nat, n: nat, up: bool)
    requires k <= n && SpanIn(p, n, up, |s|)
    ensures SpanIn(p, k, up, |s|)
    ensures var mk, mn := Matches(s, v, p, k, up), Matches(s, v, p, n, up);
      |mk| <= |mn| && mk == mn[..|mk|]
    decreases n - k
  {
    if k < n {
      MatchesPrefix(s, v, p, k, n - 1, up);
    }
  }

  /** find and findMany agree: the single match is the head of the list of
      all matches, and SIZE_MAX when that list is empty. */
  lemma FirstMatchHeadsMatches<T>(s: seq<T>, v: T, p: int, n: nat, up: bool)
    requires SpanIn(p, n, up, |s|) && |s| <= MAX
    ensures var m := Matches(s, v, p, n, up);
      FirstMatch(s, v, p, n, up) == if m == [] then MAX else m[0]
  {
    var m, r := Matches(s, v, p, n, up), FirstMatch(s, v, p, n, up);
    MatchesSpec(s, v, p, n, up);
    FirstMatchIsFirst(s, v, p, n, up);
    if m != [] {
      assert m[0] in m;
      assert r in m;
    }
  }
}
