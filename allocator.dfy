/** The C allocator as the containers use it, with success or failure passed
    in as `ok`: nothing in the containers decides whether memory is available.
    Byte-size arithmetic (`n * sizeof(T)`) and its overflow are not modelled. */
module Allocator {
  import opened SizeT

  /** Who may release an instance's buffer. `External`: a buffer the caller
      bound with open, which the container never frees. `Heap`: the result of
      malloc/realloc (possibly NULL), which reopen/resize and close may pass to
      realloc/free. `Unbound`: nothing usable (never opened, or closed). */
  datatype Binding = Unbound | External | Heap

  /** malloc(n * sizeof(T)): a fresh buffer of n elements, or NULL on failure.
      The contents of a fresh buffer are unspecified. */
  method Malloc<T(0)>(n: SizeT, ok: bool) returns (a: array?<T>)
    ensures ok ==> a != null && fresh(a) && a.Length == n
    ensures !ok ==> a == null
  {
    if ok {
      a := new T[n];
    } else {
      a := null;
    }
  }

  /** realloc(p, n * sizeof(T)) as section 7.22.3.5 of ISO C11 describes it:
      on success a buffer of n elements whose first min(old, n) elements are
      those of p (with p NULL it behaves as malloc); on failure NULL. */
  method Realloc<T(0)>(p: array?<T>, n: SizeT, ok: bool) returns (a: array?<T>)
    ensures ok ==> a != null && fresh(a) && a.Length == n
    ensures ok && p != null ==> a[..Min(p.Length, n)] == p[..Min(p.Length, n)]
    ensures !ok ==> a == null
  {
    if ok {
      a := new T[n];
      if p != null {
        var m := Min(p.Length, n);
        forall k | 0 <= k < m {
          a[k] := p[k];
        }
      }
    } else {
      a := null;
    }
  }
}
