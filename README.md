# Index-addressed arrays with a size_t cursor protocol

This project models, in Dafny, a C macro library of generic arrays. An array
instance is a buffer pointer `at` and an element count `space`. It can be
bound to a caller's buffer (`open`) or to heap memory (`openHeap`, `reopen`,
`close`). Positions are `size_t` values walked by a cursor protocol:

- a forward walk runs `begin`, `next`, ... until it equals `end`;
- a backward walk runs `beginBack`, `prev`, ... until it equals
  `endBack`, which is `(size_t)-1`.

On this protocol the complete container (`coll/earray.h`) builds indexed
access and bulk operations:

- `count` and `countBack`;
- `getMany` and `setMany`, with backward variants;
- `fill`;
- four in-array copies;
- `find` and `findMany`, with backward variants.

`src/coll/oarray.h` is an earlier version. It has only `fill`, `find` and
`findBack`, and these run to the end of the array, not to a stop position.
`src/ospace.h` and `src/oarray.h` are two small storage records (pointer
and count). Their one visible difference is what happens when allocation
fails: `ospace` zeroes the count, `oarray` keeps the requested count.

Layout:

- `size_t.dfy` (`SizeT`): `size_t` as the integers below 2^64. `Wrap` makes
  the C wrap-around explicit.
- `cursor.dfy` (`Cursor`): the cursor primitives as functions of the
  element count. Both container files define them with identical bodies
  (`coll/earray.h:113-185` and `src/coll/oarray.h:113-185`). The module also
  defines step counts (`Dist`, `DistBack`) and the walk lemmas.
- `spans.dfy` (`Spans`): the positions a walk visits as plain integers
  (`Pos`, `SpanIn`, `InSpan`), used by both the cursor lemmas and the
  sequence functions.
- `ranges.dfy` (`Ranges`): what the bulk operations do to the element
  sequence, as functions on `seq`:
  - `Walk`: a read walk;
  - `Write`: a write walk;
  - `CopyRun`: a sequential copy;
  - `FirstMatch` and `Matches`: search.

  The module also holds their lemmas.
- `allocator.dfy` (`Allocator`): `malloc` and `realloc`, with success or
  failure passed in as a parameter.
- `earray.dfy` (`EArrays.EArray`): the `coll/earray.h` container, as a
  class. Its binding methods assign the fields, and its bulk operations are
  loops with invariants, proved against the `Cursor` and `Ranges` functions.
- `oarray.dfy` (`OArrays.OArray`): the `src/coll/oarray.h` container.
- `ospace.dfy` (`OSpaces.OSpace`) and `oarray_store.dfy`
  (`OArrayStores.OArrayStore`): the two storage records.

The `copyDown` example follows the code. On `[10, 20, 30, 40, 50]`,
`copyDown(0, 3, 4)` stores source `i + k` at `di - k`: 10 goes to slot 4,
20 to slot 3, and 30 to slot 2 (over itself). The result is
`[10, 20, 30, 20, 10]` and the call returns 3.

## Model

| member | source | states |
|---|---|---|
| Cursor.Next | coll/earray.h:173-175 | next(i) is i + 1, and the largest size_t wraps round to 0 |
| Cursor.Prev | coll/earray.h:183-185 | prev(i) is i - 1, and 0 wraps round to SIZE_MAX |
| Cursor.EndBack | coll/earray.h:143-145 | endBack is the position before 0 (prev of 0), and next of it is 0 |
| Cursor.HasNext | coll/earray.h:153-155 | for a position at or before end, hasNext holds exactly when the position can be read (i < size) |
| Cursor.HasPrev | coll/earray.h:163-165 | hasPrev is false exactly at the position whose next is 0, the backward end |
| Cursor.Begin | coll/earray.h:113-115 | begin is readable exactly when the array is not empty |
| Cursor.End | coll/earray.h:123-125 | a forward walk from 0 reaches end after exactly size steps, and end cannot be read |
| Cursor.BeginBack | coll/earray.h:133-135 | beginBack is size - 1 for a non-empty array and the backward end for an empty one; a backward walk from it takes exactly size steps |
| Cursor.Dist | coll/earray.h:193-198 | the step count of a forward walk is ie - i, or ie - i + 2^64 when the walk wraps |
| Cursor.DistBack | coll/earray.h:206-211 | the step count of a backward walk is i - ie, wrapping when ie > i; towards SIZE_MAX it is i + 1 |
| Cursor.NextPrevInverse | coll/earray.h:173-185 | next and prev undo each other, at the sentinels too |
| Cursor.WalkMeetsEnd | coll/earray.h:193-198 | a forward walk from i meets ie for the first time after exactly Dist(i, ie) steps, so `i != ie` stops there |
| Cursor.BackWalkMeetsEnd | coll/earray.h:206-211 | a backward walk meets ie for the first time after exactly DistBack(i, ie) steps |
| Cursor.ForwardWalkVisitsAll | coll/earray.h:113-125 | the forward walk over the whole array visits 0 .. size - 1 in order, then reaches end |
| Cursor.BackwardWalkVisitsAll | coll/earray.h:133-145 | the backward walk visits size - 1 down to 0, then reaches endBack; over an empty array it visits nothing |
| Ranges.Walk | coll/earray.h:229-249 | the k-th element read by a walk is the element at its k-th position |
| Ranges.Write | coll/earray.h:267-287 | a write walk stores t[k] at its k-th position and leaves every slot outside the span unchanged |
| Ranges.WalkOfWrite | coll/earray.h:229-287 | reading back a span just written with setMany yields what was written |
| Ranges.WriteOfWalk | coll/earray.h:229-287 | writing back what getMany read leaves the array unchanged |
| Ranges.CopyRunFrame | coll/earray.h:308-352 | a copy changes no slot outside its destination span |
| Ranges.CopyRunMoves | coll/earray.h:308-352 | when no step overwrites a slot that a later step reads, each destination slot ends up holding the original value of its source slot |
| Ranges.DisjointNoClobber | coll/earray.h:308-352 | disjoint source and destination spans never clobber, in any direction |
| Ranges.ParallelCopyNoClobber | coll/earray.h:308-313 | a same-direction copy is clobber-free if and only if the destination starts behind the source or past the whole source span |
| Ranges.MirrorCopyNoClobber | coll/earray.h:321-339 | an opposite-direction copy is clobber-free if and only if the destination starts on the far side of the source or at least 2n - 2 slots away |
| Ranges.FirstMatchIsFirst | coll/earray.h:360-364 | the search result is SIZE_MAX exactly when no position of the walk holds v; otherwise it is a position of the walk holding v, with no earlier such position |
| Ranges.MatchesSpec | coll/earray.h:372-378 | the match list holds exactly the walk's positions that hold v, each once, strictly in walk order |
| Ranges.MatchesPrefix | coll/earray.h:372-378 | the matches of a shorter walk are a prefix of those of a longer one |
| Ranges.FirstMatchHeadsMatches | coll/earray.h:360-378 | find returns the first entry findMany would write, or SIZE_MAX when findMany writes none |
| Allocator.Malloc | coll/earray.h:48-50 | malloc gives a fresh buffer of n elements, or NULL on failure |
| Allocator.Realloc | coll/earray.h:58-61 | realloc gives a fresh buffer of n elements whose first min(old, n) elements are the old ones, or NULL on failure |
| EArrays.EArray.Open | coll/earray.h:35-40 | open stores the buffer and count as given and returns the buffer; the elements are the buffer's first n |
| EArrays.EArray.OpenHeap | coll/earray.h:48-50 | openHeap sets space to the requested count even on failure; on success the buffer is fresh and holds it |
| EArrays.EArray.Reopen | coll/earray.h:58-61 | reopen sets space to the new count; on success the first min(old, new) elements are kept |
| EArrays.EArray.Close | coll/earray.h:69-73 | close returns NULL and leaves at and space unchanged |
| EArrays.EArray.At | coll/earray.h:81-84 | at is the bound buffer, which holds all space elements |
| EArrays.EArray.Space | coll/earray.h:92-95 | space is the number of elements |
| EArrays.EArray.Size | coll/earray.h:103-105 | size equals space and is the length of the forward walk from begin to end |
| EArrays.EArray.Count | coll/earray.h:193-198 | count returns the step count from i to ie (ie - i when i <= ie) and changes nothing |
| EArrays.EArray.CountBack | coll/earray.h:206-211 | countBack returns i - ie when ie <= i, and i + 1 towards endBack |
| EArrays.EArray.Get | coll/earray.h:219-221 | get returns the i-th element |
| EArrays.EArray.Set | coll/earray.h:257-259 | set stores v at i, returns v, a following get(i) returns v, and no other slot changes |
| EArrays.EArray.GetMany | coll/earray.h:229-235 | getMany returns n = min(ds, ie - i), d[..n] holds the elements of the forward walk in order, and the rest of d is unchanged |
| EArrays.EArray.GetBackMany | coll/earray.h:243-249 | getBackMany returns n = min(ds, backward length), d[..n] holds the elements of the backward walk, and the rest of d is unchanged |
| EArrays.EArray.SetMany | coll/earray.h:267-273 | setMany returns n = min(ds, ie - i), stores d[k] at i + k for k < n, and changes nothing else |
| EArrays.EArray.SetBackMany | coll/earray.h:281-287 | setBackMany returns n = min(ds, backward length), stores d[k] at i - k, and changes nothing else |
| EArrays.EArray.Fill | coll/earray.h:295-300 | fill stores v in every slot of [i, ie), changes nothing else, and returns ie - i |
| EArrays.EArray.Copy | coll/earray.h:308-313 | copy returns the source length and leaves the array as the sequential copy i + k to di + k does |
| EArrays.EArray.CopyDown | coll/earray.h:321-326 | copyDown returns the source length and leaves the array as the sequential copy i + k to di - k does |
| EArrays.EArray.CopyBack | coll/earray.h:334-339 | copyBack returns the source length and leaves the array as the sequential copy i - k to di + k does |
| EArrays.EArray.CopyBackDown | coll/earray.h:347-352 | copyBackDown returns the source length and leaves the array as the sequential copy i - k to di - k does |
| EArrays.CopyMoves | coll/earray.h:308-313 | copy puts the original i + k at di + k when di <= i (overlap allowed) or the ranges are disjoint |
| EArrays.CopyDownMoves | coll/earray.h:321-326 | copyDown puts the original i + k at di - k when di <= i or di >= i + 2n - 2 |
| EArrays.CopyBackMoves | coll/earray.h:334-339 | copyBack puts the original i - k at di + k when i <= di or i >= di + 2n - 2 |
| EArrays.CopyBackDownMoves | coll/earray.h:347-352 | copyBackDown puts the original i - k at di - k when i <= di (overlap allowed) or the ranges are disjoint |
| EArrays.CopyDownScenario | coll/earray.h:321-326 | copyDown(0, 3, 4) on [10, 20, 30, 40, 50] returns 3 and leaves [10, 20, 30, 20, 10] |
| EArrays.CopyDownDemo | coll/earray.h:321-326 | opening a five-slot buffer holding [10, 20, 30, 40, 50] and calling copyDown(0, 3, 4) returns 3 and leaves the buffer [10, 20, 30, 20, 10] |
| EArrays.EArray.Find | coll/earray.h:360-364 | find returns the first position of [i, ie) holding v, or SIZE_MAX (also for i = ie) |
| EArrays.EArray.FindMany | coll/earray.h:372-378 | findMany returns n = min(ds, number of matches) and writes the first n matching positions to d in scan order; the rest of d is unchanged |
| EArrays.EArray.FindBack | coll/earray.h:386-390 | findBack returns the first position, scanning down from i, that holds v, or SIZE_MAX |
| EArrays.EArray.FindBackMany | coll/earray.h:398-404 | findBackMany writes the first min(ds, matches) matching positions of the backward walk to d in scan order and returns their number |
| OArrays.OArray.Open | src/coll/oarray.h:35-40 | open stores buffer and count as given and returns the buffer |
| OArrays.OArray.OpenHeap | src/coll/oarray.h:48-50 | openHeap sets space to the requested count, even when malloc fails |
| OArrays.OArray.Close | src/coll/oarray.h:69-73 | close returns NULL and leaves at and space unchanged |
| OArrays.OArray.At | src/coll/oarray.h:81-84 | at is the bound buffer, which holds all space elements |
| OArrays.OArray.Get | src/coll/oarray.h:193-195 | get returns the i-th element |
| OArrays.OArray.Set | src/coll/oarray.h:203-205 | set stores and returns v, get(i) reads it back, and no other slot changes |
| OArrays.OArray.Fill | src/coll/oarray.h:213-217 | fill stores v in every slot from i0 to the end of the array, ignores i1, changes nothing before i0, and returns v |
| OArrays.OArray.Find | src/coll/oarray.h:225-229 | find returns the smallest index >= i holding v, or SIZE_MAX |
| OArrays.OArray.FindBack | src/coll/oarray.h:237-241 | findBack returns the largest index <= i holding v, or SIZE_MAX; from the backward end it is always SIZE_MAX |
| OSpaces.OSpace.Open | src/ospace.h:35-41 | open stores at and size as given and returns at |
| OSpaces.OSpace.OpenHeap | src/ospace.h:49-55 | openHeap: on success size is the requested count; on failure at is NULL and size is 0; either way size > 0 implies at holds size elements |
| OSpaces.OSpace.Close | src/ospace.h:63-68 | close returns NULL and does not reassign at or size |
| OSpaces.OSpace.Resize | src/ospace.h:76-82 | resize: on success size is the new count and the first min(old, new) elements are kept; on failure at is NULL and size is 0; the count never exceeds the buffer |
| OArrayStores.OArrayStore.Open | src/oarray.h:35-41 | open stores at and size as given and returns at |
| OArrayStores.OArrayStore.OpenHeap | src/oarray.h:49-55 | openHeap sets size to the requested count even when malloc fails, so a failed request for n > 0 leaves a record claiming n elements behind NULL |
| OArrayStores.OArrayStore.Close | src/oarray.h:63-68 | close returns NULL and leaves at and size unchanged |
| OArrayStores.OArrayStore.Resize | src/oarray.h:76-82 | resize sets size to the new count whatever realloc returns; on success the first min(old, new) elements are kept; it also accepts the NULL buffer with a non-zero count that a failed openHeap or resize leaves, where realloc acts as malloc |

## Left out

- Printing and the demo program in `src/main.cpp`. `OArrays.DemoScenario` replays only its first steps: `open` of a 32-byte buffer as 8 ints, then `openHeap(64)`, writing and reading back the last slot each time. Its later `reopen` call goes to a body that does not compile (next lines).
- `reopen` of `src/coll/oarray.h` (lines 58-61) is not modelled. A misplaced parenthesis passes three arguments to `realloc`. The complete version is `EArrays.EArray.Reopen`.
- `space` of `src/coll/oarray.h` (lines 92-95) is not modelled, and neither is `size`, which calls it. `space` is declared to return `T*` although it returns the count, so the model reads the `space` field directly wherever the cursor primitives use it.
- Byte sizes are not modelled. Nothing computes `space * sizeof(T)`, so its overflow is out of scope.
- Pointer lifetimes are not modelled:
  - the old block that a failed `realloc` leaks;
  - the dangling `at` after `close`;
  - freeing a buffer bound with `open`.

  A ghost ownership record stands in for them: `close` and `reopen`/`resize` require a heap binding, and `close` marks the instance unusable.
- The list and stack layer (`coll/estack.h`, `src/coll/ostack.h`, `src/coll/olist.h`) is not part of this model. Its bodies are unfinished and refer to macros that are never defined.
- The macro generator (name pasting, `void*` casts) is not modelled. A Dafny type parameter replaces it.
- `findMany` and `findBackMany` store positions into a `T*` buffer. The model writes them to an array of positions.
- EArrays.EArray.GetMany, GetBackMany, SetMany and SetBackMany require the destination buffer to be a different array from the container's buffer. Aliasing between the two is not modelled.
- EArrays.EArray.FindMany and FindBackMany likewise require the destination to differ from the container's buffer.
- EArrays.EArray.Find, FindBack, FindMany and FindBackMany require every position from i to ie to lie inside the array. The C loops stop at the first match (or the ds-th), so a call whose range runs past the array but finds its match first is not covered.
- EArrays.EArray.Fill and the four copies require their source and destination spans to lie inside the array. A walk that would wrap past SIZE_MAX or leave the buffer is undefined behaviour in C and is left as a precondition.
- EArrays.EArray.Get and Set, and OArrays.OArray.Get and Set, require `i < space`. An out-of-range access is undefined behaviour in C.
- OArrays.OArray.Fill and Find require `i <= space`, and FindBack requires `i < space` or the backward end. A start beyond the array would run the loop over memory outside it.
- Allocator.Malloc: the contents of a fresh buffer are unspecified in C; the model leaves them arbitrary and states nothing about them.
