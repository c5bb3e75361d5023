/** JavaScript arrays as objects held by reference.  Assigning an array shares it;
    `slice(0)` and `concat` allocate a new one; `push` and `shift` change it in place. */
module JsArrays {
  import opened Js

  /** A reference to an array object. */
  type Ref = nat

  /** Every array allocated so far, and the next reference not yet handed out. */
  datatype Heap<T> = Heap(arrays: map<Ref, seq<T>>, next: Ref)

  /** No allocated array uses a reference at or beyond `next`. */
  predicate Valid<T>(h: Heap<T>) {
    forall r :: r in h.arrays ==> r < h.next
  }

  /** `b` still holds every array of `a`, with the same contents. */
  ghost predicate Keeps<T>(a: Heap<T>, b: Heap<T>) {
    forall r :: r in a.arrays ==> r in b.arrays && b.arrays[r] == a.arrays[r]
  }

  /** `b` still holds every array of `a`, each possibly lengthened at its end. */
  ghost predicate Grows<T>(a: Heap<T>, b: Heap<T>) {
    forall r :: r in a.arrays ==> r in b.arrays && a.arrays[r] <= b.arrays[r]
  }

  /** A new array with the given contents (an array literal, `slice(0)`, `concat`). */
  function Alloc<T>(h: Heap<T>, contents: seq<T>): (res: (Ref, Heap<T>))
    requires Valid(h)
    ensures res.0 !in h.arrays
    ensures Valid(res.1) && Keeps(h, res.1)
    ensures res.0 in res.1.arrays && res.1.arrays[res.0] == contents
    ensures res.1.arrays.Keys == h.arrays.Keys + {res.0}
  {
    (h.next, Heap(h.arrays[h.next := contents], h.next + 1))
  }

  /** Replaces the contents of an existing array in place. */
  function Write<T>(h: Heap<T>, r: Ref, contents: seq<T>): (h': Heap<T>)
    requires r in h.arrays
    ensures Valid(h) ==> Valid(h')
    ensures h'.arrays.Keys == h.arrays.Keys
    ensures h'.arrays[r] == contents
    ensures forall q :: q in h.arrays && q != r ==> h'.arrays[q] == h.arrays[q]
  {
    h.(arrays := h.arrays[r := contents])
  }

  /** `array.push(x)`. */
  function Push<T>(h: Heap<T>, r: Ref, x: T): (h': Heap<T>)
    requires r in h.arrays
    ensures Valid(h) ==> Valid(h')
    ensures Grows(h, h') && h'.arrays.Keys == h.arrays.Keys
    ensures h'.arrays[r] == h.arrays[r] + [x]
    ensures forall q :: q in h.arrays && q != r ==> h'.arrays[q] == h.arrays[q]
  {
    Write(h, r, h.arrays[r] + [x])
  }

  /** `array.shift()`: removes and returns the first element, or `undefined` when empty. */
  function Shift<T>(h: Heap<T>, r: Ref): (res: (Option<T>, Heap<T>))
    requires r in h.arrays
    ensures Valid(h) ==> Valid(res.1)
    ensures res.1.arrays.Keys == h.arrays.Keys
    ensures forall q :: q in h.arrays && q != r ==> res.1.arrays[q] == h.arrays[q]
    ensures h.arrays[r] == [] ==> res.0 == None && res.1 == h
    ensures h.arrays[r] != [] ==>
              res.0 == Some(h.arrays[r][0]) && [h.arrays[r][0]] + res.1.arrays[r] == h.arrays[r]
  {
    if |h.arrays[r]| == 0 then (None, h)
    else (Some(h.arrays[r][0]), Write(h, r, h.arrays[r][1..]))
  }
}
