/** The kernel's bump allocator over a fixed 1 MiB array. */
module Heap {
  import opened Common

  const HEAP_SIZE: nat := 1024 * 1024
  /** Largest `size_t` value on the 64-bit target. */
  const SIZE_MAX: nat := 0x1_0000_0000_0000_0000 - 1

  /** The allocator's only state: the offset of the first unused byte. */
  datatype Heap = Heap(index: nat)
  {
    predicate Valid() {
      index <= HEAP_SIZE
    }
  }

  const INIT: Heap := Heap(0)

  /**
   * `kmalloc`: the offset of a fresh block of `size` bytes, or nothing (NULL) when the
   * block would run past the end of the heap. The sum `index + size` must not wrap.
   */
  function Kmalloc(h: Heap, size: nat): (r: (Heap, Option<nat>))
    requires h.index + size <= SIZE_MAX
    ensures r.1.None? <==> h.index + size > HEAP_SIZE
    ensures r.1.None? ==> r.0 == h
    ensures r.1.Some? ==> r.1.value == h.index && r.0.index == h.index + size
    ensures h.Valid() ==> r.0.Valid()
  {
    if h.index + size > HEAP_SIZE then (h, None)
    else (Heap(h.index + size), Some(h.index))
  }

  /** A zero-byte request succeeds with the current offset and does not advance it. */
  lemma ZeroSizeKeepsIndex(h: Heap)
    requires h.Valid()
    ensures Kmalloc(h, 0) == (h, Some(h.index))
  {
  }

  /** Sizes a caller can pass without the bound check wrapping, whatever the heap state. */
  predicate NoWrap(sizes: seq<nat>) {
    forall i :: 0 <= i < |sizes| ==> sizes[i] <= SIZE_MAX - HEAP_SIZE
  }

  /** The offsets returned by a run of `kmalloc` calls, and the final state. */
  function Allocate(h: Heap, sizes: seq<nat>): (r: (Heap, seq<Option<nat>>))
    requires h.Valid() && NoWrap(sizes)
    ensures r.0.Valid() && h.index <= r.0.index && |r.1| == |sizes|
    decreases |sizes|
  {
    if |sizes| == 0 then (h, [])
    else
      var (h1, p) := Kmalloc(h, sizes[0]);
      var (h2, ps) := Allocate(h1, sizes[1..]);
      (h2, [p] + ps)
  }

  /**
   * Every block handed out lies inside the heap, after the starting offset and before
   * the final one; a later block starts at or after the end of every earlier one, so
   * no two blocks overlap.
   */
  lemma {:induction false} BlocksDisjoint(h: Heap, sizes: seq<nat>)
    requires h.Valid() && NoWrap(sizes)
    ensures var (final, offs) := Allocate(h, sizes);
      (forall i :: 0 <= i < |sizes| && offs[i].Some? ==>
         h.index <= offs[i].value && offs[i].value + sizes[i] <= final.index <= HEAP_SIZE) &&
      (forall i, j :: 0 <= i < j < |sizes| && offs[i].Some? && offs[j].Some? ==>
         offs[i].value + sizes[i] <= offs[j].value)
    decreases |sizes|
  {
    if |sizes| > 0 {
      var (h1, p) := Kmalloc(h, sizes[0]);
      var tail := sizes[1..];
      assert NoWrap(tail);
      BlocksDisjoint(h1, tail);
      var (final, offs) := Allocate(h, sizes);
      var (_, rest) := Allocate(h1, tail);
      assert offs == [p] + rest;
      forall i | 0 <= i < |sizes| && offs[i].Some?
        ensures h.index <= offs[i].value && offs[i].value + sizes[i] <= final.index
      {
        if i > 0 {
          assert offs[i] == rest[i - 1] && sizes[i] == tail[i - 1];
        }
      }
      forall i, j | 0 <= i < j < |sizes| && offs[i].Some? && offs[j].Some?
        ensures offs[i].value + sizes[i] <= offs[j].value
      {
        assert offs[j] == rest[j - 1] && sizes[j] == tail[j - 1];
        if i > 0 {
          assert offs[i] == rest[i - 1] && sizes[i] == tail[i - 1];
        }
      }
    }
  }
}
