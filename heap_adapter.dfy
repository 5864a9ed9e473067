/** The slice-backed adapter that the priority queue hands to
    `container/heap`: the element-level primitives Len, Less, Swap, Push and
    Pop over `elems`, ordered by an injected `less` function. */
module HeapAdapter {

  /** `s` with the cells at `i` and `j` exchanged. */
  function Swapped<T>(s: seq<T>, i: nat, j: nat): (r: seq<T>)
    requires i < |s| && j < |s|
    ensures |r| == |s| && r[i] == s[j] && r[j] == s[i]
    ensures forall k :: 0 <= k < |s| && k != i && k != j ==> r[k] == s[k]
    ensures multiset(r) == multiset(s)
  {
    s[i := s[j]][j := s[i]]
  }

  /** Go's built-in `copy(dst, src)`: overwrites the first min(len(dst),
      len(src)) cells of `dst` with those of `src` and keeps the length of `dst`. */
  function Copy<T>(dst: seq<T>, src: seq<T>): (r: seq<T>)
    ensures |r| == |dst|
    ensures forall k :: 0 <= k < |r| ==> r[k] == if k < |src| then src[k] else dst[k]
  {
    var m := if |dst| < |src| then |dst| else |src|;
    src[..m] + dst[m..]
  }

  /** The default comparison when none is given: no element sorts before another. */
  function FifoLess<T>(a: T, b: T): bool {
    false
  }

  class PriorityHeap<T> {
    var elems: seq<T>
    const less: (T, T) -> bool

    constructor (elems: seq<T>, less: (T, T) -> bool)
      ensures this.elems == elems && this.less == less
    {
      this.elems := elems;
      this.less := less;
    }

    /** The number of elements in the collection. */
    function Len(): nat
      reads this
    {
      |elems|
    }

    /** Whether the element at `i` must sort before the element at `j`. */
    predicate Less(i: nat, j: nat)
      reads this
      requires i < |elems| && j < |elems|
    {
      less(elems[i], elems[j])
    }

    /** Exchanges the elements at `i` and `j`. */
    method Swap(i: nat, j: nat)
      requires i < |elems| && j < |elems|
      modifies this
      ensures elems == Swapped(old(elems), i, j)
    {
      elems := elems[i := elems[j]][j := elems[i]];
    }

    /** Appends `elem`; used by `heap.Push` before sifting up. */
    method Push(elem: T)
      modifies this
      ensures elems == old(elems) + [elem]
    {
      elems := elems + [elem];
    }

    /** Removes and returns the last element; used by `heap.Pop` after it
        has moved the root to the end. */
    method Pop() returns (elem: T)
      requires |elems| > 0
      modifies this
      ensures old(elems) == elems + [elem]
    {
      var n := |elems|;
      elem := elems[n - 1];
      elems := elems[0..n - 1];
    }
  }
}
