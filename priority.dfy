/** The priority queue: a heap adapter ordered by a caller-supplied `less`,
    an optional capacity bound, and the snapshot taken at construction that
    `Reset` restores. The head of the queue is the root of the heap. */
module PriorityQueue {
  import opened Ordering
  import opened HeapAdapter
  import opened QueueErrors
  import ContainerHeap

  /** The comparison the queue orders by: the given one, or FifoLess. */
  function LessOrDefault<T>(lessFunc: Option<(T, T) -> bool>): (T, T) -> bool {
    if lessFunc.None? then FifoLess else lessFunc.value
  }

  /** The default comparison is a strict weak ordering (every element is
      equivalent to every other), so the heap-order guarantees hold for it. */
  lemma FifoLessIsStrictWeakOrder<T(!new)>()
    ensures StrictWeakOrder<T>(FifoLess)
  {
  }

  /** The elements a new queue keeps: all of them when they fit the
      capacity, otherwise the first `capacity` of them once sorted by `less`,
      so that no dropped element sorts before a kept one. */
  function Trimmed<T(!new)>(elems: seq<T>, less: (T, T) -> bool, capacity: Option<nat>): (r: seq<T>)
    ensures |r| == if capacity.Some? && capacity.value < |elems| then capacity.value else |elems|
    ensures capacity.None? || |elems| <= capacity.value ==> r == elems
    ensures multiset(r) <= multiset(elems)
    ensures StrictWeakOrder(less) ==>
      forall i, y :: 0 <= i < |r| && y in multiset(elems) - multiset(r) ==> !less(y, r[i])
  {
    if capacity.Some? && capacity.value < |elems| then
      var sorted := SortBy(elems, less);
      var c := capacity.value;
      assert |sorted| == |multiset(sorted)| == |elems|;
      assert sorted == sorted[..c] + sorted[c..];
      assert multiset(elems) - multiset(sorted[..c]) == multiset(sorted[c..]);
      SortedPrefixFirst(sorted, less, c);
      sorted[..c]
    else
      elems
  }

  class Priority<T(0, !new)> {
    const initialElements: seq<T>
    const elements: PriorityHeap<T>
    const capacity: Option<nat>

    /** The size bound holds for the live elements and the snapshot, and
        both are heaps whenever `less` is a strict weak ordering. */
    ghost predicate Valid()
      reads this, elements
    {
      (capacity.Some? ==>
        |elements.elems| <= capacity.value && |initialElements| <= capacity.value) &&
      (StrictWeakOrder(elements.less) ==>
        ContainerHeap.IsHeap(elements.elems, elements.less) &&
        ContainerHeap.IsHeap(initialElements, elements.less))
    }

    /** NewPriority: trims to the capacity, heapifies, and keeps a copy of
        the heapified elements as the snapshot. */
    constructor (elems: seq<T>, lessFunc: Option<(T, T) -> bool>, capacity: Option<nat>)
      ensures Valid() && fresh(elements)
      ensures elements.less == LessOrDefault(lessFunc) && this.capacity == capacity
      ensures multiset(elements.elems) == multiset(Trimmed(elems, elements.less, capacity))
      ensures initialElements == elements.elems
    {
      var less := LessOrDefault(lessFunc);
      var h := new PriorityHeap(elems, less);
      if capacity.Some? && capacity.value < h.Len() {
        h.elems := SortBy(h.elems, less)[..capacity.value];
      }
      ContainerHeap.Init(h);
      var zero: T := *;
      var initialElems := Copy(seq(h.Len(), _ => zero), h.elems);
      assert initialElems == h.elems;
      initialElements := initialElems;
      elements := h;
      this.capacity := capacity;
    }

    /** Inserts `elem`, unless a capacity is set and already reached. */
    method Offer(elem: T) returns (r: Outcome)
      requires Valid()
      modifies elements
      ensures Valid()
      ensures r.Fail? <==> capacity.Some? && old(|elements.elems|) >= capacity.value
      ensures r.Fail? ==> r.error == ErrQueueIsFull && elements.elems == old(elements.elems)
      ensures r.Pass? ==> |elements.elems| == old(|elements.elems|) + 1
      ensures r.Pass? ==> multiset(elements.elems) == old(multiset(elements.elems)) + multiset{elem}
    {
      if capacity.Some? && elements.Len() >= capacity.value {
        return Fail(ErrQueueIsFull);
      }
      ContainerHeap.Push(elements, elem);
      return Pass;
    }

    /** Replaces the live elements with the snapshot, shrinking or
        reallocating the slice first so that its length matches. */
    method Reset()
      requires Valid()
      modifies elements
      ensures Valid()
      ensures elements.elems == initialElements
    {
      if elements.Len() > |initialElements| {
        elements.elems := elements.elems[..|initialElements|];
      }
      if elements.Len() < |initialElements| {
        var zero: T := *;
        elements.elems := seq(|initialElements|, _ => zero);
      }
      assert |elements.elems| == |initialElements|;
      elements.elems := Copy(elements.elems, initialElements);
    }

    /** Removes and returns the head: an element no remaining one sorts before. */
    method Get() returns (r: Result<T>)
      requires Valid()
      modifies elements
      ensures Valid()
      ensures r.Err? <==> old(|elements.elems|) == 0
      ensures r.Err? ==> r.error == ErrNoElementsAvailable && elements.elems == old(elements.elems)
      ensures r.Ok? ==> r.value == old(elements.elems[0]) && |elements.elems| == old(|elements.elems|) - 1
      ensures r.Ok? ==> multiset(elements.elems) == old(multiset(elements.elems)) - multiset{r.value}
      ensures r.Ok? && StrictWeakOrder(elements.less) ==>
        forall k :: 0 <= k < |elements.elems| ==> !elements.less(elements.elems[k], r.value)
    {
      if elements.Len() == 0 {
        return Err(ErrNoElementsAvailable);
      }
      var x := ContainerHeap.Pop(elements);
      return Ok(x);
    }

    /** Returns the head without removing it: the first element of the
        heap, which no element sorts before. */
    method Peek() returns (r: Result<T>)
      requires Valid()
      ensures r.Err? <==> |elements.elems| == 0
      ensures r.Err? ==> r.error == ErrNoElementsAvailable
      ensures r.Ok? ==> r.value == elements.elems[0]
      ensures r.Ok? && StrictWeakOrder(elements.less) ==>
        forall k :: 0 <= k < |elements.elems| ==> !elements.less(elements.elems[k], r.value)
    {
      if elements.Len() == 0 {
        return Err(ErrNoElementsAvailable);
      }
      if StrictWeakOrder(elements.less) {
        ContainerHeap.RootIsMinimal(elements.elems, elements.less);
      }
      return Ok(elements.elems[0]);
    }

    /** The number of live elements, which never exceeds the capacity. */
    method Size() returns (n: nat)
      requires Valid()
      ensures n == |elements.elems|
      ensures capacity.Some? ==> n <= capacity.value
    {
      n := elements.Len();
    }
  }

  /** `<` on integers is a strict weak ordering. */
  lemma IntLessIsStrictWeakOrder()
    ensures StrictWeakOrder((a: int, b: int) => a < b)
  {
  }

  /** Three elements ordered by `<` come out smallest first. */
  method AscendingScenario() {
    var q := new Priority([5, 1, 3], Some((a: int, b: int) => a < b), None);
    IntLessIsStrictWeakOrder();
    var first := q.Get();
    var second := q.Get();
    var third := q.Get();
    var fourth := q.Get();
    assert first == Ok(1);
    assert second == Ok(3);
    assert third == Ok(5);
    assert fourth == Err(ErrNoElementsAvailable);
  }

  /** Three distinct elements drawn from 1..5, none of the other two
      smaller than any of them, are 1, 2 and 3. */
  lemma KeptSmallestThree(r: seq<int>)
    requires |r| == 3 && multiset(r) <= multiset{4, 2, 5, 1, 3}
    requires forall i, y :: 0 <= i < |r| && y in multiset{4, 2, 5, 1, 3} - multiset(r) ==> !(y < r[i])
    ensures multiset(r) == multiset{1, 2, 3}
  {
    var a, b, c := r[0], r[1], r[2];
    assert r == [a, b, c];
    assert a != b && a != c && b != c by {
      assert multiset(r)[a] <= 1 && multiset(r)[b] <= 1 && multiset(r)[c] <= 1;
    }
    assert 1 in multiset(r) || 1 in multiset{4, 2, 5, 1, 3} - multiset(r);
    assert 2 in multiset(r) || 2 in multiset{4, 2, 5, 1, 3} - multiset(r);
    assert 3 in multiset(r) || 3 in multiset{4, 2, 5, 1, 3} - multiset(r);
    assert a in {1, 2, 3} && b in {1, 2, 3} && c in {1, 2, 3};
    DistinctOfThree(a, b, c);
  }

  /** Three distinct values among 1, 2 and 3 are 1, 2 and 3. */
  lemma DistinctOfThree(a: int, b: int, c: int)
    requires a != b && a != c && b != c
    requires a in {1, 2, 3} && b in {1, 2, 3} && c in {1, 2, 3}
    ensures multiset{a, b, c} == multiset{1, 2, 3}
  {
    if a == 1 {
      assert (b, c) == (2, 3) || (b, c) == (3, 2);
    } else if a == 2 {
      assert (b, c) == (1, 3) || (b, c) == (3, 1);
    } else {
      assert (b, c) == (1, 2) || (b, c) == (2, 1);
    }
  }

  /** Trimming 4, 2, 5, 1, 3, in any order, to capacity 3 by `<` keeps
      1, 2 and 3. */
  lemma TrimKeepsSmallest(elems: seq<int>)
    requires multiset(elems) == multiset{4, 2, 5, 1, 3}
    ensures multiset(Trimmed(elems, (a: int, b: int) => a < b, Some(3))) == multiset{1, 2, 3}
  {
    var r := Trimmed(elems, (a: int, b: int) => a < b, Some(3));
    assert forall i, y :: 0 <= i < |r| && y in multiset(elems) - multiset(r) ==> !(y < r[i]) by {
      IntLessIsStrictWeakOrder();
    }
    KeptSmallestThree(r);
  }

  /** With capacity 3, the five elements are trimmed to the three smallest,
      and a further Offer is refused. */
  method TrimScenario() {
    var q := new Priority([4, 2, 5, 1, 3], Some((a: int, b: int) => a < b), Some(3));
    IntLessIsStrictWeakOrder();
    var n := q.Size();
    assert n == 3;
    TrimKeepsSmallest([4, 2, 5, 1, 3]);
    assert multiset(q.elements.elems) == multiset{1, 2, 3};
    var full := q.Offer(6);
    assert full == Fail(ErrQueueIsFull);
  }
}
