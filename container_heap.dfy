/** The array-heap algorithms of Go's `container/heap` (Init, Push, Pop and
    their sift-up and sift-down repairs), written out over the adapter's
    primitives. A heap here is a min-heap by `less`: no child sorts before
    its parent, the parent of index c > 0 being (c - 1) / 2. */
module ContainerHeap {
  import opened Ordering
  import opened HeapAdapter

  /** Every parent-child pair below `n` whose parent is at least `lo` and is
      not `skip` is in heap order. */
  ghost predicate OrderedBelow<T>(s: seq<T>, less: (T, T) -> bool, n: nat, lo: nat, skip: int)
    requires n <= |s|
  {
    forall c {:trigger s[c]} :: 0 < c < n && lo <= (c - 1) / 2 && (c - 1) / 2 != skip ==> !less(s[c], s[(c - 1) / 2])
  }

  /** The heap property over the whole sequence. */
  ghost predicate IsHeap<T>(s: seq<T>, less: (T, T) -> bool) {
    OrderedBelow(s, less, |s|, 0, -1)
  }

  /** Sift-up state: every pair is ordered except the one whose child is `j`. */
  ghost predicate OrderedExceptChild<T>(s: seq<T>, less: (T, T) -> bool, j: nat) {
    forall c {:trigger s[c]} :: 0 < c < |s| && c != j ==> !less(s[c], s[(c - 1) / 2])
  }

  /** Sift-up state: the children of `j` do not sort before `j`'s parent. */
  ghost predicate BridgedUp<T>(s: seq<T>, less: (T, T) -> bool, j: nat)
    requires j < |s|
  {
    j > 0 ==> forall c :: 0 < c < |s| && (c - 1) / 2 == j ==> !less(s[c], s[(j - 1) / 2])
  }

  /** Sift-down state: the children of `i` below `n` do not sort before
      `i`'s parent, unless `i` is where the sift started. */
  ghost predicate BridgedDown<T>(s: seq<T>, less: (T, T) -> bool, n: nat, i0: nat, i: nat)
    requires n <= |s| && i < |s|
  {
    i > i0 ==> forall c :: 0 < c < n && (c - 1) / 2 == i ==> !less(s[c], s[(i - 1) / 2])
  }

  /** The element at `k` of a heap does not sort before the root; the proof
      climbs from `k` to the root through its ancestors. */
  lemma {:induction false} RootBelow<T(!new)>(s: seq<T>, less: (T, T) -> bool, k: nat)
    requires StrictWeakOrder(less) && IsHeap(s, less) && k < |s|
    ensures !less(s[k], s[0])
    decreases k
  {
    if k > 0 {
      var p := (k - 1) / 2;
      RootBelow(s, less, p);
      assert !less(s[k], s[p]);
    }
  }

  /** No element of a heap sorts before its root. */
  lemma RootIsMinimal<T(!new)>(s: seq<T>, less: (T, T) -> bool)
    requires StrictWeakOrder(less) && IsHeap(s, less)
    ensures forall k :: 0 <= k < |s| ==> !less(s[k], s[0])
  {
    forall k | 0 <= k < |s| ensures !less(s[k], s[0]) {
      RootBelow(s, less, k);
    }
  }

  /** One swap of sift-up keeps its state, one level higher. */
  lemma UpStep<T(!new)>(s: seq<T>, less: (T, T) -> bool, j: nat)
    requires StrictWeakOrder(less) && 0 < j < |s|
    requires OrderedExceptChild(s, less, j) && BridgedUp(s, less, j)
    requires less(s[j], s[(j - 1) / 2])
    ensures OrderedExceptChild(Swapped(s, (j - 1) / 2, j), less, (j - 1) / 2)
    ensures BridgedUp(Swapped(s, (j - 1) / 2, j), less, (j - 1) / 2)
  {
    var p := (j - 1) / 2;
    var t := Swapped(s, p, j);
    forall c {:trigger t[c]} | 0 < c < |t| && c != p ensures !less(t[c], t[(c - 1) / 2]) {
      if (c - 1) / 2 == p && c != j {
        assert !less(s[c], s[p]);
      }
    }
    if p > 0 {
      var g := (p - 1) / 2;
      assert !less(s[p], s[g]);
      forall c | 0 < c < |t| && (c - 1) / 2 == p ensures !less(t[c], t[g]) {
        if c != j {
          assert !less(s[c], s[p]);
        }
      }
    }
  }

  /** The child `j` of `i` that sift-down picks: the right child only when
      it sorts before the left one. */
  ghost predicate PickedChild<T>(s: seq<T>, less: (T, T) -> bool, n: nat, i: nat, j: nat)
    requires n <= |s|
  {
    j < n &&
    (j == 2 * i + 1 || j == 2 * i + 2) &&
    (j == 2 * i + 1 && 2 * i + 2 < n ==> !less(s[2 * i + 2], s[j])) &&
    (j == 2 * i + 2 ==> less(s[j], s[2 * i + 1]))
  }

  /** One swap of sift-down keeps its state, one level lower. */
  lemma DownStep<T(!new)>(s: seq<T>, less: (T, T) -> bool, n: nat, i0: nat, i: nat, j: nat)
    requires StrictWeakOrder(less) && n <= |s|
    requires i0 <= i && (i == i0 || i0 <= (i - 1) / 2)
    requires PickedChild(s, less, n, i, j) && less(s[j], s[i])
    requires OrderedBelow(s, less, n, i0, i) && BridgedDown(s, less, n, i0, i)
    ensures OrderedBelow(Swapped(s, i, j), less, n, i0, j)
    ensures BridgedDown(Swapped(s, i, j), less, n, i0, j)
  {
    var t := Swapped(s, i, j);
    forall c {:trigger t[c]} | 0 < c < n && i0 <= (c - 1) / 2 && (c - 1) / 2 != j
      ensures !less(t[c], t[(c - 1) / 2])
    {
      if (c - 1) / 2 == i && c != j {
        assert !less(s[c], s[j]);
      }
    }
    forall c | 0 < c < n && (c - 1) / 2 == j ensures !less(t[c], t[i]) {
      assert !less(s[c], s[j]);
    }
  }

  /** Sift-down ends, sound, when the picked child does not sort before `i`. */
  lemma DownSettled<T(!new)>(s: seq<T>, less: (T, T) -> bool, n: nat, i0: nat, i: nat, j: nat)
    requires StrictWeakOrder(less) && n <= |s|
    requires i0 <= i && (i == i0 || i0 <= (i - 1) / 2)
    requires PickedChild(s, less, n, i, j) && !less(s[j], s[i])
    requires OrderedBelow(s, less, n, i0, i) && BridgedDown(s, less, n, i0, i)
    ensures OrderedBelow(s, less, n, i0, -1)
  {
    forall c | 0 < c < n && (c - 1) / 2 == i ensures !less(s[c], s[i]) {
      if c != j {
        assert !less(s[c], s[j]);
      }
    }
  }

  /** A swap of two cells below `hi` leaves the cells from `hi` on alone. */
  lemma SwapOutside<T>(s: seq<T>, hi: nat, i: nat, j: nat)
    requires i < hi && j < hi && hi <= |s|
    ensures Swapped(s, i, j)[hi..] == s[hi..]
  {
  }

  /** A swap of two cells past a prefix of `s` keeps that prefix. */
  lemma SwapAbove<T>(s: seq<T>, front: seq<T>, i: nat, j: nat)
    requires front <= s && |front| <= i < |s| && |front| <= j < |s|
    ensures front <= Swapped(s, i, j)
  {
  }

  /** One swap of sift-down: the cells before `i0` and from `n` on stay,
      and the ordering state moves from `i` to the picked child `j`. */
  lemma DownAdvance<T(!new)>(s: seq<T>, less: (T, T) -> bool, n: nat, i0: nat, i: nat, j: nat, front: seq<T>)
    requires n <= |s| && i0 <= i && (i == i0 || i0 <= (i - 1) / 2)
    requires PickedChild(s, less, n, i, j) && less(s[j], s[i])
    requires front <= s && |front| <= i0
    requires StrictWeakOrder(less) ==> OrderedBelow(s, less, n, i0, i) && BridgedDown(s, less, n, i0, i)
    ensures front <= Swapped(s, i, j) && Swapped(s, i, j)[n..] == s[n..]
    ensures StrictWeakOrder(less) ==>
      OrderedBelow(Swapped(s, i, j), less, n, i0, j) && BridgedDown(Swapped(s, i, j), less, n, i0, j)
  {
    if StrictWeakOrder(less) {
      DownStep(s, less, n, i0, i, j);
    }
    SwapOutside(s, n, i, j);
    SwapAbove(s, front, i, j);
  }

  /** Go's `down(h, i0, n)`: moves the element at `i0` down the heap
      prefix of length `n` until neither child sorts before it. */
  method Down<T(!new)>(h: PriorityHeap<T>, i0: nat, n: nat)
    requires n <= |h.elems|
    requires StrictWeakOrder(h.less) ==> OrderedBelow(h.elems, h.less, n, i0, i0)
    modifies h
    ensures |h.elems| == old(|h.elems|) && multiset(h.elems) == old(multiset(h.elems))
    ensures h.elems[n..] == old(h.elems[n..])
    ensures i0 <= |h.elems| ==> h.elems[..i0] == old(h.elems[..i0])
    ensures StrictWeakOrder(h.less) ==> OrderedBelow(h.elems, h.less, n, i0, -1)
  {
    ghost var front := if i0 <= |h.elems| then h.elems[..i0] else h.elems;
    var i := i0;
    while 2 * i + 1 < n
      invariant i0 <= i && (i == i0 || i0 <= (i - 1) / 2)
      invariant |h.elems| == old(|h.elems|) && multiset(h.elems) == old(multiset(h.elems))
      invariant h.elems[n..] == old(h.elems[n..])
      invariant front <= h.elems
      invariant StrictWeakOrder(h.less) ==>
        OrderedBelow(h.elems, h.less, n, i0, i) && (i < n ==> BridgedDown(h.elems, h.less, n, i0, i))
      decreases n - i
    {
      var j := 2 * i + 1;
      if j + 1 < n && h.Less(j + 1, j) {
        j := j + 1;
      }
      if !h.Less(j, i) {
        if StrictWeakOrder(h.less) {
          DownSettled(h.elems, h.less, n, i0, i, j);
        }
        return;
      }
      DownAdvance(h.elems, h.less, n, i0, i, j, front);
      h.Swap(i, j);
      i := j;
    }
  }

  /** Go's `heap.Init`: establishes the heap property by sifting down every
      internal node, from the last one back to the root. */
  method Init<T(!new)>(h: PriorityHeap<T>)
    modifies h
    ensures multiset(h.elems) == old(multiset(h.elems))
    ensures StrictWeakOrder(h.less) ==> IsHeap(h.elems, h.less)
  {
    var n := h.Len();
    var i := n as int / 2 - 1;
    while i >= 0
      invariant -1 <= i <= n / 2 - 1 || (n < 2 && i == -1)
      invariant |h.elems| == n && multiset(h.elems) == old(multiset(h.elems))
      invariant StrictWeakOrder(h.less) ==> OrderedBelow(h.elems, h.less, n, i + 1, -1)
    {
      Down(h, i, n);
      i := i - 1;
    }
  }

  /** Go's `up(h, j)`: moves the element at `j` up while it sorts before its parent. */
  method Up<T(!new)>(h: PriorityHeap<T>, j0: nat)
    requires j0 < |h.elems|
    requires StrictWeakOrder(h.less) ==>
      OrderedExceptChild(h.elems, h.less, j0) && BridgedUp(h.elems, h.less, j0)
    modifies h
    ensures |h.elems| == old(|h.elems|) && multiset(h.elems) == old(multiset(h.elems))
    ensures StrictWeakOrder(h.less) ==> IsHeap(h.elems, h.less)
  {
    var j: nat := j0;
    while j > 0 && h.Less(j, (j - 1) / 2)
      invariant j < |h.elems|
      invariant |h.elems| == old(|h.elems|) && multiset(h.elems) == old(multiset(h.elems))
      invariant StrictWeakOrder(h.less) ==>
        OrderedExceptChild(h.elems, h.less, j) && BridgedUp(h.elems, h.less, j)
      decreases j
    {
      var i: nat := (j - 1) / 2;
      if StrictWeakOrder(h.less) {
        UpStep(h.elems, h.less, j);
      }
      h.Swap(i, j);
      j := i;
    }
  }

  /** Go's `heap.Push`: appends `x`, then sifts it up. */
  method Push<T(!new)>(h: PriorityHeap<T>, x: T)
    requires StrictWeakOrder(h.less) ==> IsHeap(h.elems, h.less)
    modifies h
    ensures |h.elems| == old(|h.elems|) + 1
    ensures multiset(h.elems) == old(multiset(h.elems)) + multiset{x}
    ensures StrictWeakOrder(h.less) ==> IsHeap(h.elems, h.less)
  {
    h.Push(x);
    Up(h, h.Len() - 1);
  }

  /** Moving the last element of a heap to the root leaves every pair of
      the shortened prefix ordered except those below the root. */
  lemma RootReplaced<T>(s: seq<T>, less: (T, T) -> bool)
    requires |s| > 0 && IsHeap(s, less)
    ensures OrderedBelow(Swapped(s, 0, |s| - 1), less, |s| - 1, 0, 0)
  {
    var t := Swapped(s, 0, |s| - 1);
    forall c {:trigger t[c]} | 0 < c < |s| - 1 && (c - 1) / 2 != 0
      ensures !less(t[c], t[(c - 1) / 2])
    {
      assert t[c] == s[c] && t[(c - 1) / 2] == s[(c - 1) / 2];
    }
  }

  /** The ordered prefix of a sequence is a heap on its own. */
  lemma PrefixIsHeap<T>(u: seq<T>, less: (T, T) -> bool, n: nat)
    requires n <= |u| && OrderedBelow(u, less, n, 0, -1)
    ensures IsHeap(u[..n], less)
  {
    var r := u[..n];
    forall c {:trigger r[c]} | 0 < c < n ensures !less(r[c], r[(c - 1) / 2]) {
      assert r[c] == u[c] && r[(c - 1) / 2] == u[(c - 1) / 2];
    }
  }

  /** Removing `x` from a collection none of whose elements sorts before
      `x` leaves such a collection. */
  lemma MinimalAfterRemoval<T>(s: seq<T>, r: seq<T>, x: T, less: (T, T) -> bool)
    requires forall k :: 0 <= k < |s| ==> !less(s[k], x)
    requires multiset(r) + multiset{x} == multiset(s)
    ensures forall k :: 0 <= k < |r| ==> !less(r[k], x)
  {
    forall k | 0 <= k < |r| ensures !less(r[k], x) {
      assert r[k] in multiset(r);
      assert r[k] in multiset(s);
      assert r[k] in s;
    }
  }

  /** Go's `heap.Pop`: swaps the root with the last element, sifts the new
      root down the shortened prefix, then removes and returns the old root. */
  method Pop<T(!new)>(h: PriorityHeap<T>) returns (x: T)
    requires |h.elems| > 0
    requires StrictWeakOrder(h.less) ==> IsHeap(h.elems, h.less)
    modifies h
    ensures x == old(h.elems[0])
    ensures |h.elems| == old(|h.elems|) - 1
    ensures multiset(h.elems) == old(multiset(h.elems)) - multiset{x}
    ensures StrictWeakOrder(h.less) ==> IsHeap(h.elems, h.less)
    ensures StrictWeakOrder(h.less) ==> forall k :: 0 <= k < |h.elems| ==> !h.less(h.elems[k], x)
  {
    ghost var s := h.elems;
    if StrictWeakOrder(h.less) {
      RootIsMinimal(s, h.less);
      RootReplaced(s, h.less);
    }
    var n := h.Len() - 1;
    h.Swap(0, n);
    Down(h, 0, n);
    ghost var u := h.elems;
    assert u[n..] == [s[0]];
    x := h.Pop();
    assert u == h.elems + [x];
    assert h.elems == u[..n];
    assert multiset(h.elems) + multiset{x} == multiset(s);
    if StrictWeakOrder(h.less) {
      PrefixIsHeap(u, h.less, n);
      MinimalAfterRemoval(s, h.elems, x, h.less);
    }
  }
}
