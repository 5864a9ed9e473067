/** Orderings given by a caller-supplied `less` function, and the result of
    sorting a slice by one (what `sort.Slice` promises, not how it does it). */
module Ordering {

  /** `less` is a strict weak ordering: asymmetric, and "not less than" is
      transitive. Go's `sort` and `container/heap` packages assume this of
      the comparison they are given. */
  ghost predicate StrictWeakOrder<T(!new)>(less: (T, T) -> bool) {
    (forall a, b :: less(a, b) ==> !less(b, a)) &&
    (forall a, b, c {:trigger less(a, b), less(b, c), less(a, c)} :: !less(a, b) && !less(b, c) ==> !less(a, c))
  }

  /** No later element sorts before an earlier one. */
  ghost predicate SortedBy<T(!new)>(s: seq<T>, less: (T, T) -> bool) {
    forall i, j :: 0 <= i < j < |s| ==> !less(s[j], s[i])
  }

  /** Inserts `x` into `s` in front of the first element that does not sort
      before it; on a sorted `s` the result is sorted. */
  function InsertBy<T(!new)>(x: T, s: seq<T>, less: (T, T) -> bool): (r: seq<T>)
    ensures multiset(r) == multiset(s) + multiset{x}
    ensures forall k :: 0 <= k < |r| ==> r[k] == x || r[k] in s
    ensures StrictWeakOrder(less) && SortedBy(s, less) ==> SortedBy(r, less)
  {
    if s == [] then
      [x]
    else if !less(s[0], x) then
      InsertSortedFront(x, s, less);
      [x] + s
    else
      var rest := InsertBy(x, s[1..], less);
      assert s == [s[0]] + s[1..];
      InsertSortedCons(x, s, rest, less);
      [s[0]] + rest
  }

  lemma InsertSortedFront<T(!new)>(x: T, s: seq<T>, less: (T, T) -> bool)
    requires s != [] && !less(s[0], x)
    ensures StrictWeakOrder(less) && SortedBy(s, less) ==> SortedBy([x] + s, less)
  {
    if StrictWeakOrder(less) && SortedBy(s, less) {
      var r := [x] + s;
      forall i, j | 0 <= i < j < |r| ensures !less(r[j], r[i]) {
        if i == 0 && j > 1 {
          assert !less(s[j - 1], s[0]);
        }
      }
    }
  }

  lemma InsertSortedCons<T(!new)>(x: T, s: seq<T>, rest: seq<T>, less: (T, T) -> bool)
    requires s != [] && less(s[0], x)
    requires forall k :: 0 <= k < |rest| ==> rest[k] == x || rest[k] in s[1..]
    requires StrictWeakOrder(less) && SortedBy(s[1..], less) ==> SortedBy(rest, less)
    ensures StrictWeakOrder(less) && SortedBy(s, less) ==> SortedBy([s[0]] + rest, less)
  {
    if StrictWeakOrder(less) && SortedBy(s, less) {
      assert SortedBy(s[1..], less);
      var r := [s[0]] + rest;
      forall i, j | 0 <= i < j < |r| ensures !less(r[j], r[i]) {
        if i == 0 {
          var y := rest[j - 1];
          if y != x {
            var m :| 0 <= m < |s[1..]| && s[1..][m] == y;
            assert s[m + 1] == y;
          }
        }
      }
    }
  }

  /** Sorts `s` by `less`: the result is a permutation of `s`, and sorted
      whenever `less` is a strict weak ordering. */
  function SortBy<T(!new)>(s: seq<T>, less: (T, T) -> bool): (r: seq<T>)
    ensures multiset(r) == multiset(s)
    ensures StrictWeakOrder(less) ==> SortedBy(r, less)
  {
    if s == [] then
      []
    else
      assert s == [s[0]] + s[1..];
      InsertBy(s[0], SortBy(s[1..], less), less)
  }

  /** Keeping the first `c` of a sorted sequence keeps elements that no
      dropped element sorts before. */
  lemma {:induction false} SortedPrefixFirst<T(!new)>(s: seq<T>, less: (T, T) -> bool, c: nat)
    requires c <= |s|
    ensures SortedBy(s, less) ==>
      forall i, y :: 0 <= i < c && y in multiset(s[c..]) ==> !less(y, s[..c][i])
  {
    if SortedBy(s, less) {
      forall i, y | 0 <= i < c && y in multiset(s[c..]) ensures !less(y, s[..c][i]) {
        assert y in s[c..];
        var m :| 0 <= m < |s[c..]| && s[c..][m] == y;
        assert s[c + m] == y;
      }
    }
  }
}
