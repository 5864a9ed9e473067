/** The blocking FIFO queue: a growable slice of elements and a read cursor.
    Taking an element advances the cursor and never removes anything; the
    cursor can be rewound to replay the elements from the start. Waiting on
    the condition variable is replaced by the precondition that an unread
    element exists. */
module BlockingQueue {

  class Blocking<T> {
    var elements: seq<T>
    var elementsIndex: int

    /** The cursor stays within the elements. */
    ghost predicate Valid()
      reads this
    {
      0 <= elementsIndex <= |elements|
    }

    /** The elements not yet taken, head first. */
    ghost function Unread(): seq<T>
      reads this
      requires Valid()
    {
      elements[elementsIndex..]
    }

    /** NewBlocking: the given elements, none of them taken yet. */
    constructor (elements: seq<T>)
      ensures Valid()
      ensures this.elements == elements && elementsIndex == 0
      ensures Unread() == elements
    {
      this.elements := elements;
      elementsIndex := 0;
    }

    /** The index of the next unread element, which is where the cursor is. */
    method GetNextIndexOrWait() returns (idx: int)
      requires Valid() && elementsIndex < |elements|
      ensures idx == elementsIndex
      ensures 0 <= idx < |elements|
      ensures elements[idx] == Unread()[0]
    {
      idx := elementsIndex;
    }

    /** Returns the element at the cursor and moves the cursor past it. */
    method Take() returns (v: T)
      requires Valid() && elementsIndex < |elements|
      modifies this
      ensures Valid()
      ensures v == old(elements[elementsIndex])
      ensures elementsIndex == old(elementsIndex) + 1 && elements == old(elements)
      ensures v == old(Unread())[0] && Unread() == old(Unread())[1..]
    {
      var idx := GetNextIndexOrWait();
      var elem := elements[idx];
      elementsIndex := elementsIndex + 1;
      v := elem;
    }

    /** Appends `elem` behind every element already present. */
    method Push(elem: T)
      requires Valid()
      modifies this
      ensures Valid()
      ensures elements == old(elements) + [elem] && elementsIndex == old(elementsIndex)
      ensures Unread() == old(Unread()) + [elem]
    {
      elements := elements + [elem];
    }

    /** The element at the cursor, left unread. */
    method Peek() returns (v: T)
      requires Valid() && elementsIndex < |elements|
      ensures v == elements[elementsIndex]
      ensures v == Unread()[0]
    {
      v := elements[elementsIndex];
    }

    /** Rewinds the cursor, so that every element is unread again. */
    method Reset()
      requires Valid()
      modifies this
      ensures Valid()
      ensures elementsIndex == 0 && elements == old(elements)
      ensures Unread() == elements
    {
      elementsIndex := 0;
    }
  }

  /** Taking as many elements as a new queue holds returns them all, in order. */
  method TakeAll<T>(elements: seq<T>) returns (taken: seq<T>)
    ensures taken == elements
  {
    var q := new Blocking(elements);
    taken := [];
    while |taken| < |elements|
      invariant q.Valid() && q.elements == elements && q.elementsIndex == |taken|
      invariant taken == elements[..|taken|]
    {
      var v := q.Take();
      taken := taken + [v];
    }
  }

  /** Taking the first element, resetting, then peeking and taking again sees
      the first element both times. */
  method TakeResetPeekTake<T>(elements: seq<T>) returns (peeked: T, taken: T)
    requires |elements| > 0
    ensures peeked == elements[0] && taken == elements[0]
  {
    var q := new Blocking(elements);
    var _ := q.Take();
    q.Reset();
    peeked := q.Peek();
    taken := q.Take();
  }
}
