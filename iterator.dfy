/** `LinkedListIterator<T>`: a bidirectional cursor holding one node
    reference. Comparison and dereference only read it; the increment and
    decrement operators move it along the node's links. */
module Iterators {
  import opened Nodes

  class Iterator<T> {
    var ptr: Node<T>

    /** Only the list creates iterators, wrapping one of its nodes. */
    constructor (ptr: Node<T>)
      ensures this.ptr == ptr
    {
      this.ptr := ptr;
    }

    /** `==`: iterators are equal exactly when they hold the same node, so
        equal iterators dereference to the same item. */
    predicate Equals(rhs: Iterator<T>): (r: bool)
      reads this, rhs, ptr, rhs.ptr
      ensures r ==> Deref() == rhs.Deref()
    {
      ptr == rhs.ptr
    }

    /** `!=` is the negation of `==`. */
    predicate NotEquals(rhs: Iterator<T>): (r: bool)
      reads this, rhs, ptr, rhs.ptr
      ensures r <==> !Equals(rhs)
    {
      ptr != rhs.ptr
    }

    /** `*` and `->`: the item held by the current node. */
    function Deref(): T
      reads this, ptr
    {
      ptr.item
    }

    /** Assignment through `*`: the current node's item is overwritten and
        nothing else changes. */
    method Store(value: T)
      modifies ptr`item
      ensures ptr.item == value
    {
      ptr.item := value;
    }

    /** Pre-increment: move to the next node and return this iterator. */
    method Increment() returns (self: Iterator<T>)
      requires ptr.next != null
      modifies this
      ensures self == this && ptr == old(ptr.next)
    {
      ptr := ptr.next;
      self := this;
    }

    /** Post-increment: return a copy at the old node, then move on. */
    method PostIncrement() returns (before: Iterator<T>)
      requires ptr.next != null
      modifies this
      ensures fresh(before) && before.ptr == old(ptr)
      ensures ptr == old(ptr.next)
    {
      before := new Iterator(ptr);
      ptr := ptr.next;
    }

    /** Pre-decrement: move to the previous node and return this iterator. */
    method Decrement() returns (self: Iterator<T>)
      requires ptr.prev != null
      modifies this
      ensures self == this && ptr == old(ptr.prev)
    {
      ptr := ptr.prev;
      self := this;
    }

    /** Post-decrement: return a copy at the old node, then move back. */
    method PostDecrement() returns (before: Iterator<T>)
      requires ptr.prev != null
      modifies this
      ensures fresh(before) && before.ptr == old(ptr)
      ensures ptr == old(ptr.prev)
    {
      before := new Iterator(ptr);
      ptr := ptr.prev;
    }
  }
}
