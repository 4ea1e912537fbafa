/** `LinkedListConstIterator<T>`: the read-only counterpart of
    `LinkedListIterator<T>`. It has the same comparison and movement
    operators; its dereference gives the item without a way to change it. */
module ConstIterators {
  import opened Nodes

  class ConstIterator<T> {
    var ptr: Node<T>

    /** Only the list creates iterators, wrapping one of its nodes. */
    constructor (ptr: Node<T>)
      ensures this.ptr == ptr
    {
      this.ptr := ptr;
    }

    /** `==`: iterators are equal exactly when they hold the same node, so
        equal iterators dereference to the same item. */
    predicate Equals(rhs: ConstIterator<T>): (r: bool)
      reads this, rhs, ptr, rhs.ptr
      ensures r ==> Deref() == rhs.Deref()
    {
      ptr == rhs.ptr
    }

    /** `!=` is the negation of `==`. */
    predicate NotEquals(rhs: ConstIterator<T>): (r: bool)
      reads this, rhs, ptr, rhs.ptr
      ensures r <==> !Equals(rhs)
    {
      ptr != rhs.ptr
    }

    /** `*` and `->`: the item held by the current node. */
    function Deref(): T
      reads this, ptr
    {
      ptr.item
    }

    /** Pre-increment: move to the next node and return this iterator. */
    method Increment() returns (self: ConstIterator<T>)
      requires ptr.next != null
      modifies this
      ensures self == this && ptr == old(ptr.next)
    {
      ptr := ptr.next;
      self := this;
    }

    /** Post-increment: return a copy at the old node, then move on. */
    method PostIncrement() returns (before: ConstIterator<T>)
      requires ptr.next != null
      modifies this
      ensures fresh(before) && before.ptr == old(ptr)
      ensures ptr == old(ptr.next)
    {
      before := new ConstIterator(ptr);
      ptr := ptr.next;
    }

    /** Pre-decrement: move to the previous node and return this iterator. */
    method Decrement() returns (self: ConstIterator<T>)
      requires ptr.prev != null
      modifies this
      ensures self == this && ptr == old(ptr.prev)
    {
      ptr := ptr.prev;
      self := this;
    }

    /** Post-decrement: return a copy at the old node, then move back. */
    method PostDecrement() returns (before: ConstIterator<T>)
      requires ptr.prev != null
      modifies this
      ensures fresh(before) && before.ptr == old(ptr)
      ensures ptr == old(ptr.prev)
    {
      before := new ConstIterator(ptr);
      ptr := ptr.prev;
    }
  }
}
