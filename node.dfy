/** One cell of the circular chain: an item and two non-owning links.
    The links are nullable, as the source's raw pointers are; the list's
    invariant is what guarantees they are set. */
module Nodes {

  class Node<T> {
    var item: T
    var prev: Node?<T>
    var next: Node?<T>

    /** The singleton constructor: the node stores `item` and both of its
        links point back at the node itself. */
    constructor (item: T)
      ensures this.item == item
      ensures prev == this && next == this
    {
      this.item := item;
      new;
      prev := this;
      next := this;
    }

    /** The three-argument constructor as documented: the node stores
        `item`, follows `prev`, precedes `next`, and the two neighbours are
        rewired to point at it. Only `prev.next` and `next.prev` change. */
    constructor Between(item: T, prev: Node<T>, next: Node<T>)
      modifies prev`next, next`prev
      ensures this.item == item && this.prev == prev && this.next == next
      ensures prev.next == this && next.prev == this
    {
      this.item := item;
      this.prev := prev;
      this.next := next;
      new;
      Link(prev, this);
      Link(this, next);
    }

    /** The three-argument constructor as the source writes it: it only
        fills in the new node's own fields, so `prev` and `next` keep
        pointing at each other and the node is not reachable from them. */
    constructor BetweenAsWritten(item: T, prev: Node<T>, next: Node<T>)
      ensures this.item == item && this.prev == prev && this.next == next
      ensures prev.next == old(prev.next) && next.prev == old(next.prev)
      ensures prev.next != this && next.prev != this
    {
      this.item := item;
      this.prev := prev;
      this.next := next;
    }

    /** `link(first, second)` with the guard of the source removed: after
        it, `first` precedes `second`, also when they are the same node. */
    static method Link(first: Node<T>, second: Node<T>)
      modifies first`next, second`prev
      ensures first.next == second && second.prev == first
    {
      first.next := second;
      second.prev := first;
    }

    /** `link(first, second)` as the source writes it: nothing happens when
        `first == second`, so the documented postcondition fails for a node
        that is not already linked to itself. */
    static method LinkAsWritten(first: Node<T>, second: Node<T>)
      modifies first`next, second`prev
      ensures first != second ==> first.next == second && second.prev == first
      ensures first == second ==> first.next == old(first.next) && first.prev == old(first.prev)
    {
      if first != second {
        first.next := second;
        second.prev := first;
      }
    }

    /** The destructor: the node's neighbours are linked to each other,
        which splices the node out of its ring. The node's own links are
        left as they were. The source's branch for a null `next` is not
        modelled: inside a ring both links are always set. */
    method Unlink()
      requires prev != null && next != null
      modifies prev`next, next`prev
      ensures old(prev).next == old(next) && old(next).prev == old(prev)
    {
      next.prev := prev;
      prev.next := next;
    }
  }

  /** The discrepancy of `link(x, x)`: in a ring of two nodes, asking to link
      the first node to itself leaves it pointing at the second one. */
  method LinkSelfCounterexample<T>(a: T, b: T) returns (d: Node<T>, n: Node<T>)
    ensures d != n && d.next == n
  {
    d := new Node(a);
    n := new Node(b);
    Node.Link(d, n);
    Node.Link(n, d);
    Node.LinkAsWritten(d, d);
  }

  /** The same request made of the corrected `Link` does link the node to
      itself. */
  method LinkSelfCorrected<T>(a: T, b: T) returns (d: Node<T>, n: Node<T>)
    ensures d != n && d.next == d && d.prev == d
  {
    d := new Node(a);
    n := new Node(b);
    Node.Link(d, n);
    Node.Link(n, d);
    Node.Link(d, d);
  }
}
