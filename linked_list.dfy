/** `LinkedList<T>`: a doubly-linked, circular chain of nodes that always
    holds one dummy node. `tail` is the dummy; `tail.next` is the first
    element and `tail.prev` the last, or the dummy itself when the list is
    empty. The ghost sequence `nodes` lists the element nodes in order, so
    `nodes[i]` holds element `i`. */
module Lists {
  import opened Nodes
  import opened Rings
  import opened ListSpec
  import opened Iterators
  import opened ConstIterators

  class LinkedList<T> {
    /** The logical size; the dummy is not counted. */
    var size: uint32
    /** The dummy node, owned by the list for its whole life. */
    var tail: Node<T>

    ghost var nodes: seq<Node<T>>
    ghost var Repr: set<Node<T>>

    /** The structural invariant, stated of the list's own fields. */
    ghost predicate Valid()
      reads this, Repr`next, Repr`prev
    {
      Ring(tail, nodes, Repr) && size as int == |nodes|
    }

    /** The elements, in chain order from the first node after the dummy.
        They depend on the nodes' items only, not on their links. */
    ghost function Contents(): seq<T>
      reads this, nodes`item
    {
      ItemsOf(nodes)
    }

    /** The default constructor: the dummy node, linked to itself, and no
        elements. The source's version sets `mTail` to null and allocates
        no dummy (src/LinkedList.cpp:15), so every later operation would
        dereference null; this is the documented behaviour instead. */
    constructor (blank: T)
      ensures Valid() && Contents() == [] && fresh(Repr)
    {
      var dummy := new Node(blank);
      tail := dummy;
      size := 0;
      nodes := [];
      Repr := {dummy};
    }

    /** The copy constructor: a fresh chain, built by appending a copy of
        each of `src`'s items in order, so the copy shares no node with
        `src` and `src` is left as it was. The source's version does not
        compile (src/LinkedList.cpp:29-34); this is the documented one. */
    constructor Copy(src: LinkedList<T>)
      requires src.Valid()
      ensures Valid() && Contents() == src.Contents() && fresh(Repr)
    {
      var dummy := new Node(src.tail.item);
      tail := dummy;
      size := 0;
      nodes := [];
      Repr := {dummy};
      new;
      // Snapshot of `src`'s ring: its links and items are not touched.
      ghost var t0, ns0, r0, items := src.tail, src.nodes, src.Repr, src.Contents();
      assert t0 == At(t0, ns0, -1);
      var p: Node<T> := src.tail.next;
      ghost var k := 0;
      while p != src.tail
        invariant Ring(t0, ns0, r0) && ItemsOf(ns0) == items && src.tail == t0
        invariant Valid() && fresh(Repr) && tail == dummy && Repr !! r0
        invariant 0 <= k <= |ns0| && size as int == k
        invariant p == At(t0, ns0, k)
        invariant Contents() == items[..k]
        decreases |ns0| - k
      {
        assert p.item == items[k];
        Append(p.item);
        TakeOneMore(items, k);
        p := p.next;
        k := k + 1;
      }
    }

    /** `size()`: the number of elements. */
    function Size(): (n: uint32)
      reads this, Repr
      requires Valid()
      ensures n as int == |Contents()|
    {
      size
    }

    /** `isEmpty()`: true exactly when there are no elements. */
    function IsEmpty(): (r: bool)
      reads this, Repr
      requires Valid()
      ensures r <==> Contents() == []
    {
      size == 0
    }

    /** `rangeCheck(index)`: the out-of-range failure, carrying the index,
        exactly when `index` is not below the size. */
    function RangeCheck(index: uint32): (r: Outcome)
      reads this, Repr
      requires Valid()
      ensures r == Pass <==> index as int < |Contents()|
      ensures r != Pass ==> r == Fail(OutOfRange(index))
    {
      if index < size then Pass else Fail(OutOfRange(index))
    }

    /** The walk `get`, `set` and `remove` make: `index` steps along `next`
        from the first element. */
    method NodeAt(index: uint32) returns (n: Node<T>)
      requires Valid() && index < size
      ensures n == nodes[index]
    {
      assert tail == At(tail, nodes, -1);
      n := tail.next;
      var k: uint32 := 0;
      while k < index
        invariant Valid() && k <= index && n == At(tail, nodes, k as int)
      {
        n := n.next;
        k := k + 1;
      }
    }

    /** `get(index)`: the element at `index`, or the out-of-range failure. */
    method Get(index: uint32) returns (r: Result<T>)
      requires Valid()
      ensures index as int < |Contents()| ==> r == Ok(Contents()[index])
      ensures index as int >= |Contents()| ==> r == Err(OutOfRange(index))
    {
      var check := RangeCheck(index);
      if check.Fail? {
        return Err(check.error);
      }
      var n := NodeAt(index);
      r := Ok(n.item);
    }

    /** `set(index, value)`: overwrite the element at `index` in place;
        out of range, fail and change nothing. */
    method Set(index: uint32, value: T) returns (r: Outcome)
      requires Valid()
      modifies Repr`item
      ensures Valid() && r == old(RangeCheck(index))
      ensures Contents() == if index as int < |old(Contents())|
                            then old(Contents())[index := value]
                            else old(Contents())
    {
      r := RangeCheck(index);
      if r.Fail? {
        return;
      }
      var n := NodeAt(index);
      n.item := value;
    }

    /** `add(value)`: a new node between the last element and the dummy,
        in constant time. */
    method Append(value: T)
      requires Valid() && size as int < MaxSize
      modifies this, Repr`next, Repr`prev
      ensures Valid() && tail == old(tail)
      ensures fresh(Repr - old(Repr)) && old(Repr) <= Repr
      ensures Contents() == old(Contents()) + [value]
    {
      assert tail == At(tail, nodes, |nodes|);
      var last: Node<T> := tail.prev;
      Splice(|nodes|, last, value);
    }

    /** A new node in front of the element at `index`. */
    method InsertBefore(index: uint32, value: T)
      requires Valid() && index < size && size as int < MaxSize
      modifies this, Repr`next, Repr`prev
      ensures Valid() && tail == old(tail)
      ensures fresh(Repr - old(Repr)) && old(Repr) <= Repr
      ensures Contents() == old(Contents())[..index] + [value] + old(Contents())[index..]
    {
      var cur := NodeAt(index);
      assert cur == At(tail, nodes, index as int);
      var before: Node<T> := cur.prev;
      Splice(index as int, before, value);
    }

    /** The step `add(value)` and `add(index, value)` share: a new node
        holding `value`, made by the three-argument node constructor
        between `before` (position `k - 1`) and its successor. */
    method Splice(ghost k: nat, before: Node<T>, value: T)
      requires Valid() && k <= size as int && size as int < MaxSize
      requires before == At(tail, nodes, k - 1)
      modifies this, Repr`next, Repr`prev
      ensures Valid() && tail == old(tail)
      ensures fresh(Repr - old(Repr)) && old(Repr) <= Repr
      ensures Contents() == old(Contents())[..k] + [value] + old(Contents())[k..]
    {
      ghost var ns := nodes;
      var n := LinkIn(tail, ns, Repr, k, before, value);
      ItemsOfSplice(ns, k, n);
      nodes := ns[..k] + [n] + ns[k..];
      Repr := Repr + {n};
      size := size + 1;
    }

    /** `add(index, value)`: past the end, append `blank` (the source's
        `T()`) until the size reaches `index`; then insert the value at
        `index`, which at the end is an append. */
    method Insert(index: uint32, value: T, blank: T)
      requires Valid() && size as int < MaxSize && index as int < MaxSize
      modifies this, Repr`next, Repr`prev
      ensures Valid() && tail == old(tail) && old(Repr) <= Repr && fresh(Repr - old(Repr))
      ensures Contents() == InsertAt(old(Contents()), index as int, value, blank)
    {
      ghost var s := Contents();
      while size < index
        invariant Valid() && tail == old(tail) && old(Repr) <= Repr && fresh(Repr - old(Repr))
        invariant |s| <= size as int
        invariant size as int == |s| || size <= index
        invariant Contents() == s + Blanks(size as int - |s|, blank)
        decreases index as int - size as int
      {
        PadOneMore(s, size as int - |s|, blank);
        Append(blank);
      }
      if index == size {
        Append(value);
      } else {
        InsertBefore(index, value);
      }
    }

    /** `removeNode(iter)`: destroy the node `iter` points at, which splices
        it out of the ring, and count one element fewer. */
    method RemoveNode(iter: Iterator<T>, ghost index: nat)
      requires Valid() && index < size as int && iter.ptr == nodes[index]
      modifies this, Repr`next, Repr`prev
      ensures Valid() && tail == old(tail) && Repr == old(Repr) - {iter.ptr}
      ensures Contents() == RemoveAt(old(Contents()), index)
    {
      ghost var ns := nodes;
      var n := iter.ptr;
      LinkOut(tail, ns, Repr, index, n);
      ItemsOfDrop(ns, index);
      nodes := ns[..index] + ns[index + 1..];
      Repr := Repr - {n};
      size := size - 1;
    }

    /** `remove(index)`: delete the element at `index`; out of range, fail
        and change nothing. */
    method Remove(index: uint32) returns (r: Outcome)
      requires Valid()
      modifies this, Repr`next, Repr`prev
      ensures Valid() && tail == old(tail) && Repr <= old(Repr)
      ensures r == old(RangeCheck(index))
      ensures Contents() == if index as int < |old(Contents())|
                            then RemoveAt(old(Contents()), index as int)
                            else old(Contents())
    {
      r := RangeCheck(index);
      if r.Fail? {
        return;
      }
      var n := NodeAt(index);
      var iter := new Iterator(n);
      RemoveNode(iter, index as int);
    }

    /** `clear()`: remove the first element until none is left. The dummy
        stays, so the list is as the default constructor leaves it. */
    method Clear()
      requires Valid()
      modifies this, Repr`next, Repr`prev
      ensures Valid() && tail == old(tail) && Repr <= old(Repr)
      ensures Contents() == []
    {
      while size > 0
        invariant Valid() && tail == old(tail) && Repr <= old(Repr)
      {
        var first := Begin();
        RemoveNode(first, 0);
      }
    }

    /** `swap(other)`: exchange dummies and sizes in constant time. */
    method Swap(other: LinkedList<T>)
      requires Valid() && other.Valid()
      modifies this, other
      ensures Valid() && other.Valid()
      ensures Repr == old(other.Repr) && other.Repr == old(Repr)
      ensures Contents() == old(other.Contents()) && other.Contents() == old(Contents())
    {
      ghost var t0, ns0, r0 := tail, nodes, Repr;
      ghost var t1, ns1, r1 := other.tail, other.nodes, other.Repr;
      assert Ring(t0, ns0, r0) && Ring(t1, ns1, r1);
      tail, other.tail := other.tail, tail;
      size, other.size := other.size, size;
      nodes, other.nodes := other.nodes, nodes;
      Repr, other.Repr := other.Repr, Repr;
      assert Ring(t0, ns0, r0) && Ring(t1, ns1, r1);
    }

    /** `operator=`: a no-op on itself; otherwise build a copy of `rhs` and
        swap it in, so `rhs` is untouched and the list ends up with fresh
        nodes equal to `rhs`'s. It returns the list, for chaining. The
        source's version assigns to `this` and does not compile
        (src/LinkedList.cpp:51); this is the documented behaviour. */
    method Assign(rhs: LinkedList<T>) returns (self: LinkedList<T>)
      requires Valid() && rhs.Valid()
      modifies this
      ensures self == this && Valid() && rhs.Valid()
      ensures Contents() == old(rhs.Contents()) && rhs.Contents() == old(rhs.Contents())
      ensures rhs != this ==> fresh(Repr)
    {
      if rhs != this {
        var copy := new LinkedList.Copy(rhs);
        Swap(copy);
      }
      self := this;
    }

    /** `begin()`: an iterator at the first element (the dummy when empty). */
    method Begin() returns (it: Iterator<T>)
      requires Valid()
      ensures fresh(it) && it.ptr == At(tail, nodes, 0)
    {
      assert tail == At(tail, nodes, -1);
      it := new Iterator(tail.next);
    }

    /** `end()`: an iterator at the dummy, one past the last element. */
    method End() returns (it: Iterator<T>)
      requires Valid()
      ensures fresh(it) && it.ptr == tail
    {
      it := new Iterator(tail);
    }

    /** `begin() const`. */
    method ConstBegin() returns (it: ConstIterator<T>)
      requires Valid()
      ensures fresh(it) && it.ptr == At(tail, nodes, 0)
    {
      assert tail == At(tail, nodes, -1);
      it := new ConstIterator(tail.next);
    }

    /** `end() const`. */
    method ConstEnd() returns (it: ConstIterator<T>)
      requires Valid()
      ensures fresh(it) && it.ptr == tail
    {
      it := new ConstIterator(tail);
    }

    /** Every node of the ring is linked both ways: stepping forward and
        then back (or back and then forward) returns to the same node. */
    lemma Neighbours(i: int)
      requires Valid() && -1 <= i <= |nodes|
      ensures At(tail, nodes, i).next != null && At(tail, nodes, i).prev != null
      ensures At(tail, nodes, i).next.prev == At(tail, nodes, i)
      ensures At(tail, nodes, i).prev.next == At(tail, nodes, i)
    {
      var j := if i == |nodes| then -1 else i;
      assert At(tail, nodes, j) == At(tail, nodes, i);
      assert At(tail, nodes, j).next == At(tail, nodes, j + 1);
      var h := if i == -1 then |nodes| else i;
      assert At(tail, nodes, h) == At(tail, nodes, i);
      assert At(tail, nodes, h).prev == At(tail, nodes, h - 1);
    }

    /** In a non-empty list no node is its own successor: one step of
        `++` always moves an iterator to a different node. */
    lemma NextDiffers(i: int)
      requires Valid() && 0 < |nodes| && -1 <= i <= |nodes|
      ensures At(tail, nodes, i).next != At(tail, nodes, i)
    {
      Neighbours(i);
      AtDistinct(tail, nodes, Repr);
      var j := if i == |nodes| then -1 else i;
      assert At(tail, nodes, j) == At(tail, nodes, i);
      assert At(tail, nodes, j).next == At(tail, nodes, j + 1);
      if j + 1 == |nodes| {
        assert At(tail, nodes, j + 1) == At(tail, nodes, -1);
      }
    }

    /** Walking with an iterator from `begin()` until it equals `end()`
        reads exactly the elements, in order: as many steps as the
        size. */
    method Items() returns (items: seq<T>)
      requires Valid()
      ensures |items| == size as int
      ensures items == Contents()
    {
      var it := Begin();
      var end := End();
      items := [];
      ghost var all := Contents();
      ghost var k := 0;
      while it.NotEquals(end)
        invariant Valid() && fresh(it) && fresh(end) && end.ptr == tail
        invariant 0 <= k <= |nodes|
        invariant it.ptr == At(tail, nodes, k)
        invariant items == all[..k]
        decreases |nodes| - k
      {
        TakeOneMore(all, k);
        items := items + [it.Deref()];
        var _ := it.Increment();
        k := k + 1;
      }
    }

    /** The same walk with a const iterator. */
    method ConstItems() returns (items: seq<T>)
      requires Valid()
      ensures |items| == size as int
      ensures items == Contents()
    {
      var it := ConstBegin();
      var end := ConstEnd();
      items := [];
      ghost var all := Contents();
      ghost var k := 0;
      while it.NotEquals(end)
        invariant Valid() && fresh(it) && fresh(end) && end.ptr == tail
        invariant 0 <= k <= |nodes|
        invariant it.ptr == At(tail, nodes, k)
        invariant items == all[..k]
        decreases |nodes| - k
      {
        TakeOneMore(all, k);
        items := items + [it.Deref()];
        var _ := it.Increment();
        k := k + 1;
      }
    }
  }

  /** `operator==`: lists are equal when they have the same size and equal
      elements in order. The sizes are compared first, then the chains are
      walked side by side up to the first mismatch. */
  method Equal<T(==)>(a: LinkedList<T>, b: LinkedList<T>) returns (r: bool)
    requires a.Valid() && b.Valid()
    ensures r <==> a.Contents() == b.Contents()
  {
    if a.size != b.size {
      return false;
    }
    assert a.tail == At(a.tail, a.nodes, -1) && b.tail == At(b.tail, b.nodes, -1);
    var p: Node<T> := a.tail.next;
    var q: Node<T> := b.tail.next;
    ghost var k := 0;
    while p != a.tail
      invariant a.Valid() && b.Valid() && 0 <= k <= a.size as int
      invariant p == At(a.tail, a.nodes, k)
      invariant q == At(b.tail, b.nodes, k)
      invariant a.Contents()[..k] == b.Contents()[..k]
      decreases a.size as int - k
    {
      if p.item != q.item {
        assert a.Contents()[k] != b.Contents()[k];
        return false;
      }
      p := p.next;
      q := q.next;
      k := k + 1;
    }
    assert a.Contents() == a.Contents()[..k];
    assert b.Contents() == b.Contents()[..k];
    return true;
  }

  /** `operator!=`: the negation of `operator==`. */
  method NotEqual<T(==)>(a: LinkedList<T>, b: LinkedList<T>) returns (r: bool)
    requires a.Valid() && b.Valid()
    ensures r <==> a.Contents() != b.Contents()
  {
    var eq := Equal(a, b);
    r := !eq;
  }
}
