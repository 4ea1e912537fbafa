/** The shape of the list's node chain: a circular, doubly-linked ring made
    of one dummy node followed by the element nodes, and the facts about
    splicing one node into it or out of it. */
module Rings {
  import opened Nodes

  /** Position `i` of the ring seen from the dummy: element node `i` for
      `0 <= i < |nodes|`, and the dummy on either side of them. */
  ghost function At<T>(tail: Node<T>, nodes: seq<Node<T>>, i: int): Node<T>
    requires -1 <= i <= |nodes|
  {
    if 0 <= i < |nodes| then nodes[i] else tail
  }

  /** The part of the ring invariant that does not depend on the links:
      the dummy and every element node belong to the footprint `repr`, no
      element node is the dummy, and no node occurs twice. */
  ghost predicate Shape<T>(tail: Node<T>, nodes: seq<Node<T>>, repr: set<Node<T>>)
  {
    && tail in repr
    && (forall i :: 0 <= i < |nodes| ==> nodes[i] in repr)
    && (forall i :: 0 <= i < |nodes| ==> nodes[i] != tail)
    && (forall i, j :: 0 <= i < j < |nodes| ==> nodes[i] != nodes[j])
  }

  /** The ring invariant: `tail` followed by `nodes` is a ring in which
      every node's `next` is the node after it and its `prev` the node
      before it, wrapping round at the dummy. Items play no part in it. */
  ghost predicate Ring<T>(tail: Node<T>, nodes: seq<Node<T>>, repr: set<Node<T>>)
    reads repr`next, repr`prev
  {
    && Shape(tail, nodes, repr)
    && (forall i {:trigger At(tail, nodes, i).next} ::
          -1 <= i < |nodes| ==> At(tail, nodes, i).next == At(tail, nodes, i + 1))
    && (forall i {:trigger At(tail, nodes, i).prev} ::
          0 <= i <= |nodes| ==> At(tail, nodes, i).prev == At(tail, nodes, i - 1))
  }

  /** Distinct positions of one lap of the ring hold distinct nodes. */
  lemma AtDistinct<T>(tail: Node<T>, nodes: seq<Node<T>>, repr: set<Node<T>>)
    requires Shape(tail, nodes, repr)
    ensures forall i, j :: -1 <= i < j < |nodes| ==> At(tail, nodes, i) != At(tail, nodes, j)
  {
  }

  /** The items held by a run of nodes, in order. */
  ghost function ItemsOf<T>(ns: seq<Node<T>>): (s: seq<T>)
    reads ns`item
    ensures |s| == |ns|
    ensures forall i :: 0 <= i < |ns| ==> s[i] == ns[i].item
  {
    if ns == [] then [] else [ns[0].item] + ItemsOf(ns[1..])
  }

  /** A node `n` from outside the ring, put between positions `k - 1` and
      `k` by setting exactly those two links both ways, makes a ring with
      one more node. */
  lemma InsertKeepsRing<T>(tail: Node<T>, ns: seq<Node<T>>, repr: set<Node<T>>, k: nat, n: Node<T>)
    requires Shape(tail, ns, repr) && k <= |ns| && n !in repr
    requires forall i {:trigger At(tail, ns, i).next} ::
               -1 <= i < |ns| && i != k - 1 ==> At(tail, ns, i).next == At(tail, ns, i + 1)
    requires forall i {:trigger At(tail, ns, i).prev} ::
               0 <= i <= |ns| && i != k ==> At(tail, ns, i).prev == At(tail, ns, i - 1)
    requires At(tail, ns, k - 1).next == n && n.prev == At(tail, ns, k - 1)
    requires n.next == At(tail, ns, k) && At(tail, ns, k).prev == n
    ensures Ring(tail, ns[..k] + [n] + ns[k..], repr + {n})
  {
    var ns' := ns[..k] + [n] + ns[k..];
    assert forall i :: 0 <= i < k ==> ns'[i] == ns[i];
    assert forall i :: k < i <= |ns| ==> ns'[i] == ns[i - 1];
    forall i | -1 <= i < |ns'|
      ensures At(tail, ns', i).next == At(tail, ns', i + 1)
    {
      if i < k - 1 {
        assert At(tail, ns', i) == At(tail, ns, i) && At(tail, ns', i + 1) == At(tail, ns, i + 1);
      } else if i > k {
        assert At(tail, ns', i) == At(tail, ns, i - 1) && At(tail, ns', i + 1) == At(tail, ns, i);
      }
    }
    forall i | 0 <= i <= |ns'|
      ensures At(tail, ns', i).prev == At(tail, ns', i - 1)
    {
      if i < k {
        assert At(tail, ns', i) == At(tail, ns, i) && At(tail, ns', i - 1) == At(tail, ns, i - 1);
      } else if i > k + 1 {
        assert At(tail, ns', i) == At(tail, ns, i - 1) && At(tail, ns', i - 1) == At(tail, ns, i - 2);
      }
    }
  }

  /** Node `k`, taken out by linking its two neighbours to each other,
      leaves a ring of the remaining nodes; its own links do not matter. */
  lemma RemoveKeepsRing<T>(tail: Node<T>, ns: seq<Node<T>>, repr: set<Node<T>>, k: nat)
    requires Shape(tail, ns, repr) && k < |ns|
    requires forall i {:trigger At(tail, ns, i).next} ::
               -1 <= i < |ns| && i != k - 1 && i != k ==> At(tail, ns, i).next == At(tail, ns, i + 1)
    requires forall i {:trigger At(tail, ns, i).prev} ::
               0 <= i <= |ns| && i != k && i != k + 1 ==> At(tail, ns, i).prev == At(tail, ns, i - 1)
    requires At(tail, ns, k - 1).next == At(tail, ns, k + 1)
    requires At(tail, ns, k + 1).prev == At(tail, ns, k - 1)
    ensures Ring(tail, ns[..k] + ns[k + 1..], repr - {ns[k]})
  {
    var ns' := ns[..k] + ns[k + 1..];
    assert forall i :: 0 <= i < k ==> ns'[i] == ns[i];
    assert forall i :: k <= i < |ns'| ==> ns'[i] == ns[i + 1];
    forall i | -1 <= i < |ns'|
      ensures At(tail, ns', i).next == At(tail, ns', i + 1)
    {
      if i < k - 1 {
        assert At(tail, ns', i) == At(tail, ns, i) && At(tail, ns', i + 1) == At(tail, ns, i + 1);
      } else if i >= k {
        assert At(tail, ns', i) == At(tail, ns, i + 1) && At(tail, ns', i + 1) == At(tail, ns, i + 2);
      }
    }
    forall i | 0 <= i <= |ns'|
      ensures At(tail, ns', i).prev == At(tail, ns', i - 1)
    {
      if i < k {
        assert At(tail, ns', i) == At(tail, ns, i) && At(tail, ns', i - 1) == At(tail, ns, i - 1);
      } else if i > k {
        assert At(tail, ns', i) == At(tail, ns, i + 1) && At(tail, ns', i - 1) == At(tail, ns, i);
      }
    }
  }

  /** A new node holding `value`, made by the three-argument node
      constructor between position `k - 1` (`before`) and its successor:
      the ring gains it at position `k`, and no item changes. */
  method LinkIn<T>(ghost tail: Node<T>, ghost ns: seq<Node<T>>, ghost repr: set<Node<T>>, ghost k: nat,
                   before: Node<T>, value: T) returns (n: Node<T>)
    requires Ring(tail, ns, repr) && k <= |ns| && before == At(tail, ns, k - 1)
    modifies repr`next, repr`prev
    ensures fresh(n) && n.item == value
    ensures Ring(tail, ns[..k] + [n] + ns[k..], repr + {n})
  {
    AtDistinct(tail, ns, repr);
    var after: Node<T> := before.next;
    assert after == At(tail, ns, k);
    n := new Node.Between(value, before, after);
    forall i | -1 <= i < |ns| && i != k - 1
      ensures At(tail, ns, i).next == At(tail, ns, i + 1)
    {
      assert At(tail, ns, i) != before;
      assert old(At(tail, ns, i).next) == At(tail, ns, i + 1);
    }
    forall i | 0 <= i <= |ns| && i != k
      ensures At(tail, ns, i).prev == At(tail, ns, i - 1)
    {
      assert At(tail, ns, i) != after by {
        if i < |ns| {
          assert At(tail, ns, i) != At(tail, ns, k) by {
            if i < k { } else { }
          }
        }
      }
      assert old(At(tail, ns, i).prev) == At(tail, ns, i - 1);
    }
    InsertKeepsRing(tail, ns, repr, k, n);
  }

  /** The node at position `k` destroyed: its neighbours are linked to
      each other, so the ring loses it, and no item changes. */
  method LinkOut<T>(ghost tail: Node<T>, ghost ns: seq<Node<T>>, ghost repr: set<Node<T>>, ghost k: nat,
                    n: Node<T>)
    requires Ring(tail, ns, repr) && k < |ns| && n == ns[k]
    modifies repr`next, repr`prev
    ensures Ring(tail, ns[..k] + ns[k + 1..], repr - {n})
  {
    AtDistinct(tail, ns, repr);
    assert n == At(tail, ns, k);
    ghost var before, after := At(tail, ns, k - 1), At(tail, ns, k + 1);
    n.Unlink();
    forall i | -1 <= i < |ns| && i != k - 1 && i != k
      ensures At(tail, ns, i).next == At(tail, ns, i + 1)
    {
      assert At(tail, ns, i) != before;
      assert old(At(tail, ns, i).next) == At(tail, ns, i + 1);
    }
    forall i | 0 <= i <= |ns| && i != k && i != k + 1
      ensures At(tail, ns, i).prev == At(tail, ns, i - 1)
    {
      assert At(tail, ns, i) != after by {
        if i < |ns| && k + 1 < |ns| {
          assert At(tail, ns, i) != At(tail, ns, k + 1) by {
            if i < k + 1 { } else { }
          }
        }
      }
      assert old(At(tail, ns, i).prev) == At(tail, ns, i - 1);
    }
    RemoveKeepsRing(tail, ns, repr, k);
  }

  /** The items after putting `n` in at position `k`. */
  lemma {:induction false} ItemsOfSplice<T>(ns: seq<Node<T>>, k: nat, n: Node<T>)
    requires k <= |ns|
    ensures ItemsOf(ns[..k] + [n] + ns[k..]) == ItemsOf(ns)[..k] + [n.item] + ItemsOf(ns)[k..]
  {
  }

  /** The items after taking node `k` out. */
  lemma {:induction false} ItemsOfDrop<T>(ns: seq<Node<T>>, k: nat)
    requires k < |ns|
    ensures ItemsOf(ns[..k] + ns[k + 1..]) == ItemsOf(ns)[..k] + ItemsOf(ns)[k + 1..]
  {
  }
}
