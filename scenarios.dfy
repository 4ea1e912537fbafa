/** The behaviours the list's test suite pins down, stated for all inputs
    rather than for the suite's own data. Each is proved from the contracts
    of the list's operations alone. */
module ListScenarios {
  import opened Rings
  import opened ListSpec
  import opened Iterators
  import opened ConstIterators
  import opened Lists

  /** A fresh list holding `data`, built by `add(value)` in order. */
  method FromSeq<T>(data: seq<T>, blank: T) returns (list: LinkedList<T>)
    requires |data| < MaxSize
    ensures fresh(list) && fresh(list.Repr)
    ensures list.Valid() && list.Contents() == data
  {
    list := new LinkedList(blank);
    for i := 0 to |data|
      invariant list.Valid() && fresh(list.Repr)
      invariant list.Contents() == data[..i]
    {
      TakeOneMore(data, i);
      list.Append(data[i]);
    }
  }

  /** A default-constructed list has size 0 and is empty, and `clear()`
      on it leaves it so, as often as it is called. */
  method EmptyStates<T>(blank: T) returns (sizeNew: uint32, emptyNew: bool, sizeCleared: uint32, emptyCleared: bool)
    ensures sizeNew == 0 && emptyNew && sizeCleared == 0 && emptyCleared
  {
    var list := new LinkedList(blank);
    sizeNew, emptyNew := list.Size(), list.IsEmpty();
    list.Clear();
    list.Clear();
    sizeCleared, emptyCleared := list.Size(), list.IsEmpty();
  }

  /** Copy construction followed by `clear()` on the copy: the copy is
      empty, and the original still holds what it held, since the two
      share no node. */
  method CopyThenClear<T>(data: seq<T>, blank: T) returns (original: LinkedList<T>, copy: LinkedList<T>)
    requires |data| < MaxSize
    ensures original.Valid() && copy.Valid()
    ensures original.Contents() == data && copy.Contents() == []
  {
    original := FromSeq(data, blank);
    copy := new LinkedList.Copy(original);
    assert copy.Contents() == data;
    copy.Clear();
  }

  /** A default-constructed list assigned from `src`, as each `x = y` of
      a chain does to a list declared before it. */
  method AssignedFrom<T>(src: LinkedList<T>, blank: T) returns (dst: LinkedList<T>)
    requires src.Valid()
    ensures fresh(dst) && fresh(dst.Repr) && dst.Valid() && src.Valid()
    ensures dst.Contents() == src.Contents()
  {
    dst := new LinkedList(blank);
    dst := dst.Assign(src);
  }

  /** Chained assignment `d = c = b = a`: every list ends up equal to `a`,
      and `a` is unchanged. */
  method ChainedAssignment<T>(data: seq<T>, blank: T)
    returns (a: LinkedList<T>, b: LinkedList<T>, c: LinkedList<T>, d: LinkedList<T>)
    requires |data| < MaxSize
    ensures a.Valid() && b.Valid() && c.Valid() && d.Valid()
    ensures a.Contents() == data && b.Contents() == data
    ensures c.Contents() == data && d.Contents() == data
  {
    a := FromSeq(data, blank);
    b := AssignedFrom(a, blank);
    c := AssignedFrom(b, blank);
    d := AssignedFrom(c, blank);
  }

  /** Self-assignment `l = l` leaves the list as it was. */
  method SelfAssignment<T>(data: seq<T>, blank: T) returns (l: LinkedList<T>, same: bool)
    requires |data| < MaxSize
    ensures l.Valid() && l.Contents() == data && same
  {
    l := FromSeq(data, blank);
    var r := l.Assign(l);
    same := r == l;
  }

  /** `==` takes the size into account: a list and the same list with one
      more element at the end are unequal, and `!=` says so. */
  method EqualityAccountsForSize<T(==)>(data: seq<T>, extra: T, blank: T) returns (eq: bool, ne: bool)
    requires |data| + 1 < MaxSize
    ensures !eq && ne
  {
    var shorter := FromSeq(data, blank);
    var longer := FromSeq(data + [extra], blank);
    eq := Equal(shorter, longer);
    ne := NotEqual(shorter, longer);
  }

  /** Two lists built by the same `add` calls, sharing no node. */
  method Twins<T>(data: seq<T>, blank: T) returns (first: LinkedList<T>, second: LinkedList<T>)
    requires |data| < MaxSize
    ensures fresh(first) && fresh(first.Repr) && fresh(second) && fresh(second.Repr)
    ensures first != second && first.Repr !! second.Repr
    ensures first.Valid() && second.Valid()
    ensures first.Contents() == data && second.Contents() == data
  {
    first := FromSeq(data, blank);
    second := FromSeq(data, blank);
  }

  /** Two lists built by the same `add` calls are equal; `remove` of an
      element of one of them makes them unequal. */
  method RemoveBreaksEquality<T(==)>(data: seq<T>, index: uint32, blank: T) returns (before: bool, after: bool)
    requires |data| < MaxSize && index as int < |data|
    ensures before && !after
  {
    var first, second := Twins(data, blank);
    before := Equal(first, second);
    var r := first.Remove(index);
    after := Equal(first, second);
  }

  /** `remove(0)` on an empty list fails with the index and changes
      nothing. */
  method RemoveFromEmpty<T>(blank: T) returns (r: Outcome, l: LinkedList<T>)
    ensures r == Fail(OutOfRange(0))
    ensures l.Valid() && l.Contents() == []
  {
    l := new LinkedList(blank);
    r := l.Remove(0);
  }

  /** Call `i` of the "Add" test: `add(2 * i, i + 1)`. */
  method AddStep(list: LinkedList<int>, i: nat)
    requires list.Valid() && list.Contents() == Interleaved(i) && 2 * i + 2 < MaxSize
    modifies list, list.Repr`next, list.Repr`prev
    ensures list.Valid() && fresh(list.Repr - old(list.Repr))
    ensures list.Contents() == Interleaved(i + 1)
  {
    InterleavedLength(i);
    list.Insert((2 * i) as uint32, i + 1, 0);
  }

  /** `n` calls `add(2 * i, i + 1)` on an empty list (the suite makes
      ten) give `Interleaved(n)`, which `InterleavedShape` shows to be
      `1 0 2 0 ... 0 n`: every call past the end pads with one `0`. */
  method AddInterleaved(n: nat) returns (list: LinkedList<int>)
    requires 2 * n < MaxSize
    ensures list.Valid() && list.Contents() == Interleaved(n)
  {
    list := new LinkedList(0);
    for i := 0 to n
      invariant list.Valid() && fresh(list.Repr)
      invariant list.Contents() == Interleaved(i)
    {
      ghost var r0 := list.Repr;
      AddStep(list, i);
      assert fresh(list.Repr - r0) && fresh(r0);
    }
  }

  /** `set` followed by `get` at the same index reads back the value set;
      out of range both fail with that index. */
  method SetThenGet<T>(data: seq<T>, blank: T, index: uint32, value: T) returns (s: Outcome, g: Result<T>)
    requires |data| < MaxSize
    ensures s == Pass <==> index as int < |data|
    ensures index as int < |data| ==> g == Ok(value)
    ensures index as int >= |data| ==> s == Fail(OutOfRange(index)) && g == Err(OutOfRange(index))
  {
    var list := FromSeq(data, blank);
    s := list.Set(index, value);
    g := list.Get(index);
  }

  /** Writing `data` through an iterator from `begin()`, one element per
      step (what `std::copy` into the list does), overwrites the first
      `|data|` elements in place and leaves the rest and the links alone. */
  method StoreThrough<T>(list: LinkedList<T>, data: seq<T>)
    requires list.Valid() && |data| <= |list.Contents()|
    modifies list.Repr`item
    ensures list.Valid()
    ensures list.Contents() == data + old(list.Contents())[|data|..]
  {
    ghost var ns, c0 := list.nodes, list.Contents();
    var it := list.Begin();
    for i := 0 to |data|
      invariant list.Valid() && fresh(it)
      invariant it.ptr == At(list.tail, ns, i)
      invariant forall j :: 0 <= j < i ==> ns[j].item == data[j]
      invariant forall j :: i <= j < |ns| ==> ns[j].item == c0[j]
    {
      list.Neighbours(i);
      it.Store(data[i]);
      var self := it.Increment();
    }
    ghost var want := data + c0[|data|..];
    assert forall j :: 0 <= j < |ns| ==> list.Contents()[j] == want[j];
  }

  /** `i++` then `i--`, and `++i` then `--i`, on an iterator into the
      list: each step forward leaves the start when the list is not
      empty, and each step back returns to an iterator equal to it. */
  method StepRoundTrip<T>(list: LinkedList<T>, it: Iterator<T>, ghost i: int)
      returns (apartAfterPost: bool, backAfterPost: bool, apartAfterPre: bool, backAfterPre: bool)
    requires list.Valid() && -1 <= i <= |list.nodes| && it.ptr == At(list.tail, list.nodes, i)
    modifies it
    ensures backAfterPost && backAfterPre && it.ptr == old(it.ptr)
    ensures |list.nodes| > 0 ==> apartAfterPost && apartAfterPre
  {
    list.Neighbours(i);
    if |list.nodes| > 0 {
      list.NextDiffers(i);
    }
    var start := new Iterator(it.ptr);
    var before := it.PostIncrement();
    apartAfterPost := it.NotEquals(start);
    before := it.PostDecrement();
    backAfterPost := it.Equals(start);
    var self := it.Increment();
    apartAfterPre := self.NotEquals(start);
    self := it.Decrement();
    backAfterPre := self.Equals(start);
  }

  /** The same round trips with a const iterator. */
  method ConstStepRoundTrip<T>(list: LinkedList<T>, it: ConstIterator<T>, ghost i: int)
      returns (apartAfterPost: bool, backAfterPost: bool, apartAfterPre: bool, backAfterPre: bool)
    requires list.Valid() && -1 <= i <= |list.nodes| && it.ptr == At(list.tail, list.nodes, i)
    modifies it
    ensures backAfterPost && backAfterPre && it.ptr == old(it.ptr)
    ensures |list.nodes| > 0 ==> apartAfterPost && apartAfterPre
  {
    list.Neighbours(i);
    if |list.nodes| > 0 {
      list.NextDiffers(i);
    }
    var start := new ConstIterator(it.ptr);
    var before := it.PostIncrement();
    apartAfterPost := it.NotEquals(start);
    before := it.PostDecrement();
    backAfterPost := it.Equals(start);
    var self := it.Increment();
    apartAfterPre := self.NotEquals(start);
    self := it.Decrement();
    backAfterPre := self.Equals(start);
  }
}
