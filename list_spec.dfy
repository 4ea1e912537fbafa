/** The abstract value of a list is the sequence of its elements. This
    module states what each list operation does to that sequence, and
    proves the properties the list's documentation and tests promise. */
module ListSpec {

  /** The source's `uint32_t`, used for sizes and indices. */
  type uint32 = x: int | 0 <= x < 0x1_0000_0000

  /** The largest value a `uint32_t` size can hold. */
  const MaxSize: int := 0xFFFF_FFFF

  /** The out-of-range condition, carrying the offending index. */
  datatype Error = OutOfRange(index: uint32)

  /** What `get` returns or throws. */
  datatype Result<T> = Ok(value: T) | Err(error: Error)

  /** What `set`, `remove` and `rangeCheck` return or throw. */
  datatype Outcome = Pass | Fail(error: Error)

  /** `n` copies of the default value `blank` (the source's `T()`). */
  function Blanks<T>(n: nat, blank: T): (r: seq<T>)
    ensures |r| == n
    ensures forall i :: 0 <= i < n ==> r[i] == blank
  {
    if n == 0 then [] else Blanks(n - 1, blank) + [blank]
  }

  /** `add(index, value)`: insert before position `index` when it is in
      range; beyond the end, pad with `blank` up to `index` first. */
  function InsertAt<T>(s: seq<T>, index: nat, value: T, blank: T): seq<T>
  {
    if index <= |s| then s[..index] + [value] + s[index..]
    else s + Blanks(index - |s|, blank) + [value]
  }

  /** `remove(index)` on an index in range. */
  function RemoveAt<T>(s: seq<T>, index: nat): seq<T>
    requires index < |s|
  {
    s[..index] + s[index + 1..]
  }

  /** `add(index, value)` with `index <= size`: the value lands at `index`,
      the elements before it stay, those at or after it move right by one. */
  lemma InsertInRange<T>(s: seq<T>, index: nat, value: T, blank: T)
    requires index <= |s|
    ensures |InsertAt(s, index, value, blank)| == |s| + 1
    ensures InsertAt(s, index, value, blank)[index] == value
    ensures forall j :: 0 <= j < index ==> InsertAt(s, index, value, blank)[j] == s[j]
    ensures forall j :: index < j <= |s| ==> InsertAt(s, index, value, blank)[j] == s[j - 1]
  {
  }

  /** `add(index, value)` with `index > size`: the size becomes `index + 1`,
      the old elements keep their places, the gap holds `blank` and
      position `index` holds the value. */
  lemma InsertPastEnd<T>(s: seq<T>, index: nat, value: T, blank: T)
    requires |s| < index
    ensures |InsertAt(s, index, value, blank)| == index + 1
    ensures InsertAt(s, index, value, blank)[index] == value
    ensures forall j :: 0 <= j < |s| ==> InsertAt(s, index, value, blank)[j] == s[j]
    ensures forall j :: |s| <= j < index ==> InsertAt(s, index, value, blank)[j] == blank
  {
  }

  /** Inserting at `size` gives the same list as appending the value. */
  lemma InsertAtEndIsAppend<T>(s: seq<T>, value: T, blank: T)
    ensures InsertAt(s, |s|, value, blank) == s + [value]
  {
  }

  /** Padding is appending blanks one at a time and then the value: the
      form the list's loop takes. */
  lemma PadOneMore<T>(s: seq<T>, n: nat, blank: T)
    ensures s + Blanks(n, blank) + [blank] == s + Blanks(n + 1, blank)
  {
  }

  /** `remove(index)`: the size drops by one and the other elements keep
      their order. */
  lemma RemoveShifts<T>(s: seq<T>, index: nat)
    requires index < |s|
    ensures |RemoveAt(s, index)| == |s| - 1
    ensures forall j :: 0 <= j < index ==> RemoveAt(s, index)[j] == s[j]
    ensures forall j :: index <= j < |s| - 1 ==> RemoveAt(s, index)[j] == s[j + 1]
  {
  }

  /** Removing what was just inserted in range gives the list back. */
  lemma RemoveUndoesInsert<T>(s: seq<T>, index: nat, value: T, blank: T)
    requires index <= |s|
    ensures index < |InsertAt(s, index, value, blank)|
    ensures RemoveAt(InsertAt(s, index, value, blank), index) == s
  {
  }

  /** A prefix grows by the next element. */
  lemma TakeOneMore<T>(s: seq<T>, k: nat)
    requires k < |s|
    ensures s[..k + 1] == s[..k] + [s[k]]
  {
  }

  /** The "Add" test: ten calls `add(2 * i, i + 1)` on an empty list give
      `1 0 2 0 ... 0 10`: every call past the end pads with one `0`. */
  function Interleaved(n: nat): (r: seq<int>)
  {
    if n == 0 then [] else InsertAt(Interleaved(n - 1), 2 * (n - 1), n, 0)
  }

  lemma {:induction false} InterleavedLength(n: nat)
    ensures |Interleaved(n)| == if n == 0 then 0 else 2 * n - 1
  {
    if n > 0 {
      InterleavedLength(n - 1);
    }
  }

  lemma {:induction false} InterleavedShape(n: nat)
    ensures |Interleaved(n)| == if n == 0 then 0 else 2 * n - 1
    ensures forall j :: 0 <= j < |Interleaved(n)| ==>
              Interleaved(n)[j] == if j % 2 == 0 then j / 2 + 1 else 0
  {
    InterleavedLength(n);
    if n > 0 {
      InterleavedShape(n - 1);
      var s := Interleaved(n - 1);
      if n == 1 {
        assert Interleaved(n) == [1];
      } else {
        InsertPastEnd(s, 2 * (n - 1), n, 0);
      }
    }
  }

  /** The "Add" test with strings: `add(90, "qwerty")` on an empty list
      gives ninety blanks followed by the value. */
  lemma PadEmpty<T>(index: nat, value: T, blank: T)
    ensures InsertAt([], index, value, blank) == Blanks(index, blank) + [value]
  {
  }
}
