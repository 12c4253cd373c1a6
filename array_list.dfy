/** A growable array list: elements live in slots `[0, size)` of a backing buffer that starts with
    ten slots and doubles whenever it is full. */
module ArrayList {
  import opened Outcomes
  import opened Sequences
  import opened Ordering

  /** Capacity of the buffer of a new list. */
  const InitialCapacity: nat := 10

  class MyArrayList<E(!new)> {
    /** The backing buffer (the field `array` of the Java class); `None` is an empty (null) slot. */
    var buffer: array<Option<E>>
    /** The number of elements in the list. */
    var size: nat
    /** The elements of the list, in index order. */
    ghost var Contents: seq<E>

    /** The representation invariant: the buffer never has fewer than ten slots, holds the
        elements in its first `size` slots, and constrains nothing beyond them. */
    ghost predicate Valid()
      reads this, buffer
      ensures Valid() ==> |Contents| <= buffer.Length
    {
      && InitialCapacity <= buffer.Length
      && size <= buffer.Length
      && |Contents| == size
      && forall k :: 0 <= k < size ==> buffer[k] == Some(Contents[k])
    }

    /** An empty list over a fresh buffer of ten empty slots. */
    constructor ()
      ensures Valid() && fresh(buffer)
      ensures Contents == [] && size == 0
      ensures buffer.Length == InitialCapacity
      ensures forall k :: 0 <= k < buffer.Length ==> buffer[k] == None
    {
      buffer := new Option<E>[InitialCapacity](_ => None);
      size := 0;
      Contents := [];
    }

    /** Replaces the buffer by a fresh one of twice the length holding the same first `size` slots. */
    method IncreaseCapacity()
      requires Valid()
      modifies this
      ensures Valid() && fresh(buffer)
      ensures buffer.Length == 2 * old(buffer.Length)
      ensures size == old(size) && Contents == old(Contents)
      ensures forall k :: 0 <= k < size ==> buffer[k] == old(buffer[k])
      ensures forall k :: size <= k < buffer.Length ==> buffer[k] == None
    {
      var newArray := new Option<E>[2 * buffer.Length](_ => None);
      var i := 0;
      while i < size
        invariant 0 <= i <= size
        invariant forall k :: 0 <= k < i ==> newArray[k] == buffer[k]
        invariant forall k :: i <= k < newArray.Length ==> newArray[k] == None
        modifies newArray
      {
        newArray[i] := buffer[i];
        i := i + 1;
      }
      buffer := newArray;
    }

    /** Appends `element`, first doubling the buffer when it is full. */
    method Add(element: E)
      requires Valid()
      modifies this, buffer
      ensures Valid()
      ensures Contents == old(Contents) + [element] && size == old(size) + 1
      ensures old(size) < old(buffer.Length) ==> buffer == old(buffer)
      ensures old(size) == old(buffer.Length) ==> fresh(buffer) && buffer.Length == 2 * old(buffer.Length)
      ensures old(size) < old(buffer.Length) ==> forall k :: size <= k < buffer.Length ==> buffer[k] == old(buffer[k])
    {
      if size == buffer.Length {
        IncreaseCapacity();
      }
      buffer[size] := Some(element);
      size := size + 1;
      Contents := Contents + [element];
    }

    /** Inserts `element` at `index`, moving the elements from `index` on one slot to the right
        (highest slot first); fails, changing nothing, unless `0 <= index <= size`. */
    method AddAt(index: int, element: E) returns (r: Outcome)
      requires Valid()
      modifies this, buffer
      ensures Valid()
      ensures r == if 0 <= index <= old(size) then Pass else Fail(IndexOutOfBounds(index, old(size)))
      ensures r.Fail? ==> unchanged(this) && unchanged(buffer)
      ensures r.Pass? ==> Contents == Inserted(old(Contents), index, element) && size == old(size) + 1
      ensures buffer.Length == (if r.Pass? && old(size) == old(buffer.Length) then 2 else 1) * old(buffer.Length)
      ensures r.Pass? && old(size) < old(buffer.Length) ==> buffer == old(buffer)
      ensures r.Pass? && old(size) == old(buffer.Length) ==> fresh(buffer)
      ensures r.Pass? && old(size) < old(buffer.Length) ==> forall k :: size <= k < buffer.Length ==> buffer[k] == old(buffer[k])
    {
      if index < 0 || index > size {
        return Fail(IndexOutOfBounds(index, size));
      }
      if size == buffer.Length {
        IncreaseCapacity();
      }
      ghost var before := buffer[..];
      var k := size;
      while k > index
        invariant index <= k <= size
        invariant forall m :: 0 <= m < k ==> buffer[m] == before[m]
        invariant forall m :: k < m <= size ==> buffer[m] == before[m - 1]
        invariant forall m :: size < m < buffer.Length ==> buffer[m] == before[m]
        modifies buffer
        decreases k
      {
        buffer[k] := buffer[k - 1];
        k := k - 1;
      }
      buffer[index] := Some(element);
      size := size + 1;
      Contents := Inserted(Contents, index, element);
      r := Pass;
    }

    /** The element at `index`; fails unless `0 <= index < size`. Changes nothing. */
    method Get(index: int) returns (r: Result<E>)
      requires Valid()
      ensures r == if 0 <= index < |Contents| then Ok(Contents[index]) else Err(IndexOutOfBounds(index, |Contents|))
    {
      if index < 0 || index >= size {
        return Err(IndexOutOfBounds(index, size));
      }
      return Ok(buffer[index].value);
    }

    /** Removes the element at `index`, moving the later elements one slot to the left (lowest slot
        first); fails, changing nothing, unless `0 <= index < size`. The slot that falls out of the
        list keeps its old element: it is not cleared. */
    method Remove(index: int) returns (r: Outcome)
      requires Valid()
      modifies this, buffer
      ensures Valid() && buffer == old(buffer)
      ensures r == if 0 <= index < old(size) then Pass else Fail(IndexOutOfBounds(index, old(size)))
      ensures r.Fail? ==> unchanged(this) && unchanged(buffer)
      ensures r.Pass? ==> Contents == Removed(old(Contents), index) && size == old(size) - 1
      ensures r.Pass? ==> buffer[size] == Some(old(Contents)[old(size) - 1])
      ensures forall k :: size < k < buffer.Length ==> buffer[k] == old(buffer[k])
    {
      if index < 0 || index >= size {
        return Fail(IndexOutOfBounds(index, size));
      }
      var k := index;
      while k < size - 1
        invariant index <= k <= size - 1
        invariant forall m :: 0 <= m < index ==> buffer[m] == old(buffer[m])
        invariant forall m :: index <= m < k ==> buffer[m] == old(buffer[m + 1])
        invariant forall m :: k <= m < buffer.Length ==> buffer[m] == old(buffer[m])
        modifies buffer
      {
        buffer[k] := buffer[k + 1];
        k := k + 1;
      }
      size := size - 1;
      Contents := Removed(Contents, index);
      r := Pass;
    }

    /** Selection sort of slots `[0, size)`: for each position, in turn, the first strictly least
        remaining element is swapped into it. `le(a, b)` plays `a.compareTo(b) <= 0`. */
    method Sort(le: (E, E) -> bool)
      requires Valid() && TotalPreorder(le)
      modifies this, buffer
      ensures Valid() && buffer == old(buffer) && size == old(size)
      ensures Sorted(le, Contents)
      ensures multiset(Contents) == multiset(old(Contents))
      ensures Sorted(le, old(Contents)) ==> Contents == old(Contents)
      ensures forall k :: size <= k < buffer.Length ==> buffer[k] == old(buffer[k])
    {
      ghost var original := Contents;
      ghost var wasSorted := Sorted(le, original);
      var i := 0;
      while i < size - 1
        invariant 0 <= i && (i == 0 || i < size)
        invariant Valid() && buffer == old(buffer) && size == old(size)
        invariant multiset(Contents) == multiset(original)
        invariant SelectedPrefix(le, Contents, i)
        invariant wasSorted ==> Contents == original
        invariant forall k :: size <= k < buffer.Length ==> buffer[k] == old(buffer[k])
      {
        SelectionRound(le, i);
        i := i + 1;
      }
      SelectionDone(le, Contents, i);
    }

    /** One round of the outer loop of the selection sort: the first least element of slots
        `[i, size)` is swapped into slot `i`, which extends the ordered prefix by one. A sorted list
        is left as it was. Slots past the size are not touched. */
    method SelectionRound(le: (E, E) -> bool, i: nat)
      requires Valid() && TotalPreorder(le)
      requires i < size - 1 && SelectedPrefix(le, Contents, i)
      modifies this, buffer
      ensures Valid() && buffer == old(buffer) && size == old(size)
      ensures multiset(Contents) == multiset(old(Contents))
      ensures SelectedPrefix(le, Contents, i + 1)
      ensures Sorted(le, old(Contents)) ==> Contents == old(Contents)
      ensures forall k :: size <= k < buffer.Length ==> buffer[k] == old(buffer[k])
    {
      var minIndex := IndexOfLeast(le, i);
      ghost var c := Contents;
      SelectionStep(le, c, i, minIndex);
      if Sorted(le, c) {
        SortedSwapUnchanged(le, c, i, minIndex);
      }
      var temp := buffer[minIndex];
      buffer[minIndex] := buffer[i];
      buffer[i] := temp;
      Contents := c[minIndex := c[i]][i := c[minIndex]];
    }

    /** The inner loop of the selection sort: the index of the first element of `[from, size)` that is
        `le` all the others (an element replaces the candidate only when it is strictly smaller).
        Changes nothing. */
    method IndexOfLeast(le: (E, E) -> bool, from: nat) returns (m: nat)
      requires Valid() && TotalPreorder(le)
      requires from < size
      ensures from <= m < size
      ensures forall k :: from <= k < size ==> le(Contents[m], Contents[k])
      ensures forall k :: from <= k < m ==> !le(Contents[k], Contents[m])
    {
      m := from;
      var j := from + 1;
      while j < size
        invariant from < j <= size && from <= m < j
        invariant forall k :: from <= k < j ==> le(Contents[m], Contents[k])
        invariant forall k :: from <= k < m ==> !le(Contents[k], Contents[m])
      {
        if !le(buffer[m].value, buffer[j].value) {
          m := j;
        }
        j := j + 1;
      }
    }

    /** Empties slots `[0, size)` and sets the size to zero; always reports success. The buffer is kept. */
    method Clear() returns (ok: bool)
      requires Valid()
      modifies this, buffer
      ensures Valid() && buffer == old(buffer)
      ensures ok && size == 0 && Contents == []
      ensures forall k :: 0 <= k < old(size) ==> buffer[k] == None
      ensures forall k :: old(size) <= k < buffer.Length ==> buffer[k] == old(buffer[k])
      ensures old(size) == 0 ==> unchanged(this)
    {
      var i := 0;
      while i < size
        invariant 0 <= i <= size
        invariant forall k :: 0 <= k < i ==> buffer[k] == None
        invariant forall k :: i <= k < buffer.Length ==> buffer[k] == old(buffer[k])
        modifies buffer
      {
        buffer[i] := None;
        i := i + 1;
      }
      size := 0;
      Contents := [];
      return true;
    }

    /** The number of elements. */
    method Size() returns (n: int)
      requires Valid()
      ensures n == |Contents|
    {
      return size;
    }
  }

  /** The outer loop's invariant after `i` rounds of selection sort: the first `i` elements are in
      order, and none of them is above any later element. */
  ghost predicate SelectedPrefix<E>(le: (E, E) -> bool, s: seq<E>, i: int) {
    && (forall p, q :: 0 <= p < q < i && q < |s| ==> le(s[p], s[q]))
    && (forall p, q :: 0 <= p < i <= q < |s| ==> le(s[p], s[q]))
  }

  /** One round of selection sort: swapping a least element of `s[i..]` into position `i` extends the
      ordered prefix by one and permutes the sequence. */
  lemma SelectionStep<E(!new)>(le: (E, E) -> bool, s: seq<E>, i: int, m: int)
    requires 0 <= i <= m < |s|
    requires SelectedPrefix(le, s, i)
    requires forall k :: i <= k < |s| ==> le(s[m], s[k])
    ensures SelectedPrefix(le, s[m := s[i]][i := s[m]], i + 1)
    ensures multiset(s[m := s[i]][i := s[m]]) == multiset(s)
  {
    var t := s[m := s[i]][i := s[m]];
    forall p, q | 0 <= p < q < i + 1 && q < |t|
      ensures le(t[p], t[q])
    {
      if q == i {
        assert t[q] == s[m];
      }
    }
    forall p, q | 0 <= p < i + 1 <= q < |t|
      ensures le(t[p], t[q])
    {
      if q == m {
        assert t[q] == s[i];
      } else {
        assert t[q] == s[q];
      }
    }
  }

  /** On a sorted sequence the search finds nothing strictly below position `i`, so the swap changes nothing. */
  lemma SortedSwapUnchanged<E>(le: (E, E) -> bool, s: seq<E>, i: int, m: int)
    requires Sorted(le, s) && 0 <= i <= m < |s|
    requires forall k :: i <= k < m ==> !le(s[k], s[m])
    ensures m == i && s[m := s[i]][i := s[m]] == s
  {
  }

  /** When the outer loop stops, the ordered prefix is the whole sequence. */
  lemma SelectionDone<E>(le: (E, E) -> bool, s: seq<E>, i: int)
    requires 0 <= i && (i == 0 || i < |s|) && i >= |s| - 1
    requires SelectedPrefix(le, s, i)
    ensures Sorted(le, s)
  {
    forall p, q | 0 <= p < q < |s|
      ensures le(s[p], s[q])
    {
      if q < i {
        assert 0 <= p < q < i;
      } else {
        assert 0 <= p < i <= q;
      }
    }
  }
}
