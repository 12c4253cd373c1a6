/** The two demonstration drivers of the repository, replayed on the models with integer elements in
    their natural order. What the drivers print is stated as the values of the calls they print. */
module Scenarios {
  import opened Outcomes
  import opened Sequences
  import opened Ordering
  import opened InsertSort
  import ArrayList
  import LinkedList

  /** The natural order of integers, the order `Integer.compareTo` induces. */
  function IntLe(a: int, b: int): bool { a <= b }

  lemma IntLeTotalOrder()
    ensures TotalOrder(IntLe)
  {
  }

  /** The array-list driver: three appends, a lookup, a removal, a sort and a clear. */
  method ArrayListDriver() returns (sizeAfterAdds: int, second: Result<int>, sizeAfterRemove: int,
                                    first: Result<int>, last: Result<int>, cleared: bool)
    ensures sizeAfterAdds == 3 && second == Ok(10) && sizeAfterRemove == 2
    ensures first == Ok(5) && last == Ok(15) && cleared
  {
    var list := ArrayListDriverBuild();
    sizeAfterAdds := list.Size();
    second := list.Get(1);
    sizeAfterRemove, first, last, cleared := ArrayListDriverRest(list);
  }

  /** The array-list driver's three appends. */
  method ArrayListDriverBuild() returns (list: ArrayList.MyArrayList<int>)
    ensures fresh(list) && fresh(list.buffer) && list.Valid() && list.Contents == [5, 10, 15]
  {
    list := new ArrayList.MyArrayList<int>();
    list.Add(5);
    list.Add(10);
    list.Add(15);
  }

  /** The array-list driver after its lookup: the removal, the sort, two lookups and the clear. */
  method ArrayListDriverRest(list: ArrayList.MyArrayList<int>)
    returns (sizeAfterRemove: int, first: Result<int>, last: Result<int>, cleared: bool)
    requires list.Valid() && list.Contents == [5, 10, 15]
    modifies list, list.buffer
    ensures sizeAfterRemove == 2 && first == Ok(5) && last == Ok(15) && cleared
  {
    var removed := list.Remove(1);
    assert list.Contents == [5, 15];
    sizeAfterRemove := list.Size();
    IntLeTotalOrder();
    assert Sorted(IntLe, list.Contents);
    list.Sort(IntLe);
    first := list.Get(0);
    last := list.Get(1);
    cleared := list.Clear();
  }

  /** The linked-list driver: five appends, an insertion at the front, a lookup, a removal, a sort and
      a clear. The sorted list is 10, 20, 30, 40, 100. */
  method LinkedListDriver() returns (second: Result<int>, sorted0: Result<int>, sorted1: Result<int>,
                                     sorted4: Result<int>, sizeAfterClear: int)
    ensures second == Ok(20)
    ensures sorted0 == Ok(10) && sorted1 == Ok(20) && sorted4 == Ok(100)
    ensures sizeAfterClear == 0
  {
    var list := LinkedListDriverBuild();
    second := LinkedListDriverEdits(list);
    sorted0, sorted1, sorted4 := LinkedListDriverSort(list);
    list.Clear();
    sizeAfterClear := list.Size();
  }

  /** The linked-list driver's five appends. */
  method LinkedListDriverBuild() returns (list: LinkedList.MyLinkedList<int>)
    ensures fresh(list) && list.Valid() && forall n :: n in list.Spine ==> fresh(n)
    ensures list.Contents == [20, 50, 10, 40, 30]
  {
    list := new LinkedList.MyLinkedList<int>();
    list.Add(20);
    list.Add(50);
    assert list.Contents == [20, 50] && forall n :: n in list.Spine ==> fresh(n);
    list.Add(10);
    list.Add(40);
    assert list.Contents == [20, 50, 10, 40] && forall n :: n in list.Spine ==> fresh(n);
    list.Add(30);
  }

  /** The linked-list driver's edits: an insertion at the front, a lookup and a removal. */
  method LinkedListDriverEdits(list: LinkedList.MyLinkedList<int>) returns (second: Result<int>)
    requires list.Valid() && list.Contents == [20, 50, 10, 40, 30]
    modifies list, set n | n in list.Spine
    ensures list.Valid() && forall n :: n in list.Spine ==> fresh(n) || n in old(list.Spine)
    ensures list.Contents == [100, 20, 10, 40, 30] && second == Ok(20)
  {
    InsertedAtFront(list.Contents, 100);
    var added := list.AddAt(0, 100);
    ghost var edited := list.Contents;
    assert edited == [100, 20, 50, 10, 40, 30];
    second := list.Get(1);
    assert edited[..2] == [100, 20] && edited[3..] == [10, 40, 30];
    var removed := list.Remove(2);
  }

  /** The linked-list driver's sort and its three lookups in the sorted list. */
  method LinkedListDriverSort(list: LinkedList.MyLinkedList<int>)
    returns (sorted0: Result<int>, sorted1: Result<int>, sorted4: Result<int>)
    requires list.Valid() && list.Contents == [100, 20, 10, 40, 30]
    modifies list, set n | n in list.Spine
    ensures list.Valid()
    ensures sorted0 == Ok(10) && sorted1 == Ok(20) && sorted4 == Ok(100)
  {
    IntLeTotalOrder();
    list.Sort(IntLe);
    DriverListSorted();
    assert list.Contents == [10, 20, 30, 40, 100];
    sorted0 := list.Get(0);
    sorted1 := list.Get(1);
    sorted4 := list.Get(4);
  }

  /** The insertion sort of the driver's list, one inserted element at a time. */
  lemma DriverListSorted()
    ensures InsertionSort(IntLe, [100, 20, 10, 40, 30]) == [10, 20, 30, 40, 100]
  {
    var s := [100, 20, 10, 40, 30];
    assert s[..0] == [];
    InsertionSortPrefix(IntLe, s, 0);
    assert s[..1] == [100];
    InsertionSortPrefix(IntLe, s, 1);
    assert InsertionSort(IntLe, s[..2]) == [20, 100];
    InsertionSortPrefix(IntLe, s, 2);
    assert InsertionSort(IntLe, s[..3]) == [10, 20, 100];
    InsertionSortPrefix(IntLe, s, 3);
    assert [20, 100][1..] == [100] && [10, 20, 100][1..] == [20, 100];
    assert InsertSorted(IntLe, [20, 100], 40) == [20, 40, 100];
    assert InsertionSort(IntLe, s[..4]) == [10, 20, 40, 100];
    InsertionSortPrefix(IntLe, s, 4);
    assert [20, 40, 100][1..] == [40, 100] && [10, 20, 40, 100][1..] == [20, 40, 100];
    assert InsertSorted(IntLe, [20, 40, 100], 30) == [20, 30, 40, 100];
    assert s[..5] == s;
  }
}
