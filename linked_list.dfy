/** A singly linked list: a chain of nodes reached from `head`, with a separate element count. */
module LinkedList {
  import opened Outcomes
  import opened Sequences
  import opened Ordering
  import opened InsertSort

  /** One link of the chain. The element is fixed when the node is made; only `next` is ever relinked. */
  class Node<E> {
    const data: E
    var next: Node?<E>

    constructor (data: E)
      ensures this.data == data && next == null
    {
      this.data := data;
      next := null;
    }
  }

  /** No element of `s` occurs twice. */
  ghost predicate Distinct<T>(s: seq<T>) {
    forall i, j :: 0 <= i < j < |s| ==> s[i] != s[j]
  }

  /** Each node of `sp` links to the following one, and the last links to null. */
  ghost predicate Linked<E>(sp: seq<Node<E>>)
    reads sp
  {
    && (forall k :: 0 <= k < |sp| - 1 ==> sp[k].next == sp[k + 1])
    && (sp != [] ==> sp[|sp| - 1].next == null)
  }

  /** `h` starts a chain whose nodes, in link order, are `sp`: the nodes are linked in that order, end in
      null, and no node occurs twice (so the chain has no cycle). */
  ghost predicate Chain<E>(h: Node?<E>, sp: seq<Node<E>>)
    reads sp
  {
    && (if sp == [] then h == null else h == sp[0])
    && Linked(sp)
    && Distinct(sp)
  }

  /** The elements held by the nodes `sp`, in order. */
  ghost function Values<E>(sp: seq<Node<E>>): (r: seq<E>)
    ensures |r| == |sp|
    ensures forall k :: 0 <= k < |sp| ==> r[k] == sp[k].data
  {
    seq(|sp|, k requires 0 <= k < |sp| => sp[k].data)
  }

  /** The elements of a chain with a node spliced in or cut out are the elements spliced or cut the same way. */
  lemma ValuesInserted<E>(sp: seq<Node<E>>, i: int, n: Node<E>)
    requires 0 <= i <= |sp|
    ensures Values(Inserted(sp, i, n)) == Inserted(Values(sp), i, n.data)
  {
  }

  lemma ValuesRemoved<E>(sp: seq<Node<E>>, i: int)
    requires 0 <= i < |sp|
    ensures Values(Removed(sp, i)) == Removed(Values(sp), i)
  {
  }

  /** Splicing a node that is not yet in a chain keeps the nodes distinct; cutting one out does too. */
  lemma DistinctInserted<T>(s: seq<T>, i: int, x: T)
    requires 0 <= i <= |s| && Distinct(s) && x !in s
    ensures Distinct(Inserted(s, i, x))
  {
    var t := Inserted(s, i, x);
    forall p, q | 0 <= p < q < |t|
      ensures t[p] != t[q]
    {
      if p == i {
        assert t[q] == s[q - 1];
      } else if q == i {
        assert t[p] == s[p];
      }
    }
  }

  lemma DistinctRemoved<T>(s: seq<T>, i: int)
    requires 0 <= i < |s| && Distinct(s)
    ensures Distinct(Removed(s, i))
  {
  }

  /** The links a splice of `n` at position `i` needs: the predecessor (if any) links to `n`, `n` links to
      the old occupant of position `i` (or null at the end), and every other link is as before. */
  lemma LinkedInserted<E>(sp: seq<Node<E>>, i: int, n: Node<E>)
    requires 0 <= i <= |sp|
    requires forall k :: 0 <= k < |sp| - 1 && k != i - 1 ==> sp[k].next == sp[k + 1]
    requires i < |sp| ==> sp[|sp| - 1].next == null
    requires 0 < i ==> sp[i - 1].next == n
    requires n.next == if i < |sp| then sp[i] else null
    ensures Linked(Inserted(sp, i, n))
  {
    var t := Inserted(sp, i, n);
    forall k | 0 <= k < |t| - 1
      ensures t[k].next == t[k + 1]
    {
      if k > i {
        assert t[k] == sp[k - 1] && t[k + 1] == sp[k];
      }
    }
  }

  /** The links a cut at position `i` needs: the predecessor (if any) links past the cut node, and every
      other link is as before. */
  lemma LinkedRemoved<E>(sp: seq<Node<E>>, i: int)
    requires 0 <= i < |sp|
    requires forall k :: 0 <= k < |sp| - 1 && k != i - 1 ==> sp[k].next == sp[k + 1]
    requires sp[|sp| - 1].next == null
    requires 0 < i ==> sp[i - 1].next == if i + 1 < |sp| then sp[i + 1] else null
    ensures Linked(Removed(sp, i))
  {
    var t := Removed(sp, i);
    forall k | 0 <= k < |t| - 1
      ensures t[k].next == t[k + 1]
    {
      if k >= i {
        assert t[k] == sp[k + 1] && t[k + 1] == sp[k + 2];
      }
    }
  }

  class MyLinkedList<E(!new)> {
    /** The first node, or null for the empty list. */
    var head: Node?<E>
    /** The number of elements in the list. */
    var size: nat
    /** The elements of the list, in index order. */
    ghost var Contents: seq<E>
    /** The nodes of the list, in link order. */
    ghost var Spine: seq<Node<E>>

    /** The representation invariant: `head` starts an acyclic null-terminated chain of exactly
        `size` nodes, whose elements are the contents. */
    ghost predicate Valid()
      reads this, Spine
      ensures Valid() ==> size == |Contents| && (head == null <==> Contents == [])
    {
      && Chain(head, Spine)
      && size == |Spine|
      && Contents == Values(Spine)
    }

    /** An empty list. */
    constructor ()
      ensures Valid() && Contents == [] && Spine == []
      ensures head == null && size == 0
    {
      head := null;
      size := 0;
      Contents := [];
      Spine := [];
    }

    /** Appends `element`: walks from `head` to the node whose `next` is null and links a new node after it. */
    method Add(element: E)
      requires Valid()
      modifies this, set n | n in Spine
      ensures Valid()
      ensures Contents == old(Contents) + [element] && size == old(size) + 1
      ensures Spine == old(Spine) + [Spine[old(size)]] && fresh(Spine[old(size)])
    {
      ghost var sp := Spine;
      var newNode := new Node(element);
      if head == null {
        head := newNode;
      } else {
        var current := head;
        ghost var k := 0;
        while current.next != null
          invariant 0 <= k < |sp| && current == sp[k]
          invariant current.next == if k + 1 < |sp| then sp[k + 1] else null
          modifies {}
          decreases |sp| - k
        {
          current := current.next;
          k := k + 1;
        }
        assert k == |sp| - 1;
        current.next := newNode;
        forall j | 0 <= j < |sp| - 1
          ensures sp[j].next == sp[j + 1]
        {
          assert sp[j] != current;
        }
      }
      InsertedAtEnd(sp, newNode);
      InsertedAtEnd(Contents, element);
      size := size + 1;
      Spine := sp + [newNode];
      Contents := Contents + [element];
      LinkedInserted(sp, |sp|, newNode);
      DistinctInserted(sp, |sp|, newNode);
      ValuesInserted(sp, |sp|, newNode);
    }

    /** Inserts `element` at `index`: a new head when `index` is 0, otherwise after the node reached by
        `index - 1` steps from `head`. Fails, changing nothing, unless `0 <= index <= size`. */
    method AddAt(index: int, element: E) returns (r: Outcome)
      requires Valid()
      modifies this, set n | n in Spine
      ensures Valid()
      ensures r == if 0 <= index <= old(size) then Pass else Fail(IndexOutOfBounds(index, old(size)))
      ensures r.Fail? ==> unchanged(this) && unchanged(Spine)
      ensures r.Pass? ==> Contents == Inserted(old(Contents), index, element) && size == old(size) + 1
      ensures r.Pass? ==> Spine == Inserted(old(Spine), index, Spine[index]) && fresh(Spine[index])
    {
      if index < 0 || index > size {
        return Fail(IndexOutOfBounds(index, size));
      }
      ghost var sp := Spine;
      var newNode;
      if index == 0 {
        newNode := new Node(element);
        newNode.next := head;
        head := newNode;
      } else {
        var current := head;
        var i := 0;
        while i < index - 1
          invariant 0 <= i <= index - 1 && current == sp[i]
          modifies {}
        {
          current := current.next;
          i := i + 1;
        }
        newNode := new Node(element);
        newNode.next := current.next;
        current.next := newNode;
        forall j | 0 <= j < |sp| - 1 && j != index - 1
          ensures sp[j].next == sp[j + 1]
        {
          assert sp[j] != current;
        }
      }
      size := size + 1;
      Spine := Inserted(sp, index, newNode);
      Contents := Inserted(Contents, index, element);
      LinkedInserted(sp, index, newNode);
      DistinctInserted(sp, index, newNode);
      ValuesInserted(sp, index, newNode);
      r := Pass;
    }

    /** The element `index` steps from `head`; fails unless `0 <= index < size`. Changes nothing. */
    method Get(index: int) returns (r: Result<E>)
      requires Valid()
      ensures r == if 0 <= index < |Contents| then Ok(Contents[index]) else Err(IndexOutOfBounds(index, |Contents|))
    {
      if index < 0 || index >= size {
        return Err(IndexOutOfBounds(index, size));
      }
      var current := head;
      var i := 0;
      while i < index
        invariant 0 <= i <= index && current == Spine[i]
      {
        current := current.next;
        i := i + 1;
      }
      return Ok(current.data);
    }

    /** Removes the element at `index`: moves `head` on when `index` is 0, otherwise makes the node
        `index - 1` steps from `head` skip its successor. Fails, changing nothing, unless `0 <= index < size`. */
    method Remove(index: int) returns (r: Outcome)
      requires Valid()
      modifies this, set n | n in Spine
      ensures Valid()
      ensures r == if 0 <= index < old(size) then Pass else Fail(IndexOutOfBounds(index, old(size)))
      ensures r.Fail? ==> unchanged(this) && unchanged(Spine)
      ensures r.Pass? ==> Contents == Removed(old(Contents), index) && size == old(size) - 1
      ensures r.Pass? ==> Spine == Removed(old(Spine), index)
    {
      if index < 0 || index >= size {
        return Fail(IndexOutOfBounds(index, size));
      }
      ghost var sp := Spine;
      if index == 0 {
        head := head.next;
      } else {
        var current := head;
        var i := 0;
        while i < index - 1
          invariant 0 <= i <= index - 1 && current == sp[i]
          modifies {}
        {
          current := current.next;
          i := i + 1;
        }
        assert current.next == sp[index];
        current.next := current.next.next;
        forall j | 0 <= j < |sp| - 1 && j != index - 1
          ensures sp[j].next == sp[j + 1]
        {
          assert sp[j] != current;
        }
      }
      size := size - 1;
      Spine := Removed(sp, index);
      Contents := Removed(Contents, index);
      LinkedRemoved(sp, index);
      DistinctRemoved(sp, index);
      ValuesRemoved(sp, index);
      r := Pass;
    }

    /** Drops the whole chain. A second call changes nothing. */
    method Clear()
      requires Valid()
      modifies this
      ensures Valid() && head == null && size == 0
      ensures Contents == [] && Spine == []
      ensures old(size) == 0 ==> unchanged(this)
    {
      head := null;
      size := 0;
      Contents := [];
      Spine := [];
    }

    /** The number of elements. */
    method Size() returns (n: int)
      requires Valid()
      ensures n == |Contents|
    {
      return size;
    }

    /** Insertion sort that re-threads the existing nodes: each node of the original chain, in order, is
        inserted into a separate sorted chain, whose first node becomes the new `head`.
        Nothing is done when the list has fewer than two nodes. */
    method Sort(le: (E, E) -> bool)
      requires Valid() && TotalPreorder(le)
      modifies this, set n | n in Spine
      ensures Valid() && size == old(size)
      ensures Contents == InsertionSort(le, old(Contents))
      ensures Sorted(le, Contents) && multiset(Contents) == multiset(old(Contents))
      ensures multiset(Spine) == multiset(old(Spine))
      ensures old(size) <= 1 ==> unchanged(this)
    {
      assert |Spine| >= 2 ==> head.next == Spine[1];
      assert |Spine| == 1 ==> head.next == null;
      if head == null || head.next == null {
        ShortUnchanged(le, Contents);
        InsertionSortSorted(le, Contents);
        InsertionSortMultiset(le, Contents);
        return;
      }
      assert |Spine| >= 2;
      ghost var elements := Contents;
      var sortedList: Node<E>;
      ghost var sortedNodes: seq<Node<E>>;
      sortedList, sortedNodes := InsertAll(le, head, Spine);
      assert |multiset(sortedNodes)| == |multiset(Spine)|;
      head := sortedList;
      Spine := sortedNodes;
      Contents := Values(sortedNodes);
      InsertionSortSorted(le, elements);
      InsertionSortMultiset(le, elements);
    }

    /** The loop of the insertion sort: walks the chain from `first` (nodes `nodes`), saving each node's
        successor before inserting the node into a sorted chain that starts out empty, and returns the
        first node of the sorted chain. */
    static method InsertAll(le: (E, E) -> bool, first: Node<E>, ghost nodes: seq<Node<E>>)
      returns (sortedList: Node<E>, ghost sortedNodes: seq<Node<E>>)
      requires Chain(first, nodes)
      modifies set n | n in nodes
      ensures Chain(sortedList, sortedNodes)
      ensures Values(sortedNodes) == InsertionSort(le, Values(nodes))
      ensures multiset(sortedNodes) == multiset(nodes)
    {
      var sorted: Node?<E> := null;
      sortedNodes := [];
      var current: Node?<E> := first;
      ghost var i := 0;
      while current != null
        invariant 0 <= i <= |nodes|
        invariant current == if i < |nodes| then nodes[i] else null
        invariant Chain(sorted, sortedNodes)
        invariant multiset(sortedNodes) == multiset(nodes[..i])
        invariant Values(sortedNodes) == InsertionSort(le, Values(nodes)[..i])
        invariant forall k :: i <= k < |nodes| ==> nodes[k].next == if k + 1 < |nodes| then nodes[k + 1] else null
        decreases |nodes| - i
      {
        sorted, current, sortedNodes := InsertCurrent(le, sorted, current, sortedNodes, nodes, i);
        i := i + 1;
      }
      assert i == |nodes|;
      assert nodes[..i] == nodes && Values(nodes)[..i] == Values(nodes);
      sortedList := sorted;
    }

    /** One round of the sort's loop: remembers the successor of `current` (node `i` of the original
        chain), links `current` into the sorted chain of the first `i` nodes, and moves on to the successor. */
    static method InsertCurrent(le: (E, E) -> bool, sorted: Node?<E>, current: Node<E>, ghost sortedNodes: seq<Node<E>>,
                                ghost nodes: seq<Node<E>>, ghost i: int)
      returns (sorted': Node<E>, next: Node?<E>, ghost sortedNodes': seq<Node<E>>)
      requires Distinct(nodes) && 0 <= i < |nodes| && current == nodes[i]
      requires Chain(sorted, sortedNodes)
      requires multiset(sortedNodes) == multiset(nodes[..i])
      requires Values(sortedNodes) == InsertionSort(le, Values(nodes)[..i])
      requires forall k {:trigger nodes[k].next} :: i <= k < |nodes| ==> nodes[k].next == if k + 1 < |nodes| then nodes[k + 1] else null
      modifies set n | n in nodes
      ensures next == if i + 1 < |nodes| then nodes[i + 1] else null
      ensures Chain(sorted', sortedNodes')
      ensures multiset(sortedNodes') == multiset(nodes[..i + 1])
      ensures Values(sortedNodes') == InsertionSort(le, Values(nodes)[..i + 1])
      ensures forall k :: i < k < |nodes| ==> nodes[k].next == old(nodes[k].next)
    {
      next := current.next;
      UnvisitedOutside(nodes, i, sortedNodes);
      sorted', sortedNodes' := Insert(le, sorted, current, sortedNodes);
      InsertStep(le, nodes, i, sortedNodes, sortedNodes');
    }

    /** Links `newNode` into the chain starting at `sortedList` (nodes `sp`), before the first node whose
        element `x` satisfies `le(newNode.data, x)`, or at the end; returns the head of the resulting chain. */
    static method Insert(le: (E, E) -> bool, sortedList: Node?<E>, newNode: Node<E>, ghost sp: seq<Node<E>>)
      returns (r: Node<E>, ghost sp': seq<Node<E>>)
      requires Chain(sortedList, sp) && newNode !in sp
      modifies newNode, set n | n in sp
      ensures Chain(r, sp')
      ensures Values(sp') == InsertSorted(le, Values(sp), newNode.data)
      ensures multiset(sp') == multiset(sp) + multiset{newNode}
    {
      ghost var x := newNode.data;
      ghost var p := 0;
      if sortedList == null || le(newNode.data, sortedList.data) {
        newNode.next := sortedList;
        r := newNode;
        forall j | 0 <= j < |sp| - 1
          ensures sp[j].next == sp[j + 1]
        {
          assert sp[j] != newNode;
        }
      } else {
        var current := sortedList;
        ghost var k := 0;
        while current.next != null && !le(newNode.data, current.next.data)
          invariant 0 <= k < |sp| && current == sp[k]
          invariant forall m :: 0 <= m <= k ==> !le(x, sp[m].data)
          modifies {}
          decreases |sp| - k
        {
          current := current.next;
          k := k + 1;
        }
        assert current.next == if k + 1 < |sp| then sp[k + 1] else null;
        p := k + 1;
        newNode.next := current.next;
        current.next := newNode;
        r := sortedList;
        forall j | 0 <= j < |sp| - 1 && j != k
          ensures sp[j].next == sp[j + 1]
        {
          assert sp[j] != current && sp[j] != newNode;
        }
      }
      sp' := Inserted(sp, p, newNode);
      LinkedInserted(sp, p, newNode);
      DistinctInserted(sp, p, newNode);
      ValuesInserted(sp, p, newNode);
      InsertSortedAt(le, Values(sp), x, p);
      InsertedMultiset(sp, p, newNode);
    }
  }

  /** In a sequence without repetitions, an element does not occur before its own position. */
  lemma NotInPrefix<T>(s: seq<T>, i: int, k: int)
    requires Distinct(s) && 0 <= i <= k < |s|
    ensures s[k] !in s[..i]
  {
  }

  /** Extending a prefix by one position appends the element at that position. */
  lemma PrefixExtended<T>(s: seq<T>, i: int)
    requires 0 <= i < |s|
    ensures s[..i + 1] == s[..i] + [s[i]]
  {
  }

  /** The multiset of a prefix grows by the element at the position it is extended to. */
  lemma PrefixMultiset<T>(s: seq<T>, i: int)
    requires 0 <= i < |s|
    ensures multiset(s[..i + 1]) == multiset(s[..i]) + multiset{s[i]}
  {
    PrefixExtended(s, i);
  }

  /** While the sorted chain holds the first `i` nodes of a chain without repetitions, it holds none of
      the others, and all of its nodes come from the original chain. */
  lemma UnvisitedOutside<E>(nodes: seq<Node<E>>, i: int, sortedNodes: seq<Node<E>>)
    requires Distinct(nodes) && 0 <= i <= |nodes|
    requires multiset(sortedNodes) == multiset(nodes[..i])
    ensures forall k :: i <= k < |nodes| ==> nodes[k] !in sortedNodes
    ensures forall n :: n in sortedNodes ==> n in nodes
  {
    forall k | i <= k < |nodes|
      ensures nodes[k] !in sortedNodes
    {
      NotInPrefix(nodes, i, k);
      assert nodes[k] !in multiset(nodes[..i]);
    }
    forall n | n in sortedNodes
      ensures n in nodes
    {
      assert n in multiset(nodes[..i]);
    }
  }

  /** Inserting node `i` into the sorted chain of the first `i` nodes gives the sorted chain of the first
      `i + 1` nodes. */
  lemma InsertStep<E>(le: (E, E) -> bool, nodes: seq<Node<E>>, i: int, before: seq<Node<E>>, after: seq<Node<E>>)
    requires 0 <= i < |nodes|
    requires multiset(before) == multiset(nodes[..i])
    requires Values(before) == InsertionSort(le, Values(nodes)[..i])
    requires multiset(after) == multiset(before) + multiset{nodes[i]}
    requires Values(after) == InsertSorted(le, Values(before), nodes[i].data)
    ensures multiset(after) == multiset(nodes[..i + 1])
    ensures Values(after) == InsertionSort(le, Values(nodes)[..i + 1])
  {
    PrefixMultiset(nodes, i);
    InsertionSortPrefix(le, Values(nodes), i);
  }
}
