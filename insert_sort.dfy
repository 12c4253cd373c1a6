/** The specification of the linked list's sort: insertion into a sorted chain, and the sort that
    inserts the original elements one by one, in list order, into an initially empty chain. */
module InsertSort {
  import opened Ordering

  /** `x` placed before the first element `y` with `le(x, y)`, or at the end when there is none.
      Equal elements therefore end up AFTER `x`. */
  function InsertSorted<E>(le: (E, E) -> bool, s: seq<E>, x: E): (r: seq<E>)
    ensures |r| == |s| + 1
    decreases |s|
  {
    if s == [] || le(x, s[0]) then
      [x] + s
    else
      [s[0]] + InsertSorted(le, s[1..], x)
  }

  /** Insertion adds exactly `x`: the result is a permutation of `s` with `x` added. */
  lemma {:induction false} InsertSortedMultiset<E>(le: (E, E) -> bool, s: seq<E>, x: E)
    ensures multiset(InsertSorted(le, s, x)) == multiset(s) + multiset{x}
    decreases |s|
  {
    if s != [] && !le(x, s[0]) {
      InsertSortedMultiset(le, s[1..], x);
      assert s == [s[0]] + s[1..];
    }
  }

  /** Under a total preorder, inserting into a sorted sequence keeps it sorted. */
  lemma {:induction false} InsertSortedSorted<E(!new)>(le: (E, E) -> bool, s: seq<E>, x: E)
    requires TotalPreorder(le) && Sorted(le, s)
    ensures Sorted(le, InsertSorted(le, s, x))
    decreases |s|
  {
    if s != [] && !le(x, s[0]) {
      var t := InsertSorted(le, s[1..], x);
      InsertSortedMultiset(le, s[1..], x);
      SortedTail(le, s);
      InsertSortedSorted(le, s[1..], x);
      assert InsertSorted(le, s, x) == [s[0]] + t;
      forall k | 0 <= k < |t|
        ensures le(s[0], t[k])
      {
        assert t[k] in multiset(t);
        if t[k] != x {
          assert t[k] in multiset(s[1..]);
          var j :| 0 <= j < |s[1..]| && s[1..][j] == t[k];
          assert s[1..][j] == s[j + 1];
        }
      }
    }
  }

  /** The insertion sort of the linked list, as a function: the elements of `s`, in order, inserted one after
      another into the sorted result of the elements before them. */
  function InsertionSort<E>(le: (E, E) -> bool, s: seq<E>): (r: seq<E>)
    ensures |r| == |s|
    decreases |s|
  {
    if s == [] then
      []
    else
      InsertSorted(le, InsertionSort(le, s[..|s| - 1]), s[|s| - 1])
  }

  /** The insertion sort permutes its input. */
  lemma {:induction false} InsertionSortMultiset<E>(le: (E, E) -> bool, s: seq<E>)
    ensures multiset(InsertionSort(le, s)) == multiset(s)
    decreases |s|
  {
    if s != [] {
      InsertionSortMultiset(le, s[..|s| - 1]);
      InsertSortedMultiset(le, InsertionSort(le, s[..|s| - 1]), s[|s| - 1]);
      assert s == s[..|s| - 1] + [s[|s| - 1]];
    }
  }

  /** One more round of the sort: sorting a prefix one element longer inserts that element into the
      sorted shorter prefix. */
  lemma InsertionSortPrefix<E>(le: (E, E) -> bool, s: seq<E>, i: int)
    requires 0 <= i < |s|
    ensures InsertionSort(le, s[..i + 1]) == InsertSorted(le, InsertionSort(le, s[..i]), s[i])
  {
    assert s[..i + 1][..i] == s[..i];
  }

  /** Under a total preorder the insertion sort yields an ascending sequence. */
  lemma {:induction false} InsertionSortSorted<E(!new)>(le: (E, E) -> bool, s: seq<E>)
    requires TotalPreorder(le)
    ensures Sorted(le, InsertionSort(le, s))
    decreases |s|
  {
    if s != [] {
      InsertionSortSorted(le, s[..|s| - 1]);
      InsertSortedSorted(le, InsertionSort(le, s[..|s| - 1]), s[|s| - 1]);
    }
  }

  /** Where `InsertSorted` puts `x`: at the first position `p` whose element is not strictly below `x`. */
  lemma {:induction false} InsertSortedAt<E>(le: (E, E) -> bool, s: seq<E>, x: E, p: int)
    requires 0 <= p <= |s|
    requires forall m :: 0 <= m < p ==> !le(x, s[m])
    requires p == |s| || le(x, s[p])
    ensures InsertSorted(le, s, x) == s[..p] + [x] + s[p..]
    decreases p
  {
    if p == 0 {
      assert s[..0] + [x] + s[0..] == [x] + s;
    } else {
      var t := s[1..];
      assert InsertSorted(le, s, x) == [s[0]] + InsertSorted(le, t, x) by {
        assert !le(x, s[0]);
      }
      assert forall m :: 0 <= m < p - 1 ==> !le(x, t[m]) by {
        forall m | 0 <= m < p - 1 ensures !le(x, t[m]) {
          assert t[m] == s[m + 1];
        }
      }
      assert p - 1 == |t| || le(x, t[p - 1]) by {
        if p < |s| { assert t[p - 1] == s[p]; }
      }
      InsertSortedAt(le, t, x, p - 1);
      assert s == [s[0]] + t;
      SpliceCons(s[0], t, x, p - 1);
    }
  }

  /** Splicing `x` into a tail at `q` and putting `a` in front is splicing `x` into the whole at `q + 1`. */
  lemma SpliceCons<E>(a: E, t: seq<E>, x: E, q: int)
    requires 0 <= q <= |t|
    ensures [a] + (t[..q] + [x] + t[q..]) == ([a] + t)[..q + 1] + [x] + ([a] + t)[q + 1..]
  {
    assert ([a] + t)[..q + 1] == [a] + t[..q];
    assert ([a] + t)[q + 1..] == t[q..];
  }

  /** Sequences of at most one element are left as they are. */
  lemma ShortUnchanged<E>(le: (E, E) -> bool, s: seq<E>)
    requires |s| <= 1
    ensures InsertionSort(le, s) == s
  {
    if |s| == 1 {
      assert s[..0] == [];
    }
  }

  /** For a total order, sorting a sorted sequence changes nothing. */
  lemma SortedUnchanged<E(!new)>(le: (E, E) -> bool, s: seq<E>)
    requires TotalOrder(le) && Sorted(le, s)
    ensures InsertionSort(le, s) == s
  {
    InsertionSortSorted(le, s);
    InsertionSortMultiset(le, s);
    SortedPermutationUnique(le, InsertionSort(le, s), s);
  }

  /** For a total order, sorting twice gives the same as sorting once. */
  lemma SortIdempotent<E(!new)>(le: (E, E) -> bool, s: seq<E>)
    requires TotalOrder(le)
    ensures InsertionSort(le, InsertionSort(le, s)) == InsertionSort(le, s)
  {
    InsertionSortSorted(le, s);
    SortedUnchanged(le, InsertionSort(le, s));
  }

  /** Compares pairs by their first component only: a total preorder that is not a total order. */
  function FirstLe(a: (int, int), b: (int, int)): bool { a.0 <= b.0 }

  /** The sort is not stable: of two elements that compare equal, the later one comes out first. */
  lemma TiesReversed()
    ensures TotalPreorder(FirstLe)
    ensures InsertionSort(FirstLe, [(1, 0), (1, 1)]) == [(1, 1), (1, 0)]
  {
    var s: seq<(int, int)> := [(1, 0), (1, 1)];
    assert s[..1] == [(1, 0)] && |s[..1][..0]| == 0;
    assert InsertionSort(FirstLe, s[..1]) == [(1, 0)];
  }
}
