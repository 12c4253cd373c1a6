/** The ordering the sorts compare with, in place of Java's `Comparable.compareTo`:
    `le(a, b)` stands for `a.compareTo(b) <= 0`, so `a.compareTo(b) < 0` is `!le(b, a)`. */
module Ordering {

  /** Every two elements are comparable and the order is transitive (what `Comparable` asks of `compareTo`). */
  ghost predicate TotalPreorder<E(!new)>(le: (E, E) -> bool) {
    && (forall x, y :: le(x, y) || le(y, x))
    && (forall x, y, z :: le(x, y) && le(y, z) ==> le(x, z))
  }

  /** A total preorder in which only equal elements are equivalent, such as `<=` on integers. */
  ghost predicate TotalOrder<E(!new)>(le: (E, E) -> bool) {
    && TotalPreorder(le)
    && (forall x, y :: le(x, y) && le(y, x) ==> x == y)
  }

  /** Ascending order: every element is `le` every later one. */
  ghost predicate Sorted<E>(le: (E, E) -> bool, s: seq<E>) {
    forall i, j :: 0 <= i < j < |s| ==> le(s[i], s[j])
  }

  /** The first element of a sorted sequence is `le` every element of it. */
  lemma SortedHeadIsLeast<E>(le: (E, E) -> bool, s: seq<E>, x: E)
    requires Sorted(le, s) && (forall y :: le(y, y)) && x in s
    ensures le(s[0], x)
  {
    var j :| 0 <= j < |s| && s[j] == x;
    if j > 0 { assert le(s[0], s[j]); }
  }

  /** Dropping the first element keeps a sequence sorted. */
  lemma SortedTail<E>(le: (E, E) -> bool, s: seq<E>)
    requires Sorted(le, s) && s != []
    ensures Sorted(le, s[1..])
  {
    forall p, q | 0 <= p < q < |s| - 1
      ensures le(s[1..][p], s[1..][q])
    {
      assert s[1..][p] == s[p + 1] && s[1..][q] == s[q + 1];
    }
  }

  /** For a total order there is only one sorted arrangement of a multiset of elements:
      two sorted sequences with the same elements are equal. */
  lemma {:induction false} SortedPermutationUnique<E(!new)>(le: (E, E) -> bool, a: seq<E>, b: seq<E>)
    requires TotalOrder(le)
    requires Sorted(le, a) && Sorted(le, b)
    requires multiset(a) == multiset(b)
    ensures a == b
  {
    assert |multiset(a)| == |a| && |multiset(b)| == |b|;
    if a != [] {
      assert forall y :: le(y, y);
      assert a[0] in multiset(b) && b[0] in multiset(a);
      SortedHeadIsLeast(le, b, a[0]);
      SortedHeadIsLeast(le, a, b[0]);
      assert a[0] == b[0];
      assert a == [a[0]] + a[1..] && b == [b[0]] + b[1..];
      assert multiset(a[1..]) == multiset(a) - multiset{a[0]};
      assert multiset(b[1..]) == multiset(b) - multiset{b[0]};
      SortedTail(le, a);
      SortedTail(le, b);
      SortedPermutationUnique(le, a[1..], b[1..]);
    }
  }
}
