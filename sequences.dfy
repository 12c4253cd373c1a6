/** The abstract effect of positional insert and remove on the sequence a container holds. */
module Sequences {

  /** `s` with `x` placed at position `i`: elements before `i` stay, elements from `i` on move one to the right. */
  function Inserted<E>(s: seq<E>, i: int, x: E): (r: seq<E>)
    requires 0 <= i <= |s|
    ensures |r| == |s| + 1
    ensures r[i] == x
    ensures forall k :: 0 <= k < i ==> r[k] == s[k]
    ensures forall k :: i < k < |r| ==> r[k] == s[k - 1]
  {
    s[..i] + [x] + s[i..]
  }

  /** `s` without the element at position `i`: elements before `i` stay, elements after `i` move one to the left. */
  function Removed<E>(s: seq<E>, i: int): (r: seq<E>)
    requires 0 <= i < |s|
    ensures |r| == |s| - 1
    ensures forall k :: 0 <= k < i ==> r[k] == s[k]
    ensures forall k :: i <= k < |r| ==> r[k] == s[k + 1]
  {
    s[..i] + s[i + 1..]
  }

  /** Removing what was just inserted gives back the original sequence. */
  lemma RemoveInserted<E>(s: seq<E>, i: int, x: E)
    requires 0 <= i <= |s|
    ensures Removed(Inserted(s, i, x), i) == s
  {
    var t := Removed(Inserted(s, i, x), i);
    assert forall k :: 0 <= k < |s| ==> t[k] == s[k];
  }

  /** Re-inserting what was just removed, at the same place, gives back the original sequence. */
  lemma InsertRemoved<E>(s: seq<E>, i: int)
    requires 0 <= i < |s|
    ensures Inserted(Removed(s, i), i, s[i]) == s
  {
    var t := Inserted(Removed(s, i), i, s[i]);
    assert forall k :: 0 <= k < |s| ==> t[k] == s[k];
  }

  /** Inserting at the end appends, and inserting into the empty sequence gives a singleton. */
  lemma InsertedAtEnd<E>(s: seq<E>, x: E)
    ensures Inserted(s, |s|, x) == s + [x]
    ensures Inserted([], 0, x) == [x]
  {
    assert s[..|s|] == s;
  }

  /** Inserting at the front prepends. */
  lemma InsertedAtFront<E>(s: seq<E>, x: E)
    ensures Inserted(s, 0, x) == [x] + s
  {
    assert s[0..] == s;
  }

  /** Removal keeps every element but one: the multiset loses exactly the removed element. */
  lemma RemovedMultiset<E>(s: seq<E>, i: int)
    requires 0 <= i < |s|
    ensures multiset(Removed(s, i)) == multiset(s) - multiset{s[i]}
  {
    assert s == s[..i] + [s[i]] + s[i + 1..];
  }

  /** Insertion adds exactly the inserted element to the multiset. */
  lemma InsertedMultiset<E>(s: seq<E>, i: int, x: E)
    requires 0 <= i <= |s|
    ensures multiset(Inserted(s, i, x)) == multiset(s) + multiset{x}
  {
    assert s == s[..i] + s[i..];
  }
}
