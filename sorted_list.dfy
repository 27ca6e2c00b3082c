/** The ascending singly-linked list that `insertNode` maintains. The list is
    modelled by the sequence of values reachable from the head pointer; the
    `Node** head` in/out parameter becomes a sequence passed in and returned. */
module SortedList {

  /** Non-decreasing order. */
  predicate Ascending(s: seq<int>) {
    forall i, j :: 0 <= i < j < |s| ==> s[i] <= s[j]
  }

  /** Strictly increasing order (ascending and free of duplicates). */
  predicate StrictlyAscending(s: seq<int>) {
    forall i, j :: 0 <= i < j < |s| ==> s[i] < s[j]
  }

  function Elements(s: seq<int>): set<int> {
    set x | x in s
  }

  /** Reference definition of the insertion: `v` goes in front of the first
      element that is not smaller than it, or at the end. */
  function SortedInsert(s: seq<int>, v: int): (r: seq<int>)
    ensures |r| == |s| + 1
    decreases |s|
  {
    if s == [] || v <= s[0] then [v] + s
    else [s[0]] + SortedInsert(s[1..], v)
  }

  /** The insertion adds exactly one occurrence of `v` and keeps every old
      element with its multiplicity; a value already present is not rejected. */
  lemma {:induction false} InsertMultiset(s: seq<int>, v: int)
    ensures multiset(SortedInsert(s, v)) == multiset(s) + multiset{v}
  {
    if s != [] && s[0] < v {
      InsertMultiset(s[1..], v);
      assert s == [s[0]] + s[1..];
    }
  }

  lemma InsertElements(s: seq<int>, v: int)
    ensures Elements(SortedInsert(s, v)) == Elements(s) + {v}
  {
    var r := SortedInsert(s, v);
    InsertMultiset(s, v);
    forall x ensures x in r <==> x in s || x == v {
      assert x in r <==> x in multiset(r);
      assert x in s <==> x in multiset(s);
    }
  }

  /** Every element of the insertion is an old element or `v` itself. */
  lemma InsertFrom(s: seq<int>, v: int, x: int)
    requires x in SortedInsert(s, v)
    ensures x in s || x == v
  {
    InsertElements(s, v);
  }

  /** Membership after the insertion, value by value. */
  lemma InsertMembers(s: seq<int>, v: int)
    ensures forall x :: x in SortedInsert(s, v) <==> x in s || x == v
  {
    InsertElements(s, v);
    forall x ensures x in SortedInsert(s, v) <==> x in s || x == v {
      assert x in Elements(SortedInsert(s, v)) <==> x in SortedInsert(s, v);
      assert x in Elements(s) <==> x in s;
    }
  }

  /** Inserting into an ascending list keeps it ascending. */
  lemma {:induction false} InsertPreservesAscending(s: seq<int>, v: int)
    requires Ascending(s)
    ensures Ascending(SortedInsert(s, v))
  {
    if s != [] && s[0] < v {
      var rest := SortedInsert(s[1..], v);
      InsertPreservesAscending(s[1..], v);
      forall j | 0 <= j < |rest| ensures s[0] <= rest[j] {
        InsertFrom(s[1..], v, rest[j]);
      }
      assert SortedInsert(s, v) == [s[0]] + rest;
    }
  }

  /** Inserting a value that is not yet present into a strictly ascending list
      keeps it strictly ascending. */
  lemma {:induction false} InsertPreservesStrict(s: seq<int>, v: int)
    requires StrictlyAscending(s)
    requires v !in s
    ensures StrictlyAscending(SortedInsert(s, v))
  {
    if s != [] && s[0] < v {
      var rest := SortedInsert(s[1..], v);
      assert v !in s[1..];
      InsertPreservesStrict(s[1..], v);
      forall j | 0 <= j < |rest| ensures s[0] < rest[j] {
        InsertFrom(s[1..], v, rest[j]);
      }
      assert SortedInsert(s, v) == [s[0]] + rest;
    }
  }

  /** The insertion splices `v` in at the first position `p` whose element is
      not smaller than `v`: everything before `p` is smaller, and nothing is
      dropped or reordered. */
  lemma {:induction false} InsertSplices(s: seq<int>, v: int, p: nat)
    requires p <= |s|
    requires forall k :: 0 <= k < p ==> s[k] < v
    requires p < |s| ==> v <= s[p]
    ensures SortedInsert(s, v) == s[..p] + [v] + s[p..]
  {
    if p > 0 {
      var t := s[1..];
      InsertSplices(t, v, p - 1);
      assert [s[0]] + t[..p - 1] == s[..p];
      assert t[p - 1..] == s[p..];
    }
  }

  /** `insertNode`: walk `current` past the elements below `value`, then link
      the new node either as the new head (no `prev`) or after `prev`. */
  method InsertNode(head: seq<int>, value: int) returns (list: seq<int>)
    ensures list == SortedInsert(head, value)
  {
    var current := 0;
    while current < |head| && head[current] < value
      invariant 0 <= current <= |head|
      invariant forall k :: 0 <= k < current ==> head[k] < value
    {
      current := current + 1;
    }
    InsertSplices(head, value, current);
    if current == 0 {
      list := [value] + head;
    } else {
      list := head[..current] + [value] + head[current..];
    }
  }

  /** A strictly ascending list has as many elements as distinct values. */
  lemma {:induction false} StrictCard(s: seq<int>)
    requires StrictlyAscending(s)
    ensures |Elements(s)| == |s|
  {
    if s != [] {
      StrictCard(s[1..]);
      assert Elements(s) == {s[0]} + Elements(s[1..]);
      assert s[0] !in Elements(s[1..]);
    }
  }
}
