/**
 * `sort.Slice` over a slice of results with a "less" function that compares
 * one numeric key (main.go:122-124 and 172-174). The package's algorithm is
 * not stable, so all that is promised, and all that is stated here, is that
 * the slice ends up ordered by the key and holds the same elements.
 */
module Sorting {

  /** Non-decreasing by `key`. */
  ghost predicate SortedBy<T>(s: seq<T>, key: T -> real) {
    forall i, j :: 0 <= i < j < |s| ==> key(s[i]) <= key(s[j])
  }

  /** The first `n` elements are in order. */
  ghost predicate SortedPrefix<T>(s: seq<T>, n: nat, key: T -> real)
    requires n <= |s|
  {
    forall p, q :: 0 <= p < q < n ==> key(s[p]) <= key(s[q])
  }

  /**
   * Insertion of s[j] into s[..i + 1]: apart from position j the prefix is in
   * order, and the element at j is no larger than anything after it.
   */
  ghost predicate Inserting<T>(s: seq<T>, i: nat, j: nat, key: T -> real)
    requires j <= i < |s|
  {
    (forall p, q :: 0 <= p < q <= i && p != j && q != j ==> key(s[p]) <= key(s[q]))
    && (forall q :: j < q <= i ==> key(s[j]) <= key(s[q]))
  }

  lemma InsertStart<T>(s: seq<T>, i: nat, key: T -> real)
    requires i < |s| && SortedPrefix(s, i, key)
    ensures Inserting(s, i, i, key)
  {
  }

  /** Exchanging an out-of-order pair moves the inserted element one place left. */
  lemma InsertStep<T>(s: seq<T>, i: nat, j: nat, key: T -> real)
    requires 0 < j <= i < |s| && Inserting(s, i, j, key) && key(s[j - 1]) > key(s[j])
    ensures Inserting(s[j - 1 := s[j]][j := s[j - 1]], i, j - 1, key)
  {
  }

  /** Once the element before it is no larger, the inserted element is in place. */
  lemma InsertDone<T>(s: seq<T>, i: nat, j: nat, key: T -> real)
    requires j <= i < |s| && Inserting(s, i, j, key) && (j == 0 || key(s[j - 1]) <= key(s[j]))
    ensures SortedPrefix(s, i + 1, key)
  {
    forall p, q | 0 <= p < q <= i
      ensures key(s[p]) <= key(s[q])
    {
      if q == j && p < j - 1 {
        assert key(s[p]) <= key(s[j - 1]);
      }
    }
  }

  /** Exchanges two elements of the array. */
  method Swap<T>(a: array<T>, i: nat, j: nat)
    requires i < a.Length && j < a.Length
    modifies a
    ensures a[..] == old(a[..])[i := old(a[j])][j := old(a[i])]
    ensures multiset(a[..]) == multiset(old(a[..]))
  {
    a[i], a[j] := a[j], a[i];
  }

  /** Sorts `a` in place, non-decreasing by `key`, as an insertion sort of adjacent exchanges. */
  method SortByKey<T>(a: array<T>, key: T -> real)
    modifies a
    ensures SortedBy(a[..], key)
    ensures multiset(a[..]) == multiset(old(a[..]))
  {
    var i := 0;
    while i < a.Length
      invariant 0 <= i <= a.Length
      invariant SortedPrefix(a[..], i, key)
      invariant multiset(a[..]) == multiset(old(a[..]))
    {
      InsertStart(a[..], i, key);
      var j := i;
      while j > 0 && key(a[j - 1]) > key(a[j])
        invariant 0 <= j <= i
        invariant Inserting(a[..], i, j, key)
        invariant multiset(a[..]) == multiset(old(a[..]))
      {
        InsertStep(a[..], i, j, key);
        Swap(a, j - 1, j);
        j := j - 1;
      }
      InsertDone(a[..], i, j, key);
      i := i + 1;
    }
  }
}
