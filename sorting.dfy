/** Sorting by an integer key, as the library sorts do it: the result is
    ordered by the key and holds every element as often as the input did.
    Insertion sort is one of the orders an unstable sort may produce. */
module Sorting {

  /** Inserts `x` before the first element whose key is not smaller. */
  function Insert<T>(x: T, xs: seq<T>, key: T -> int): seq<T>
  {
    if xs == [] || key(x) <= key(xs[0]) then [x] + xs else [xs[0]] + Insert(x, xs[1..], key)
  }

  /** Insertion sort by `key`. Equal keys keep their input order, which is
      one of the orders an unstable library sort may produce. */
  function SortBy<T>(xs: seq<T>, key: T -> int): seq<T>
  {
    if xs == [] then [] else Insert(xs[0], SortBy(xs[1..], key), key)
  }

  predicate SortedBy<T>(xs: seq<T>, key: T -> int)
  {
    forall i, j :: 0 <= i < j < |xs| ==> key(xs[i]) <= key(xs[j])
  }

  lemma {:induction false} InsertMultiset<T>(x: T, xs: seq<T>, key: T -> int)
    ensures multiset(Insert(x, xs, key)) == multiset(xs) + multiset{x}
  {
    if xs != [] && key(x) > key(xs[0]) {
      InsertMultiset(x, xs[1..], key);
      assert xs == [xs[0]] + xs[1..];
    }
  }

  lemma {:induction false} InsertSorted<T>(x: T, xs: seq<T>, key: T -> int)
    requires SortedBy(xs, key)
    ensures SortedBy(Insert(x, xs, key), key)
  {
    if xs != [] && key(x) > key(xs[0]) {
      InsertSorted(x, xs[1..], key);
      InsertMultiset(x, xs[1..], key);
      var rest := Insert(x, xs[1..], key);
      forall j | 0 <= j < |rest|
        ensures key(xs[0]) <= key(rest[j])
      {
        assert rest[j] in multiset(xs[1..]) + multiset{x};
      }
    }
  }

  /** The sort orders by key and keeps every element as often as it was. */
  lemma {:induction false} SortByFacts<T>(xs: seq<T>, key: T -> int)
    ensures SortedBy(SortBy(xs, key), key)
    ensures multiset(SortBy(xs, key)) == multiset(xs)
  {
    if xs != [] {
      SortByFacts(xs[1..], key);
      InsertSorted(xs[0], SortBy(xs[1..], key), key);
      InsertMultiset(xs[0], SortBy(xs[1..], key), key);
      assert xs == [xs[0]] + xs[1..];
    }
  }

  /** Two orders of the same elements by the same key are one and the same
      order when no two different elements share a key. */
  lemma {:induction false} SortedUnique<T>(a: seq<T>, b: seq<T>, key: T -> int)
    requires multiset(a) == multiset(b) && SortedBy(a, key) && SortedBy(b, key)
    requires forall x, y :: x in a && y in a && key(x) == key(y) ==> x == y
    ensures a == b
  {
    assert |a| == |multiset(a)| == |multiset(b)| == |b|;
    if a != [] {
      SameHead(a, b, key);
      DropHead(a);
      DropHead(b);
      SortedTail(a, key);
      SortedTail(b, key);
      InTail(a);
      SortedUnique(a[1..], b[1..], key);
      ConsEqual(a, b);
    }
  }

  /** Both orders start with the element of least key. */
  lemma SameHead<T>(a: seq<T>, b: seq<T>, key: T -> int)
    requires a != [] && b != [] && multiset(a) == multiset(b) && SortedBy(a, key) && SortedBy(b, key)
    requires forall x, y :: x in a && y in a && key(x) == key(y) ==> x == y
    ensures a[0] == b[0]
  {
    assert a[0] in multiset(b) && b[0] in multiset(a);
    var j :| 0 <= j < |b| && b[j] == a[0];
    var i :| 0 <= i < |a| && a[i] == b[0];
    assert key(b[0]) <= key(b[j]) && key(a[0]) <= key(a[i]);
  }

  lemma DropHead<T>(a: seq<T>)
    requires a != []
    ensures multiset(a[1..]) == multiset(a) - multiset{a[0]}
  {
    assert a == [a[0]] + a[1..];
  }

  lemma SortedTail<T>(a: seq<T>, key: T -> int)
    requires a != [] && SortedBy(a, key)
    ensures SortedBy(a[1..], key)
  {
    forall i, j | 0 <= i < j < |a| - 1
      ensures key(a[1..][i]) <= key(a[1..][j])
    {
      assert a[1..][i] == a[i + 1] && a[1..][j] == a[j + 1];
    }
  }

  lemma InTail<T>(a: seq<T>)
    requires a != []
    ensures forall x :: x in a[1..] ==> x in a
  {
    forall x | x in a[1..]
      ensures x in a
    {
      var i :| 0 <= i < |a| - 1 && a[1..][i] == x;
      assert a[i + 1] == x;
    }
  }

  lemma ConsEqual<T>(a: seq<T>, b: seq<T>)
    requires a != [] && b != [] && a[0] == b[0] && a[1..] == b[1..]
    ensures a == b
  {
    assert a == [a[0]] + a[1..] && b == [b[0]] + b[1..];
  }
}
