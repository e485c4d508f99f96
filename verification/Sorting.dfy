/** A stable sort by an integer key, as `Array.prototype.sort` with a subtracting comparator gives. */
module Sorting {

  /** Inserts `x` after every element whose key is not larger. */
  function Insert<T>(sorted: seq<T>, x: T, key: T -> int): (r: seq<T>)
    ensures |r| == |sorted| + 1
  {
    if sorted == [] || key(sorted[|sorted| - 1]) <= key(x) then sorted + [x]
    else Insert(sorted[..|sorted| - 1], x, key) + [sorted[|sorted| - 1]]
  }

  function StableSort<T>(list: seq<T>, key: T -> int): (r: seq<T>)
    ensures |r| == |list|
  {
    if list == [] then [] else Insert(StableSort(list[..|list| - 1], key), list[|list| - 1], key)
  }

  ghost predicate IsSorted<T>(list: seq<T>, key: T -> int) {
    forall i, j :: 0 <= i < j < |list| ==> key(list[i]) <= key(list[j])
  }

  lemma {:induction false} InsertPermutes<T>(sorted: seq<T>, x: T, key: T -> int)
    ensures multiset(Insert(sorted, x, key)) == multiset(sorted) + multiset{x}
  {
    if sorted != [] && key(sorted[|sorted| - 1]) > key(x) {
      InsertPermutes(sorted[..|sorted| - 1], x, key);
      assert sorted == sorted[..|sorted| - 1] + [sorted[|sorted| - 1]];
    }
  }

  lemma {:induction false} InsertSorts<T>(sorted: seq<T>, x: T, key: T -> int, bound: int)
    requires IsSorted(sorted, key)
    requires key(x) <= bound && forall i :: 0 <= i < |sorted| ==> key(sorted[i]) <= bound
    ensures IsSorted(Insert(sorted, x, key), key)
    ensures forall i :: 0 <= i < |sorted| + 1 ==> key(Insert(sorted, x, key)[i]) <= bound
  {
    if sorted != [] && key(sorted[|sorted| - 1]) > key(x) {
      InsertSorts(sorted[..|sorted| - 1], x, key, key(sorted[|sorted| - 1]));
    }
  }

  lemma {:induction false} SortSorts<T>(list: seq<T>, key: T -> int)
    ensures IsSorted(StableSort(list, key), key)
  {
    if list != [] {
      var rest, last := StableSort(list[..|list| - 1], key), list[|list| - 1];
      SortSorts(list[..|list| - 1], key);
      var bound := if rest == [] || key(rest[|rest| - 1]) <= key(last) then key(last) else key(rest[|rest| - 1]);
      InsertSorts(rest, last, key, bound);
    }
  }

  lemma {:induction false} SortPermutes<T>(list: seq<T>, key: T -> int)
    ensures multiset(StableSort(list, key)) == multiset(list)
  {
    if list != [] {
      SortPermutes(list[..|list| - 1], key);
      InsertPermutes(StableSort(list[..|list| - 1], key), list[|list| - 1], key);
      assert list == list[..|list| - 1] + [list[|list| - 1]];
    }
  }

  /** The rows with one key, in order. */
  function WithKey<T>(list: seq<T>, key: T -> int, k: int): seq<T> {
    if list == [] then []
    else WithKey(list[..|list| - 1], key, k) + if key(list[|list| - 1]) == k then [list[|list| - 1]] else []
  }

  lemma WithKeySnoc<T>(list: seq<T>, x: T, key: T -> int, k: int)
    ensures WithKey(list + [x], key, k) == WithKey(list, key, k) + if key(x) == k then [x] else []
  {
    assert (list + [x])[..|list|] == list;
  }

  lemma {:induction false} InsertStable<T>(sorted: seq<T>, x: T, key: T -> int, k: int)
    ensures WithKey(Insert(sorted, x, key), key, k) == WithKey(sorted, key, k) + if key(x) == k then [x] else []
  {
    if sorted == [] || key(sorted[|sorted| - 1]) <= key(x) {
      WithKeySnoc(sorted, x, key, k);
    } else {
      var rest, last := sorted[..|sorted| - 1], sorted[|sorted| - 1];
      InsertStable(rest, x, key, k);
      WithKeySnoc(Insert(rest, x, key), last, key, k);
    }
  }

  /** Rows with the same key keep their order. */
  lemma {:induction false} SortStable<T>(list: seq<T>, key: T -> int, k: int)
    ensures WithKey(StableSort(list, key), key, k) == WithKey(list, key, k)
  {
    if list != [] {
      SortStable(list[..|list| - 1], key, k);
      InsertStable(StableSort(list[..|list| - 1], key), list[|list| - 1], key, k);
    }
  }

  lemma SameElements<T>(a: seq<T>, b: seq<T>)
    requires multiset(a) == multiset(b)
    ensures forall x :: x in a <==> x in b
  {
    forall x ensures x in a <==> x in b {
      assert x in a <==> x in multiset(a);
      assert x in b <==> x in multiset(b);
    }
  }
}
