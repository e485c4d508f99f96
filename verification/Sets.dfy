/** Sizes of finite sets, and lists as sets. */
module Sets {
  lemma SubsetSize<T>(a: set<T>, b: set<T>)
    requires a <= b
    ensures |a| <= |b|
  {
    assert b == a + (b - a);
  }

  lemma DisjointUnion<T>(a: set<T>, b: set<T>, union: set<T>)
    requires a !! b && forall x :: x in union <==> x in a || x in b
    ensures union == a + b && |union| == |a| + |b|
  {
  }

  lemma UnionSize<T>(a: set<T>, b: set<T>)
    ensures |a + b| <= |a| + |b|
    ensures |a + b| == |a| + |b| <==> a !! b
  {
    assert |a + b| == |a| + |b| - |a * b|;
  }

  function Elements<T(==)>(list: seq<T>): set<T> {
    set x | x in list
  }

  ghost predicate NoRepeats<T>(list: seq<T>) {
    forall i, j :: 0 <= i < j < |list| ==> list[i] != list[j]
  }

  lemma NoRepeatsConcat<T>(a: seq<T>, b: seq<T>)
    requires NoRepeats(a) && NoRepeats(b) && Elements(a) !! Elements(b)
    ensures NoRepeats(a + b) && Elements(a + b) == Elements(a) + Elements(b)
  {
    forall i, j | 0 <= i < j < |a + b| ensures (a + b)[i] != (a + b)[j] {
      if i < |a| <= j {
        assert a[i] in Elements(a) && b[j - |a|] in Elements(b);
      }
    }
  }

  lemma NoRepeatsSnoc<T>(list: seq<T>, last: T)
    requires NoRepeats(list) && last !in Elements(list)
    ensures NoRepeats(list + [last]) && Elements(list + [last]) == Elements(list) + {last}
  {
    assert Elements([last]) == {last};
    NoRepeatsConcat(list, [last]);
  }
}
