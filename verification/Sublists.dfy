/** Filtered lists by positions: what it means that a list holds exactly the wanted items of another one,
    each once and in order. */
module Sublists {
  /** `sub` reads `list` at the increasing positions `at`, which are exactly the wanted ones. */
  ghost predicate Picks<T>(at: seq<nat>, sub: seq<T>, list: seq<T>, want: T -> bool) {
    && |at| == |sub|
    && (forall k :: 0 <= k < |at| ==> at[k] < |list| && sub[k] == list[at[k]])
    && (forall j, k :: 0 <= j < k < |at| ==> at[j] < at[k])
    && (forall p :: 0 <= p < |list| ==> (p in at <==> want(list[p])))
  }

  /** `sub` is the wanted part of `list`, in order. */
  ghost predicate IsSublist<T>(sub: seq<T>, list: seq<T>, want: T -> bool) {
    exists at :: Picks(at, sub, list, want)
  }

  lemma SublistEmpty<T>(want: T -> bool)
    ensures IsSublist([], [], want)
  {
    var none: seq<T> := [];
    assert Picks([], none, none, want);
  }

  /** One more item belongs to the part if and only if it is wanted. */
  lemma SublistSnoc<T>(sub: seq<T>, list: seq<T>, last: T, want: T -> bool)
    requires IsSublist(sub, list, want)
    ensures IsSublist(sub + if want(last) then [last] else [], list + [last], want)
  {
    var at: seq<nat> :| Picks(at, sub, list, want);
    if want(last) {
      PickOneMore(at, sub, list, last, want);
    } else {
      assert sub + [] == sub;
      assert |list| !in at;
      assert Picks(at, sub, list + [last], want);
    }
  }

  lemma PickOneMore<T>(at: seq<nat>, sub: seq<T>, list: seq<T>, last: T, want: T -> bool)
    requires Picks(at, sub, list, want) && want(last)
    ensures Picks(at + [|list|], sub + [last], list + [last], want)
  {
    var longer := at + [|list|];
    forall p | 0 <= p < |list| ensures p in longer <==> want((list + [last])[p]) {
      assert p in longer <==> p in at;
    }
    assert longer[|at|] == |list|;
  }

  /** Equivalent wishes pick the same part. */
  lemma SublistSame<T>(sub: seq<T>, list: seq<T>, want: T -> bool, other: T -> bool)
    requires IsSublist(sub, list, want) && forall x :: x in list ==> (want(x) <==> other(x))
    ensures IsSublist(sub, list, other)
  {
    var at :| Picks(at, sub, list, want);
    assert Picks(at, sub, list, other);
  }
}
