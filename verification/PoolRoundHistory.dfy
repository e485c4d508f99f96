/** The bounded history of replaced reviewer-pool rounds: one entry per round, newest last. */
module PoolRoundHistory {
  import opened CodeReviewPhase

  const MAX_HISTORY := 20

  /** The same key, epoch and members are one round, whatever its results. */
  datatype Signature = Signature(key: Key, epoch: nat, started: seq<JobId>)

  function SignatureOf(r: PoolRound): Signature {
    Signature(r.key, r.epoch, r.started)
  }

  function Without(list: seq<PoolRound>, s: Signature): seq<PoolRound> {
    if list == [] then []
    else
      var last := list[|list| - 1];
      Without(list[..|list| - 1], s) + if SignatureOf(last) == s then [] else [last]
  }

  function Newest(list: seq<PoolRound>, n: nat): seq<PoolRound> {
    if |list| <= n then list else list[|list| - n..]
  }

  /** Every round at its last occurrence. */
  function LastOccurrences(list: seq<PoolRound>): seq<PoolRound> {
    if list == [] then []
    else
      var last := list[|list| - 1];
      Without(LastOccurrences(list[..|list| - 1]), SignatureOf(last)) + [last]
  }

  function Normalized(list: seq<PoolRound>): seq<PoolRound> {
    Newest(LastOccurrences(list), MAX_HISTORY)
  }

  ghost predicate DistinctRounds(list: seq<PoolRound>) {
    forall i, j :: 0 <= i < j < |list| ==> SignatureOf(list[i]) != SignatureOf(list[j])
  }

  /** An insertion-ordered map by signature in which a later record replaces an earlier one and moves last. */
  method NormalizeHistory(raw: seq<PoolRound>) returns (history: seq<PoolRound>)
    ensures history == Normalized(raw) && KeepsNewest(history, raw)
  {
    NormalizedKeepsNewest(raw);
    var bySignature: seq<PoolRound> := [];
    for i := 0 to |raw|
      invariant bySignature == LastOccurrences(raw[..i])
    {
      assert raw[..i + 1][..i] == raw[..i];
      bySignature := Without(bySignature, SignatureOf(raw[i]));
      bySignature := bySignature + [raw[i]];
    }
    assert raw[..|raw|] == raw;
    history := Newest(bySignature, MAX_HISTORY);
  }

  /** Appends one replaced round. Archiving rounds one at a time is the same as normalizing the whole
      history at once. */
  method ArchivePoolRound(raw: seq<PoolRound>, record: PoolRound) returns (history: seq<PoolRound>)
    ensures history == Normalized(raw + [record]) && KeepsNewest(history, raw + [record])
  {
    NormalizedKeepsNewest(raw + [record]);
    var before := NormalizeHistory(raw);
    var next := Without(before, SignatureOf(record));
    next := next + [record];
    history := Newest(next, MAX_HISTORY);
    ArchiveNormalizes(raw, record);
  }

  lemma {:induction false} WithoutMember(list: seq<PoolRound>, s: Signature, r: PoolRound)
    ensures r in Without(list, s) <==> r in list && SignatureOf(r) != s
  {
    if list != [] {
      WithoutMember(list[..|list| - 1], s, r);
      assert list == list[..|list| - 1] + [list[|list| - 1]];
    }
  }

  lemma {:induction false} WithoutConcat(a: seq<PoolRound>, b: seq<PoolRound>, s: Signature)
    ensures Without(a + b, s) == Without(a, s) + Without(b, s)
  {
    if b == [] {
      assert a + b == a && Without(a, s) + [] == Without(a, s);
    } else {
      var rest, last := b[..|b| - 1], b[|b| - 1];
      assert a + b == a + rest + [last];
      WithoutSnoc(a + rest, last, s);
      WithoutConcat(a, rest, s);
      AppendLast(Without(a, s), Without(rest, s), last, s);
    }
  }

  lemma AppendLast(a: seq<PoolRound>, b: seq<PoolRound>, last: PoolRound, s: Signature)
    ensures (a + b) + (if SignatureOf(last) == s then [] else [last])
      == a + (b + if SignatureOf(last) == s then [] else [last])
  {
  }

  lemma WithoutSnoc(list: seq<PoolRound>, last: PoolRound, s: Signature)
    ensures Without(list + [last], s) == Without(list, s) + if SignatureOf(last) == s then [] else [last]
  {
    assert (list + [last])[..|list|] == list;
  }

  lemma {:induction false} WithoutNone(list: seq<PoolRound>, s: Signature)
    requires forall r :: r in list ==> SignatureOf(r) != s
    ensures Without(list, s) == list
  {
    if list != [] {
      var rest, last := list[..|list| - 1], list[|list| - 1];
      assert list == rest + [last];
      WithoutNone(rest, s);
    }
  }

  lemma DistinctSnoc(list: seq<PoolRound>, last: PoolRound)
    requires DistinctRounds(list) && forall r :: r in list ==> SignatureOf(r) != SignatureOf(last)
    ensures DistinctRounds(list + [last])
  {
  }

  lemma WithoutMembers(list: seq<PoolRound>, s: Signature)
    ensures forall r :: r in Without(list, s) ==> r in list
  {
    forall r | r in Without(list, s) ensures r in list {
      WithoutMember(list, s, r);
    }
  }

  /** Where rounds are distinct, taking one out removes at most one entry. */
  lemma {:induction false} WithoutDistinct(list: seq<PoolRound>, s: Signature)
    requires DistinctRounds(list)
    ensures DistinctRounds(Without(list, s)) && |Without(list, s)| + 1 >= |list|
    ensures (forall r :: r in list ==> SignatureOf(r) != s) ==> Without(list, s) == list
  {
    if list != [] {
      var rest, last := list[..|list| - 1], list[|list| - 1];
      assert list == rest + [last];
      WithoutDistinct(rest, s);
      LastIsNew(list);
      if SignatureOf(last) == s {
        WithoutNone(rest, s);
      } else {
        WithoutMembers(rest, s);
        DistinctSnoc(Without(rest, s), last);
      }
    }
  }

  /** A normalized history has each round once and at most the bound. */
  lemma {:induction false} LastOccurrencesDistinct(list: seq<PoolRound>)
    ensures DistinctRounds(LastOccurrences(list))
  {
    if list != [] {
      var rest, s := LastOccurrences(list[..|list| - 1]), SignatureOf(list[|list| - 1]);
      LastOccurrencesDistinct(list[..|list| - 1]);
      WithoutDistinct(rest, s);
      forall i | 0 <= i < |Without(rest, s)| ensures SignatureOf(Without(rest, s)[i]) != s {
        WithoutMember(rest, s, Without(rest, s)[i]);
      }
    }
  }

  /** No later entry is the same round. */
  ghost predicate NewestAt(list: seq<PoolRound>, i: nat)
    requires i < |list|
  {
    forall j :: i < j < |list| ==> SignatureOf(list[j]) != SignatureOf(list[i])
  }

  lemma NewestSnoc(rest: seq<PoolRound>, last: PoolRound, i: nat)
    requires i < |rest|
    ensures NewestAt(rest + [last], i) <==> NewestAt(rest, i) && SignatureOf(last) != SignatureOf(rest[i])
  {
    var list := rest + [last];
    if NewestAt(list, i) {
      assert list[|rest|] == last;
      forall j | i < j < |rest| ensures SignatureOf(rest[j]) != SignatureOf(rest[i]) {
        assert list[j] == rest[j];
      }
    }
  }

  /** The newest value of a round wins: exactly the entries without a later one of the same round are kept. */
  lemma {:induction false} NewestValueWins(list: seq<PoolRound>, r: PoolRound)
    ensures r in LastOccurrences(list) <==> exists i: nat :: i < |list| && list[i] == r && NewestAt(list, i)
  {
    if list != [] {
      var rest, last := list[..|list| - 1], list[|list| - 1];
      assert list == rest + [last];
      NewestValueWins(rest, r);
      WithoutMember(LastOccurrences(rest), SignatureOf(last), r);
      forall i: nat | i < |rest|
        ensures NewestAt(list, i) <==> NewestAt(rest, i) && SignatureOf(last) != SignatureOf(rest[i])
      {
        NewestSnoc(rest, last, i);
      }
      assert NewestAt(list, |rest|);
    }
  }

  // ---- The kept positions -------------------------------------------------------------------

  /** The same key, epoch and started members. */
  predicate SameRound(a: PoolRound, b: PoolRound) {
    a.key == b.key && a.epoch == b.epoch && a.started == b.started
  }

  /** No later entry is the same round. */
  ghost predicate IsLastOfRound(list: seq<PoolRound>, p: nat)
    requires p < |list|
  {
    forall j :: p < j < |list| ==> !SameRound(list[j], list[p])
  }

  /** `sub` reads `list` at increasing positions. */
  ghost predicate Reads(at: seq<nat>, sub: seq<PoolRound>, list: seq<PoolRound>) {
    && |at| == |sub| && (forall k :: 0 <= k < |at| ==> at[k] < |list| && sub[k] == list[at[k]])
    && (forall j, k :: 0 <= j < k < |at| ==> at[j] < at[k])
  }

  /** What a history is: the last occurrence of each round, in order, and of more than twenty the newest twenty. */
  ghost predicate KeepsNewest(history: seq<PoolRound>, list: seq<PoolRound>) {
    exists at :: Reads(at, history, list) && HoldsLastRounds(at, list)
  }

  ghost predicate HoldsLastRounds(at: seq<nat>, list: seq<PoolRound>) {
    && |at| <= 20
    && (forall p :: p in at ==> p < |list| && IsLastOfRound(list, p))
    && (forall p: nat :: p < |list| && IsLastOfRound(list, p) && p !in at ==>
          |at| == 20 && forall k :: 0 <= k < |at| ==> p < at[k])
  }

  lemma {:induction false} ReadsWithout(at: seq<nat>, sub: seq<PoolRound>, list: seq<PoolRound>, s: Signature)
    returns (kept: seq<nat>)
    requires Reads(at, sub, list)
    ensures Reads(kept, Without(sub, s), list)
    ensures forall p :: p in kept <==> p in at && SignatureOf(list[p]) != s
    decreases |sub|
  {
    kept := [];
    if sub != [] {
      var n := |sub| - 1;
      kept := ReadsWithout(at[..n], sub[..n], list, s);
      assert at == at[..n] + [at[n]];
      if SignatureOf(sub[n]) != s {
        forall k | 0 <= k < |kept| ensures kept[k] < at[n] {
          assert kept[k] in at[..n];
        }
        kept := kept + [at[n]];
      }
    }
  }

  lemma {:induction false} LastOccurrencesAt(list: seq<PoolRound>) returns (at: seq<nat>)
    ensures Reads(at, LastOccurrences(list), list)
    ensures forall p: nat :: p in at <==> p < |list| && IsLastOfRound(list, p)
  {
    at := [];
    if list != [] {
      var n := |list| - 1;
      var rest, last := list[..n], list[n];
      var before := LastOccurrencesAt(rest);
      var kept := ReadsWithout(before, LastOccurrences(rest), rest, SignatureOf(last));
      at := kept + [n];
      ReadsOneMore(kept, Without(LastOccurrences(rest), SignatureOf(last)), list);
      LastOneMore(list, before, kept);
    }
  }

  lemma ReadsOneMore(kept: seq<nat>, sub: seq<PoolRound>, list: seq<PoolRound>)
    requires list != [] && Reads(kept, sub, list[..|list| - 1])
    ensures Reads(kept + [|list| - 1], sub + [list[|list| - 1]], list)
  {
  }

  lemma LastOneMore(list: seq<PoolRound>, before: seq<nat>, kept: seq<nat>)
    requires list != []
    requires forall p: nat :: p in before <==> p < |list| - 1 && IsLastOfRound(list[..|list| - 1], p)
    requires forall p :: p in kept <==> p in before && SignatureOf(list[p]) != SignatureOf(list[|list| - 1])
    ensures forall p: nat :: p in kept + [|list| - 1] <==> p < |list| && IsLastOfRound(list, p)
  {
    var n := |list| - 1;
    forall p: nat ensures p in kept + [n] <==> p < |list| && IsLastOfRound(list, p) {
      LastOfLonger(list, p);
      assert p in kept + [n] <==> p in kept || p == n;
    }
  }

  lemma LastOfLonger(list: seq<PoolRound>, p: nat)
    requires list != []
    ensures var n := |list| - 1;
      p < |list| ==> (IsLastOfRound(list, p)
                      <==> p == n || (IsLastOfRound(list[..n], p) && SignatureOf(list[p]) != SignatureOf(list[n])))
  {
    var n := |list| - 1;
    if p < n {
      forall j | p < j < n ensures list[..n][j] == list[j] {
      }
    }
  }

  lemma NormalizedKeepsNewest(list: seq<PoolRound>)
    ensures KeepsNewest(Normalized(list), list)
  {
    var all := LastOccurrences(list);
    var at := LastOccurrencesAt(list);
    if |all| <= MAX_HISTORY {
      assert Reads(at, Normalized(list), list) && HoldsLastRounds(at, list);
    } else {
      var tail := at[|at| - MAX_HISTORY..];
      assert Reads(tail, Normalized(list), list);
      forall p: nat | p < |list| && IsLastOfRound(list, p) && p !in tail
        ensures forall k :: 0 <= k < |tail| ==> p < tail[k]
      {
        assert at == at[..|at| - MAX_HISTORY] + tail;
        assert p in at[..|at| - MAX_HISTORY];
      }
      assert HoldsLastRounds(tail, list);
    }
  }

  lemma BoundFirst(all: seq<PoolRound>, s: Signature, record: PoolRound)
    requires DistinctRounds(all) && |all| > MAX_HISTORY
    ensures Newest(Without(Newest(all, MAX_HISTORY), s) + [record], MAX_HISTORY)
      == Newest(Without(all, s) + [record], MAX_HISTORY)
  {
    var older, kept := all[..|all| - MAX_HISTORY], all[|all| - MAX_HISTORY..];
    assert all == older + kept;
    WithoutConcat(older, kept, s);
    assert DistinctRounds(kept);
    WithoutDistinct(kept, s);
    LongTail(Without(older, s), Without(kept, s) + [record]);
    assert Without(older, s) + (Without(kept, s) + [record]) == Without(all, s) + [record];
  }

  /** Bounding before one more round loses nothing that bounding afterwards would keep. */
  lemma ArchiveNormalizes(raw: seq<PoolRound>, record: PoolRound)
    ensures Newest(Without(Normalized(raw), SignatureOf(record)) + [record], MAX_HISTORY) == Normalized(raw + [record])
  {
    var all := LastOccurrences(raw);
    assert (raw + [record])[..|raw|] == raw;
    LastOccurrencesDistinct(raw);
    if |all| > MAX_HISTORY {
      BoundFirst(all, SignatureOf(record), record);
    }
  }

  lemma LongTail(a: seq<PoolRound>, b: seq<PoolRound>)
    requires |b| >= MAX_HISTORY
    ensures Newest(a + b, MAX_HISTORY) == Newest(b, MAX_HISTORY)
  {
  }

  lemma {:induction false} DistinctUnchanged(list: seq<PoolRound>)
    requires DistinctRounds(list)
    ensures LastOccurrences(list) == list
  {
    if list != [] {
      var rest, last := list[..|list| - 1], list[|list| - 1];
      assert list == rest + [last];
      DistinctUnchanged(rest);
      LastIsNew(list);
      WithoutDistinct(rest, SignatureOf(last));
    }
  }

  lemma LastIsNew(list: seq<PoolRound>)
    requires list != [] && DistinctRounds(list)
    ensures forall r :: r in list[..|list| - 1] ==> SignatureOf(r) != SignatureOf(list[|list| - 1])
  {
    var rest := list[..|list| - 1];
    forall r | r in rest ensures SignatureOf(r) != SignatureOf(list[|list| - 1]) {
      var k :| 0 <= k < |rest| && rest[k] == r;
      assert list[k] == rest[k];
    }
  }

  /** Normalizing again changes nothing. */
  lemma NormalizeTwice(raw: seq<PoolRound>)
    ensures Normalized(Normalized(raw)) == Normalized(raw) && |Normalized(raw)| <= MAX_HISTORY
      && DistinctRounds(Normalized(raw))
  {
    LastOccurrencesDistinct(raw);
    DistinctUnchanged(Normalized(raw));
  }
}
