/** The client side of the chat-list sync contract: the replica a browser keeps, and when it equals the
    list a full resync would have given. */
module ChatListClient {
  import opened Wrappers
  import opened ParentGraph
  import opened ChatListDelta
  import opened SyncToken

  // ---- The tree list ------------------------------------------------------------------------

  ghost function KeptOf(m: map<Id, Dto>): set<Id> {
    KeptAncestors(ParentsOf(m), LiveOf(m), ArchivedOf(m))
  }

  /** What `archived=tree` lists: live rows, and archived rows with a live descendant under an unbroken
      archived chain. */
  ghost function TreeRows(m: map<Id, Dto>): map<Id, Dto> {
    map id | id in m && (id in LiveOf(m) || id in KeptOf(m)) :: m[id]
  }

  function NextArchivedRow(m: map<Id, Dto>, id: Id): Id {
    if id in m && m[id].forkParentChatId != NoId && m[id].forkParentChatId in m
      && m[m[id].forkParentChatId].IsArchived()
    then m[id].forkParentChatId else NoId
  }

  lemma NextArchivedRowIsEdge(m: map<Id, Dto>)
    ensures IsNext(id => NextArchivedRow(m, id), ChainEdges(m))
  {
  }

  ghost predicate ClosedUp(up: Up, s: set<Id>) {
    forall b {:trigger up[b]} :: b in s && b in up ==> up[b] in s
  }

  /** Drops archived rows without a live descendant, in place. */
  method PruneArchivedWithoutLiveDescendants(rows: map<Id, Dto>) returns (pruned: map<Id, Dto>)
    requires NoId !in rows
    ensures pruned == TreeRows(rows)
  {
    ghost var up, kept := ChainEdges(rows), KeptOf(rows);
    var keep: set<Id> := {};
    var todo := rows.Keys;
    while todo != {}
      invariant todo <= rows.Keys
      invariant keep <= kept && ClosedUp(up, keep)
      invariant forall x {:trigger up[x]} :: x in rows.Keys - todo && !rows[x].IsArchived() && x in up ==> up[x] in keep
      decreases todo
    {
      var x :| x in todo;
      todo := todo - {x};
      if !rows[x].IsArchived() {
        keep := KeepChain(rows, x, keep);
      }
    }
    KeptIsReached(rows, keep);
    pruned := map id | id in rows && (!rows[id].IsArchived() || id in keep) :: rows[id];
  }

  /** Keeps the archived chain above one live row. */
  method KeepChain(rows: map<Id, Dto>, x: Id, keep: set<Id>) returns (all: set<Id>)
    requires NoId !in rows && x in LiveOf(rows)
    requires keep <= KeptOf(rows) && ClosedUp(ChainEdges(rows), keep)
    ensures keep <= all <= KeptOf(rows) && ClosedUp(ChainEdges(rows), all)
    ensures x in ChainEdges(rows) ==> ChainEdges(rows)[x] in all
  {
    ghost var up := ChainEdges(rows);
    NextArchivedRowIsEdge(rows);
    var steps;
    all, steps := ClimbInto(id => NextArchivedRow(rows, id), up, x, keep);
    ClimbedAreKept(rows, x, keep, all);
  }

  lemma ClimbedAreKept(m: map<Id, Dto>, x: Id, before: set<Id>, keep: set<Id>)
    requires x in LiveOf(m) && before <= KeptOf(m)
    requires forall y :: y in keep ==> y in before || Above(ChainEdges(m), x, y)
    ensures keep <= KeptOf(m)
  {
    forall y | y in keep && y !in before ensures y in KeptOf(m) {
      AboveIsArchived(ParentsOf(m), ArchivedOf(m), x, y);
    }
  }

  lemma KeptIsReached(m: map<Id, Dto>, keep: set<Id>)
    requires ClosedUp(ChainEdges(m), keep)
    requires forall x {:trigger ChainEdges(m)[x]} :: x in m && !m[x].IsArchived() && x in ChainEdges(m) ==>
      ChainEdges(m)[x] in keep
    ensures KeptOf(m) <= keep
  {
    forall k | k in KeptOf(m) ensures k in keep {
      var x :| x in LiveOf(m) && Above(ChainEdges(m), x, k);
      ClosedHoldsAncestors(ChainEdges(m), keep, x);
    }
  }

  // ---- The replica --------------------------------------------------------------------------

  datatype Outcome = Applied | Stale | GapFound

  datatype ArchiveMode = Tree | Include

  /** Another epoch, or a delta that starts after the held position, is a gap; one that ends at or
      before it is stale. */
  ghost function Judge(position: Option<Token>, epoch: string, since: nat, target: nat): Outcome {
    if position.None? || position.value.epoch != epoch then GapFound
    else if target <= position.value.position then Stale
    else if since > position.value.position then GapFound
    else Applied
  }

  class ChatListSyncClient {
    const archiveMode: ArchiveMode
    var rows: map<Id, Dto>
    var position: Option<Token>

    /** Rows are indexed by their own ids. */
    ghost predicate Valid()
      reads this
    {
      NoId !in rows
    }

    constructor (archiveMode: ArchiveMode)
      ensures Valid() && rows == map[] && position == None && this.archiveMode == archiveMode
    {
      this.archiveMode := archiveMode;
      rows, position := map[], None;
    }

    /** A delta applies only when it starts at or before the held position and ends after it. */
    method ApplyDelta(epoch: string, since: nat, target: nat, upserts: map<Id, Dto>, removed: set<Id>)
      returns (outcome: Outcome)
      requires Valid() && NoId !in upserts
      modifies this
      ensures Valid()
      ensures outcome == Judge(old(position), epoch, since, target)
      ensures outcome == Applied
         <==> old(position).Some? && old(position).value.epoch == epoch
              && since <= old(position).value.position < target
      ensures outcome == Stale
         <==> old(position).Some? && old(position).value.epoch == epoch && target <= old(position).value.position
      ensures outcome != Applied ==> rows == old(rows) && position == old(position)
      ensures outcome == Applied ==> position == Some(Token(epoch, target))
      ensures outcome == Applied && archiveMode == Include ==> rows == Patch(old(rows), upserts, removed)
      ensures outcome == Applied && archiveMode == Tree ==> rows == TreeRows(Patch(old(rows), upserts, removed))
    {
      if position.None? || position.value.epoch != epoch {
        return GapFound;
      }
      if target <= position.value.position {
        return Stale;
      }
      if since > position.value.position {
        return GapFound;
      }
      rows := (rows + upserts) - removed;
      position := Some(Token(epoch, target));
      if archiveMode == Tree {
        rows := PruneArchivedWithoutLiveDescendants(rows);
      }
      return Applied;
    }
  }

  // ---- Tree parity --------------------------------------------------------------------------

  lemma {:induction false} StepsMonotone(small: map<Id, Dto>, big: map<Id, Dto>, x: Id, y: Id, n: nat)
    requires IsPart(small, big)
    requires Steps(ChainEdges(small), x, y, n)
    ensures Steps(ChainEdges(big), x, y, n)
    decreases n
  {
    if n > 0 {
      StepsMonotone(small, big, ChainEdges(small)[x], y, n - 1);
    }
  }

  /** `x` is the live row or one of the archived rows above it. */
  ghost predicate OnChain(m: map<Id, Dto>, live: Id, x: Id) {
    live in LiveOf(m) && (x == live || Above(ChainEdges(m), live, x))
  }

  lemma OnChainIsListed(m: map<Id, Dto>, live: Id, x: Id)
    requires OnChain(m, live, x)
    ensures x in TreeRows(m)
  {
    if x != live {
      AboveIsArchived(ParentsOf(m), ArchivedOf(m), live, x);
      assert x in KeptOf(m);
    }
  }

  lemma OnChainClimbs(m: map<Id, Dto>, live: Id, x: Id)
    requires OnChain(m, live, x) && x in ChainEdges(m)
    ensures OnChain(m, live, ChainEdges(m)[x])
  {
    var up := ChainEdges(m);
    ReachesSelf(up, up[x]);
    if x != live {
      ReachesUnfold(up, x, up[x]);
      ReachesTransitive(up, up[live], x, up[x]);
    }
  }

  ghost predicate IsPart(small: map<Id, Dto>, big: map<Id, Dto>) {
    forall id :: id in small ==> id in big && small[id] == big[id]
  }

  lemma EdgeSurvives(small: map<Id, Dto>, big: map<Id, Dto>, live: Id, x: Id)
    requires IsPart(small, big) && TreeRows(big).Keys <= small.Keys
    requires OnChain(big, live, x) && x in ChainEdges(big)
    ensures x in ChainEdges(small) && ChainEdges(small)[x] == ChainEdges(big)[x]
      && OnChain(big, live, ChainEdges(big)[x])
  {
    OnChainIsListed(big, live, x);
    OnChainClimbs(big, live, x);
    OnChainIsListed(big, live, ChainEdges(big)[x]);
    assert x in small && ChainEdges(big)[x] in small;
  }

  /** The chain above a live row survives in any part of the map that has the tree rows. */
  lemma {:induction false} ChainSurvives(small: map<Id, Dto>, big: map<Id, Dto>, live: Id, x: Id, y: Id, n: nat)
    requires IsPart(small, big) && TreeRows(big).Keys <= small.Keys
    requires OnChain(big, live, x) && Steps(ChainEdges(big), x, y, n)
    ensures Steps(ChainEdges(small), x, y, n)
    decreases n
  {
    if n > 0 {
      EdgeSurvives(small, big, live, x);
      ChainSurvives(small, big, live, ChainEdges(big)[x], y, n - 1);
    }
  }

  lemma KeptInPart(small: map<Id, Dto>, big: map<Id, Dto>, k: Id)
    requires IsPart(small, big)
    requires k in KeptOf(small)
    ensures k in KeptOf(big)
  {
    var x :| x in LiveOf(small) && Above(ChainEdges(small), x, k);
    var n: nat :| Steps(ChainEdges(small), ChainEdges(small)[x], k, n);
    StepsMonotone(small, big, ChainEdges(small)[x], k, n);
    AboveKeeps(big, x, k);
  }

  lemma AboveSurvives(small: map<Id, Dto>, big: map<Id, Dto>, x: Id, k: Id)
    requires IsPart(small, big) && TreeRows(big).Keys <= small.Keys
    requires x in LiveOf(big) && Above(ChainEdges(big), x, k)
    ensures x in LiveOf(small) && Above(ChainEdges(small), x, k)
  {
    var n: nat :| Steps(ChainEdges(big), ChainEdges(big)[x], k, n);
    assert Steps(ChainEdges(big), x, k, n + 1);
    ChainSurvives(small, big, x, x, k, n + 1);
    OnChainIsListed(big, x, x);
    assert Steps(ChainEdges(small), ChainEdges(small)[x], k, n);
  }

  lemma KeptOfWhole(small: map<Id, Dto>, big: map<Id, Dto>, k: Id)
    requires IsPart(small, big)
    requires TreeRows(big).Keys <= small.Keys && k in KeptOf(big)
    ensures k in KeptOf(small)
  {
    var x :| x in LiveOf(big) && Above(ChainEdges(big), x, k);
    AboveSurvives(small, big, x, k);
    AboveKeeps(small, x, k);
  }

  /** The tree list of a map is unchanged by dropping rows outside it. */
  lemma TreeOfPart(small: map<Id, Dto>, big: map<Id, Dto>)
    requires IsPart(small, big)
    requires TreeRows(big).Keys <= small.Keys
    ensures TreeRows(small) == TreeRows(big)
  {
    forall k | k in KeptOf(small) ensures k in KeptOf(big) {
      KeptInPart(small, big, k);
    }
    forall k | k in KeptOf(big) ensures k in KeptOf(small) {
      KeptOfWhole(small, big, k);
    }
  }

  /** An archived row that became a kept ancestor although nothing brought it to the client: it was not
      kept before, no change touched it, and no touched live row is below it on the chain. */
  ghost predicate Stranded(entries: seq<Entry>, was: map<Id, Dto>, now: map<Id, Dto>, q: Id) {
    q in KeptOf(now) && q !in KeptOf(was) && !TouchedBy(entries, q) && !TravelsWith(entries, now, q)
  }

  /** A replica that keeps the tree list and applies a delta holds the tree list a resync would give,
      if and only if no ancestor is stranded. */
  lemma TreeParityExact(entries: seq<Entry>, obs: seq<map<Id, Dto>>, p: nat, inScope: ScopeFields -> bool,
                        upserts: map<Id, Dto>, removed: set<Id>)
    requires DescribesAll(entries, obs) && p <= |entries|
    requires IsDelta(entries, Scoped(obs[|entries|], inScope), inScope, upserts, removed)
    ensures var was, now := Scoped(obs[p], inScope), Scoped(obs[|entries|], inScope);
      TreeRows(Patch(TreeRows(was), upserts, removed)) == TreeRows(now) <==> !exists q :: Stranded(entries, was, now, q)
  {
    var was, now := Scoped(obs[p], inScope), Scoped(obs[|entries|], inScope);
    var result := Patch(TreeRows(was), upserts, removed);
    DeltaConverges(entries, obs, p, inScope, upserts, removed);
    assert Patch(was, upserts, removed) == now;
    forall id | id in result ensures id in now && result[id] == now[id] {
      assert id in Patch(was, upserts, removed);
    }
    if exists q :: Stranded(entries, was, now, q) {
      var q :| Stranded(entries, was, now, q);
      assert q in TreeRows(now);
      UntouchedSame(entries, obs, p, q);
      assert q !in TreeRows(was) && q !in upserts;
    } else {
      forall id | id in TreeRows(now) ensures id in result {
        if !TouchedBy(entries, id) && !TravelsWith(entries, now, id) {
          UntouchedSame(entries, obs, p, id);
          assert id in TreeRows(was) by {
            if id in KeptOf(now) {
              assert !Stranded(entries, was, now, id);
            }
          }
        }
      }
      TreeOfPart(result, now);
    }
  }

  /** The chain above an untouched live row was there before when no touched row is on it. */
  lemma {:induction false} UntouchedChain(entries: seq<Entry>, obs: seq<map<Id, Dto>>, p: nat,
                                          inScope: ScopeFields -> bool, live: Id, x: Id, y: Id, n: nat)
    requires DescribesAll(entries, obs) && p <= |entries|
    requires forall id :: id in ArchivedOf(Scoped(obs[|entries|], inScope)) ==> !TouchedBy(entries, id)
    requires OnChain(Scoped(obs[|entries|], inScope), live, x) && !TouchedBy(entries, live)
    requires Steps(ChainEdges(Scoped(obs[|entries|], inScope)), x, y, n)
    ensures Steps(ChainEdges(Scoped(obs[p], inScope)), x, y, n)
    decreases n
  {
    if n > 0 {
      var was, now := Scoped(obs[p], inScope), Scoped(obs[|entries|], inScope);
      var parent := ChainEdges(now)[x];
      OnChainUntouched(entries, obs, p, inScope, live, x);
      OnChainClimbs(now, live, x);
      OnChainUntouched(entries, obs, p, inScope, live, parent);
      UntouchedChain(entries, obs, p, inScope, live, parent, y, n - 1);
    }
  }

  lemma OnChainUntouched(entries: seq<Entry>, obs: seq<map<Id, Dto>>, p: nat, inScope: ScopeFields -> bool, live: Id,
                         x: Id)
    requires DescribesAll(entries, obs) && p <= |entries|
    requires forall id :: id in ArchivedOf(Scoped(obs[|entries|], inScope)) ==> !TouchedBy(entries, id)
    requires OnChain(Scoped(obs[|entries|], inScope), live, x) && !TouchedBy(entries, live)
    ensures x in Scoped(obs[p], inScope) && x in Scoped(obs[|entries|], inScope)
    ensures Scoped(obs[p], inScope)[x] == Scoped(obs[|entries|], inScope)[x]
  {
    var now := Scoped(obs[|entries|], inScope);
    OnChainIsListed(now, live, x);
    if x != live {
      AboveIsArchived(ParentsOf(now), ArchivedOf(now), live, x);
    }
    UntouchedSame(entries, obs, p, x);
  }

  /** An untouched chain that keeps an archived row now kept it before. */
  lemma UntouchedKept(entries: seq<Entry>, obs: seq<map<Id, Dto>>, p: nat, inScope: ScopeFields -> bool, live: Id,
                      q: Id)
    requires DescribesAll(entries, obs) && p <= |entries|
    requires forall id :: id in ArchivedOf(Scoped(obs[|entries|], inScope)) ==> !TouchedBy(entries, id)
    requires live in LiveOf(Scoped(obs[|entries|], inScope)) && !TouchedBy(entries, live)
    requires Above(ChainEdges(Scoped(obs[|entries|], inScope)), live, q)
    ensures q in KeptOf(Scoped(obs[p], inScope))
  {
    var was, now := Scoped(obs[p], inScope), Scoped(obs[|entries|], inScope);
    var nowUp, wasUp := ChainEdges(now), ChainEdges(was);
    var n: nat :| Steps(nowUp, nowUp[live], q, n);
    assert Steps(nowUp, live, q, n + 1);
    UntouchedChain(entries, obs, p, inScope, live, live, q, n + 1);
    OnChainUntouched(entries, obs, p, inScope, live, live);
    OnChainUntouched(entries, obs, p, inScope, live, q);
    AboveIsArchived(ParentsOf(now), ArchivedOf(now), live, q);
    assert Steps(wasUp, wasUp[live], q, n);
    AboveKeeps(was, live, q);
  }

  lemma AboveKeeps(m: map<Id, Dto>, live: Id, q: Id)
    requires live in LiveOf(m) && Above(ChainEdges(m), live, q)
    ensures q in KeptOf(m)
  {
    AboveIsArchived(ParentsOf(m), ArchivedOf(m), live, q);
  }

  /** When no changed row is archived in scope now, the delta state is identical to a resync. */
  lemma TreeParityWithoutArchivedChanges(entries: seq<Entry>, obs: seq<map<Id, Dto>>, p: nat,
                                         inScope: ScopeFields -> bool, upserts: map<Id, Dto>, removed: set<Id>)
    requires DescribesAll(entries, obs) && p <= |entries|
    requires IsDelta(entries, Scoped(obs[|entries|], inScope), inScope, upserts, removed)
    requires forall id :: id in ArchivedOf(Scoped(obs[|entries|], inScope)) ==> !TouchedBy(entries, id)
    ensures TreeRows(Patch(TreeRows(Scoped(obs[p], inScope)), upserts, removed))
      == TreeRows(Scoped(obs[|entries|], inScope))
  {
    var was, now := Scoped(obs[p], inScope), Scoped(obs[|entries|], inScope);
    TreeParityExact(entries, obs, p, inScope, upserts, removed);
    forall q ensures !Stranded(entries, was, now, q) {
      if q in KeptOf(now) && !TravelsWith(entries, now, q) {
        var x :| x in LiveOf(now) && Above(ChainEdges(now), x, q);
        UntouchedKept(entries, obs, p, inScope, x, q);
      }
    }
  }

  // ---- Where parity fails -------------------------------------------------------------------

  function SampleDto(id: Id, parent: Id, archivedAt: string): Dto {
    Dto(ScopeFields(id, "", "", "", ""), archivedAt, parent, "", "", false)
  }

  function SampleBefore(a: Id, b: Id, c: Id): map<Id, Dto> {
    map[a := SampleDto(a, NoId, "x"), b := SampleDto(b, NoId, "x"), c := SampleDto(c, b, "")]
  }

  function SampleAfter(a: Id, b: Id, c: Id): map<Id, Dto> {
    map[a := SampleDto(a, NoId, "x"), b := SampleDto(b, a, "x"), c := SampleDto(c, b, "")]
  }

  function SampleEntry(a: Id, b: Id, c: Id): Entry
    requires b != c
  {
    Entry(2, false, [Change(b, Some(SampleBefore(a, b, c)[b].scope), Some(SampleAfter(a, b, c)[b].scope))])
  }

  /** A live row `c` stays under the archived row `b`; only `b` moves, from the top to below the archived
      row `a`. The delta carries `b` alone, because only live upserts bring their ancestors, while a
      resync lists `a` as well. */
  lemma TreeParityFails(a: Id, b: Id, c: Id)
    requires a != b && a != c && b != c && NoId !in {a, b, c}
    ensures var before, after, entry := SampleBefore(a, b, c), SampleAfter(a, b, c), SampleEntry(a, b, c);
      var all := (fields: ScopeFields) => true;
      && DescribesAll([entry], [before, after])
      && IsDelta([entry], Scoped(after, all), all, map[b := after[b]], {})
      && TreeRows(Patch(TreeRows(Scoped(before, all)), map[b := after[b]], {})) != TreeRows(Scoped(after, all))
  {
    var before, after, entry := SampleBefore(a, b, c), SampleAfter(a, b, c), SampleEntry(a, b, c);
    var all := (fields: ScopeFields) => true;
    SampleKept(a, b, c);
    SampleNotKept(a, b, c);
    SampleTouches(a, b, c);
    assert Scoped(before, all) == before && Scoped(after, all) == after;
    assert DescribesAll([entry], [before, after]) by { SampleDescribes(a, b, c); }
    assert IsDelta([entry], after, all, map[b := after[b]], {}) by { SampleIsDelta(a, b, c, all); }
    assert Stranded([entry], before, after, a);
    assert [before, after][|[entry]|] == after;
    TreeParityExact([entry], [before, after], 0, all, map[b := after[b]], {});
  }

  lemma SampleDescribes(a: Id, b: Id, c: Id)
    requires a != b && a != c && b != c && NoId !in {a, b, c}
    ensures DescribesAll([SampleEntry(a, b, c)], [SampleBefore(a, b, c), SampleAfter(a, b, c)])
  {
    var before, after, entry := SampleBefore(a, b, c), SampleAfter(a, b, c), SampleEntry(a, b, c);
    assert ChangedIds(before, after) == {b};
    assert entry.changes[0].id == b && entry.changes[0] in entry.changes;
    assert Describes(entry, before, after);
  }

  lemma SampleTouches(a: Id, b: Id, c: Id)
    requires a != b && a != c && b != c
    ensures forall id :: TouchedBy([SampleEntry(a, b, c)], id) <==> id == b
    ensures forall x :: x in LiveOf(SampleAfter(a, b, c)) ==> !TouchedBy([SampleEntry(a, b, c)], x)
  {
    var entry := SampleEntry(a, b, c);
    assert entry.changes[0].id == b && entry.changes[0] in entry.changes && entry in [entry];
  }

  lemma SampleIsDelta(a: Id, b: Id, c: Id, all: ScopeFields -> bool)
    requires a != b && a != c && b != c && forall fields :: all(fields)
    ensures IsDelta([SampleEntry(a, b, c)], SampleAfter(a, b, c), all, map[b := SampleAfter(a, b, c)[b]], {})
  {
    SampleTouches(a, b, c);
    forall id ensures !(id !in SampleAfter(a, b, c) && WasVisible([SampleEntry(a, b, c)], all, id)) {
      if WasVisible([SampleEntry(a, b, c)], all, id) {
        assert TouchedBy([SampleEntry(a, b, c)], id);
      }
    }
  }

  lemma SampleKept(a: Id, b: Id, c: Id)
    requires a != b && a != c && b != c && NoId !in {a, b, c}
    ensures a in KeptOf(SampleAfter(a, b, c))
  {
    var after := SampleAfter(a, b, c);
    var up := ChainEdges(after);
    assert b in up && up[b] == a && c in up && up[c] == b;
    assert Steps(up, a, a, 0) && Steps(up, b, a, 1);
    AboveKeeps(after, c, a);
  }

  lemma SampleNotKept(a: Id, b: Id, c: Id)
    requires a != b && a != c && b != c && NoId !in {a, b, c}
    ensures a !in KeptOf(SampleBefore(a, b, c))
  {
    var before := SampleBefore(a, b, c);
    var up := ChainEdges(before);
    assert b !in up && (c in up ==> up[c] == b);
    forall x | x in LiveOf(before) ensures !Above(up, x, a) {
      assert x == c;
      ReachesUnfold(up, b, a);
    }
  }
}
