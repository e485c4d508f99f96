/** A replica over a whole run of deltas in tree mode: what it always holds, when it equals the list a
    resync would give, and how long an ancestor that was left behind stays missing. */
module ChatListReplica {
  import opened ParentGraph
  import opened Wrappers
  import opened SyncToken
  import opened ChatListDelta
  import opened ChatListClient

  /** A delta of the steps from observation `since` to observation `target`. */
  datatype DeltaMessage = DeltaMessage(since: nat, target: nat, upserts: map<Id, Dto>, removed: set<Id>)

  /** The observations the server made and the entries that describe their steps. */
  datatype History = History(entries: seq<Entry>, obs: seq<map<Id, Dto>>, inScope: ScopeFields -> bool) {
    ghost predicate Valid() {
      DescribesAll(entries, obs)
    }

    /** What the scope sees of an observation. */
    function Seen(at: nat): map<Id, Dto> {
      if at < |obs| then Scoped(obs[at], inScope) else map[]
    }
  }

  /** The changes a delta is about. */
  function Window(h: History, d: DeltaMessage): seq<Entry> {
    if d.since <= d.target <= |h.entries| then h.entries[d.since..d.target] else []
  }

  /** A replica at observation `held` takes the delta, and the server computed it from its history. */
  ghost predicate Applies(h: History, held: nat, d: DeltaMessage) {
    && d.since <= held < d.target <= |h.entries|
    && IsDelta(Window(h, d), h.Seen(d.target), h.inScope, d.upserts, d.removed)
  }

  /** The client takes exactly the deltas that may apply: of its own epoch, from its position or before, to a
      later one. */
  lemma JudgedToApply(h: History, epoch: string, held: nat, from: string, d: DeltaMessage)
    requires d.target <= |h.entries|
    requires IsDelta(Window(h, d), h.Seen(d.target), h.inScope, d.upserts, d.removed)
    ensures Judge(Some(Token(epoch, held)), from, d.since, d.target) == Outcome.Applied
       <==> from == epoch && Applies(h, held, d)
  {
  }

  /** The observation a replica has reached after `n` deltas. */
  function HeldAt(start: nat, deltas: seq<DeltaMessage>, n: nat): nat
    requires n <= |deltas|
  {
    if n == 0 then start else deltas[n - 1].target
  }

  /** A resync at `start`, and then one delta after the other, each followed by pruning. */
  ghost predicate IsRun(h: History, start: nat, deltas: seq<DeltaMessage>, replicas: seq<map<Id, Dto>>) {
    && h.Valid() && start < |h.obs| && |replicas| == |deltas| + 1
    && replicas[0] == TreeRows(h.Seen(start))
    && forall n :: 0 <= n < |deltas| ==> StepAt(h, start, deltas, replicas, n)
  }

  ghost predicate StepAt(h: History, start: nat, deltas: seq<DeltaMessage>, replicas: seq<map<Id, Dto>>, n: nat)
    requires n < |deltas| && |replicas| == |deltas| + 1
  {
    && Applies(h, HeldAt(start, deltas, n), deltas[n])
    && replicas[n + 1] == TreeRows(Patch(replicas[n], deltas[n].upserts, deltas[n].removed))
  }

  /** The rows of a resync after `n` deltas. */
  function SeenAt(h: History, start: nat, deltas: seq<DeltaMessage>, n: nat): map<Id, Dto>
    requires n <= |deltas|
  {
    h.Seen(HeldAt(start, deltas, n))
  }

  // ---- One delta ----------------------------------------------------------------------------

  /** The replica holds nothing but current rows, and all live ones. */
  ghost predicate HoldsLive(replica: map<Id, Dto>, seen: map<Id, Dto>) {
    IsPart(replica, seen) && LiveOf(seen) <= replica.Keys
  }

  /** The delta brings the row. */
  ghost predicate Delivered(h: History, d: DeltaMessage, id: Id) {
    TouchedBy(Window(h, d), id) || TravelsWith(Window(h, d), h.Seen(d.target), id)
  }

  /** The window of a delta describes its observations, and the held one is among them. */
  lemma WindowConverges(h: History, held: nat, d: DeltaMessage)
    requires h.Valid() && Applies(h, held, d)
    ensures Patch(h.Seen(held), d.upserts, d.removed) == h.Seen(d.target)
    ensures forall id :: !TouchedBy(Window(h, d), id) ==> SameAt(h.obs[held], h.obs[d.target], id)
  {
    var entries, obs := Window(h, d), h.obs[d.since..d.target + 1];
    assert DescribesAll(entries, obs) by {
      forall i | 0 <= i < |entries| ensures Describes(entries[i], obs[i], obs[i + 1]) {
        assert Describes(h.entries[d.since + i], h.obs[d.since + i], h.obs[d.since + i + 1]);
      }
    }
    assert obs[held - d.since] == h.obs[held] && obs[|entries|] == h.obs[d.target];
    DeltaConverges(entries, obs, held - d.since, h.inScope, d.upserts, d.removed);
    forall id | !TouchedBy(entries, id) ensures SameAt(h.obs[held], h.obs[d.target], id) {
      UntouchedSame(entries, obs, held - d.since, id);
    }
  }

  lemma PatchedPart(h: History, held: nat, d: DeltaMessage, replica: map<Id, Dto>)
    requires h.Valid() && Applies(h, held, d) && HoldsLive(replica, h.Seen(held))
    ensures HoldsLive(Patch(replica, d.upserts, d.removed), h.Seen(d.target))
    ensures forall id :: id in h.Seen(d.target) ==>
      (id in Patch(replica, d.upserts, d.removed) <==> id in replica || Delivered(h, d, id))
  {
    var was, now, result := h.Seen(held), h.Seen(d.target), Patch(replica, d.upserts, d.removed);
    WindowConverges(h, held, d);
    forall id | id in result ensures id in now && result[id] == now[id] {
      assert id in Patch(was, d.upserts, d.removed);
    }
    forall id | id in LiveOf(now) ensures id in result {
      if !TouchedBy(Window(h, d), id) {
        assert id in LiveOf(was);
      }
    }
  }

  /** A pruned part is a part of the tree list. */
  lemma PrunedPart(part: map<Id, Dto>, seen: map<Id, Dto>)
    requires HoldsLive(part, seen)
    ensures HoldsLive(TreeRows(part), seen) && IsPart(TreeRows(part), TreeRows(seen))
  {
    forall id | id in TreeRows(part) ensures id in TreeRows(seen) {
      if id in KeptOf(part) {
        KeptInPart(part, seen, id);
      }
    }
  }

  lemma ParityOfPart(part: map<Id, Dto>, seen: map<Id, Dto>)
    requires HoldsLive(part, seen)
    ensures TreeRows(part) == TreeRows(seen) <==> forall q :: q in KeptOf(seen) ==> q in part
  {
    if forall q :: q in KeptOf(seen) ==> q in part {
      TreeOfPart(part, seen);
    } else {
      var q :| q in KeptOf(seen) && q !in part;
      assert q in TreeRows(seen) && q !in TreeRows(part);
    }
  }

  // ---- Over a run ---------------------------------------------------------------------------

  /** In every run of deltas, with or without stranded ancestors, a replica holds all live rows and nothing that a
      resync would not list: what it can miss is archived ancestors alone. */
  lemma {:induction false} RunHoldsLive(h: History, start: nat, deltas: seq<DeltaMessage>, replicas: seq<map<Id, Dto>>,
                                        n: nat)
    requires IsRun(h, start, deltas, replicas) && n <= |deltas|
    ensures HoldsLive(replicas[n], SeenAt(h, start, deltas, n))
    ensures IsPart(replicas[n], TreeRows(SeenAt(h, start, deltas, n)))
  {
    if n > 0 {
      RunHoldsLive(h, start, deltas, replicas, n - 1);
      var held, d := HeldAt(start, deltas, n - 1), deltas[n - 1];
      assert StepAt(h, start, deltas, replicas, n - 1);
      PatchedPart(h, held, d, replicas[n - 1]);
      PrunedPart(Patch(replicas[n - 1], d.upserts, d.removed), h.Seen(d.target));
    }
  }

  /** An archived ancestor of a live row that the replica does not hold and the delta does not bring. */
  ghost predicate Lost(h: History, d: DeltaMessage, replica: map<Id, Dto>, q: Id) {
    q in KeptOf(h.Seen(d.target)) && q !in replica && !Delivered(h, d, q)
  }

  lemma DeltaParity(h: History, held: nat, d: DeltaMessage, replica: map<Id, Dto>)
    requires h.Valid() && Applies(h, held, d) && HoldsLive(replica, h.Seen(held))
    ensures TreeRows(Patch(replica, d.upserts, d.removed)) == TreeRows(h.Seen(d.target))
      <==> forall q :: !Lost(h, d, replica, q)
  {
    PatchedPart(h, held, d, replica);
    ParityOfPart(Patch(replica, d.upserts, d.removed), h.Seen(d.target));
    forall q | q in KeptOf(h.Seen(d.target))
      ensures Lost(h, d, replica, q) <==> q !in Patch(replica, d.upserts, d.removed)
    {
    }
  }

  /** After any earlier losses, a delta leaves exactly the tree list if and only if it brings every archived ancestor
      of a live row that the replica does not hold. */
  lemma ParityRestoredExactly(h: History, start: nat, deltas: seq<DeltaMessage>, replicas: seq<map<Id, Dto>>, n: nat)
    requires IsRun(h, start, deltas, replicas) && n < |deltas|
    ensures replicas[n + 1] == TreeRows(SeenAt(h, start, deltas, n + 1))
      <==> forall q :: !Lost(h, deltas[n], replicas[n], q)
  {
    RunHoldsLive(h, start, deltas, replicas, n);
    assert StepAt(h, start, deltas, replicas, n);
    DeltaParity(h, HeldAt(start, deltas, n), deltas[n], replicas[n]);
  }

  lemma NewRowIsBrought(h: History, start: nat, deltas: seq<DeltaMessage>, replicas: seq<map<Id, Dto>>, n: nat, q: Id)
    requires IsRun(h, start, deltas, replicas) && n < |deltas| && q !in replicas[n] && q in replicas[n + 1]
    ensures Brings(h, start, deltas, n, q)
  {
    assert StepAt(h, start, deltas, replicas, n);
    assert q in deltas[n].upserts;
  }

  /** A row that a replica misses stays missing until a delta brings it. */
  lemma {:induction false} MissingUntilDelivered(h: History, start: nat, deltas: seq<DeltaMessage>,
                                                 replicas: seq<map<Id, Dto>>, m: nat, n: nat, q: Id)
    returns (k: nat)
    requires IsRun(h, start, deltas, replicas) && m <= n <= |deltas|
    requires q !in replicas[m] && q in replicas[n]
    ensures m <= k < n && Brings(h, start, deltas, k, q)
    decreases n
  {
    k := n - 1;
    if q in replicas[k] {
      k := MissingUntilDelivered(h, start, deltas, replicas, m, k, q);
    } else {
      NewRowIsBrought(h, start, deltas, replicas, k, q);
    }
  }

  ghost predicate Brings(h: History, start: nat, deltas: seq<DeltaMessage>, k: nat, q: Id) {
    k < |deltas| && Applies(h, HeldAt(start, deltas, k), deltas[k]) && Delivered(h, deltas[k], q)
  }

  // ---- Row by row ---------------------------------------------------------------------------

  /** The chain of `n` parents from `x` to `q` lies in a set of rows. */
  ghost predicate PresentChain(present: set<Id>, edges: Up, x: Id, q: Id, n: nat)
    decreases n
  {
    x in present && if n == 0 then x == q else x in edges && PresentChain(present, edges, edges[x], q, n - 1)
  }

  /** The chains of a part are the chains of the whole that lie in it. */
  lemma {:induction false} ChainOfPart(part: map<Id, Dto>, seen: map<Id, Dto>, x: Id, q: Id, n: nat)
    requires IsPart(part, seen)
    ensures x in part && Steps(ChainEdges(part), x, q, n) <==> PresentChain(part.Keys, ChainEdges(seen), x, q, n)
    decreases n
  {
    if n > 0 && x in part && x in ChainEdges(seen) {
      ChainOfPart(part, seen, ChainEdges(seen)[x], q, n - 1);
      assert x in ChainEdges(part) <==> ChainEdges(seen)[x] in part;
    }
  }

  /** Some live row reaches the row over present rows alone. */
  ghost predicate Reached(present: set<Id>, seen: map<Id, Dto>, q: Id) {
    exists x, n: nat :: n > 0 && x in LiveOf(seen) && PresentChain(present, ChainEdges(seen), x, q, n)
  }

  lemma PartKeptIsReached(part: map<Id, Dto>, seen: map<Id, Dto>, q: Id)
    requires HoldsLive(part, seen) && q in KeptOf(part)
    ensures Reached(part.Keys, seen, q)
  {
    var up := ChainEdges(part);
    var x :| x in LiveOf(part) && Above(up, x, q);
    var n: nat :| Steps(up, up[x], q, n);
    assert Steps(up, x, q, n + 1);
    ChainOfPart(part, seen, x, q, n + 1);
    assert x in LiveOf(seen);
  }

  lemma PartReachedIsKept(part: map<Id, Dto>, seen: map<Id, Dto>, q: Id)
    requires HoldsLive(part, seen) && Reached(part.Keys, seen, q)
    ensures q in KeptOf(part)
  {
    var up := ChainEdges(part);
    var x, n: nat :| n > 0 && x in LiveOf(seen) && PresentChain(part.Keys, ChainEdges(seen), x, q, n);
    ChainOfPart(part, seen, x, q, n);
    assert Steps(up, up[x], q, n - 1);
    AboveKeeps(part, x, q);
  }

  /** The rows a replica held or the delta brought. */
  ghost function Available(h: History, d: DeltaMessage, replica: map<Id, Dto>): set<Id> {
    set id | id in h.Seen(d.target) && (id in replica || Delivered(h, d, id))
  }

  /** What a replica lists after a delta, whatever was lost before: the live rows, and the archived rows that a live row
      reaches over rows that were held or brought. One missing ancestor therefore takes those above it along. */
  lemma ListedExactly(h: History, start: nat, deltas: seq<DeltaMessage>, replicas: seq<map<Id, Dto>>, n: nat, q: Id)
    requires IsRun(h, start, deltas, replicas) && n < |deltas|
    ensures var seen := SeenAt(h, start, deltas, n + 1);
      q in replicas[n + 1] <==> q in LiveOf(seen) || Reached(Available(h, deltas[n], replicas[n]), seen, q)
  {
    RunHoldsLive(h, start, deltas, replicas, n);
    assert StepAt(h, start, deltas, replicas, n);
    var held, d, seen := HeldAt(start, deltas, n), deltas[n], SeenAt(h, start, deltas, n + 1);
    var part := Patch(replicas[n], d.upserts, d.removed);
    PatchedPart(h, held, d, replicas[n]);
    assert part.Keys == Available(h, d, replicas[n]);
    if q in KeptOf(part) {
      PartKeptIsReached(part, seen, q);
    }
    if Reached(part.Keys, seen, q) {
      PartReachedIsKept(part, seen, q);
    }
  }

  // ---- Runs without losses ------------------------------------------------------------------

  /** A step of the run leaves an ancestor behind. */
  ghost predicate StrandsAt(h: History, start: nat, deltas: seq<DeltaMessage>, k: nat, q: Id)
    requires k < |deltas|
  {
    Stranded(Window(h, deltas[k]), SeenAt(h, start, deltas, k), SeenAt(h, start, deltas, k + 1), q)
  }

  ghost predicate Strands(h: History, start: nat, deltas: seq<DeltaMessage>, k: nat)
    requires k < |deltas|
  {
    exists q :: StrandsAt(h, start, deltas, k, q)
  }

  /** The replica is the list a resync would give. */
  ghost predicate ParityAt(h: History, start: nat, deltas: seq<DeltaMessage>, replicas: seq<map<Id, Dto>>, k: nat)
    requires k <= |deltas| && k < |replicas|
  {
    replicas[k] == TreeRows(SeenAt(h, start, deltas, k))
  }

  /** On a replica that holds exactly the tree list, the losses of a delta are the ancestors it strands. */
  lemma StrandedIsLost(h: History, held: nat, d: DeltaMessage, q: Id)
    requires h.Valid() && Applies(h, held, d)
    ensures Lost(h, d, TreeRows(h.Seen(held)), q) <==> Stranded(Window(h, d), h.Seen(held), h.Seen(d.target), q)
  {
    var was, now := h.Seen(held), h.Seen(d.target);
    WindowConverges(h, held, d);
    if q in KeptOf(now) && !Delivered(h, d, q) {
      assert q in now && SameAt(h.obs[held], h.obs[d.target], q) && q in ArchivedOf(was);
    }
  }

  lemma ParityStep(h: History, start: nat, deltas: seq<DeltaMessage>, replicas: seq<map<Id, Dto>>, n: nat)
    requires IsRun(h, start, deltas, replicas) && n < |deltas| && ParityAt(h, start, deltas, replicas, n)
    ensures ParityAt(h, start, deltas, replicas, n + 1) <==> !Strands(h, start, deltas, n)
  {
    ParityRestoredExactly(h, start, deltas, replicas, n);
    assert StepAt(h, start, deltas, replicas, n);
    forall q ensures Lost(h, deltas[n], replicas[n], q) <==> StrandsAt(h, start, deltas, n, q) {
      StrandedIsLost(h, HeldAt(start, deltas, n), deltas[n], q);
    }
  }

  /** A replica equals the list of a resync after every delta of a run if and only if no delta strands an ancestor. */
  lemma RunParityExactly(h: History, start: nat, deltas: seq<DeltaMessage>, replicas: seq<map<Id, Dto>>)
    requires IsRun(h, start, deltas, replicas)
    ensures (forall k :: 0 <= k <= |deltas| ==> ParityAt(h, start, deltas, replicas, k))
       <==> (forall k :: 0 <= k < |deltas| ==> !Strands(h, start, deltas, k))
  {
    if forall k :: 0 <= k <= |deltas| ==> ParityAt(h, start, deltas, replicas, k) {
      forall k | 0 <= k < |deltas| ensures !Strands(h, start, deltas, k) {
        assert ParityAt(h, start, deltas, replicas, k) && ParityAt(h, start, deltas, replicas, k + 1);
        ParityStep(h, start, deltas, replicas, k);
      }
    }
    if forall k :: 0 <= k < |deltas| ==> !Strands(h, start, deltas, k) {
      forall k | 0 <= k <= |deltas| ensures ParityAt(h, start, deltas, replicas, k) {
        ParityKept(h, start, deltas, replicas, k);
      }
    }
  }

  lemma {:induction false} ParityKept(h: History, start: nat, deltas: seq<DeltaMessage>, replicas: seq<map<Id, Dto>>,
                                      n: nat)
    requires IsRun(h, start, deltas, replicas) && n <= |deltas|
    requires forall k :: 0 <= k < n ==> !Strands(h, start, deltas, k)
    ensures ParityAt(h, start, deltas, replicas, n)
  {
    if n > 0 {
      ParityKept(h, start, deltas, replicas, n - 1);
      ParityStep(h, start, deltas, replicas, n - 1);
    }
  }
}
