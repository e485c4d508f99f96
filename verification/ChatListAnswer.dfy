/** The answer to a client position: `buildChatListSyncResponse`, proved against the meaning of deltas. */
module ChatListAnswer {
  import opened Wrappers
  import opened ParentGraph
  import opened ChatListDelta
  import opened SyncToken
  import opened ChatListSync

  /** A chat-list request. `jsonLength` is the serialized size of a delta, which only ever adds a reason
      to resync. */
  datatype Request = Request(
    since: string, scope: Scope, matcher: (ScopeFields, Scope) -> bool, worktreeTodoIds: set<string>,
    jsonLength: (map<Id, Dto>, set<Id>) -> nat)
  {
    function InScope(): ScopeFields -> bool {
      (fields: ScopeFields) => IsChatInScope(fields, scope, matcher)
    }
  }

  // ---- Ring entries newer than the token ----------------------------------------------------

  function Newer(ring: seq<Entry>, since: nat): seq<Entry> {
    if ring == [] then []
    else
      var last := ring[|ring| - 1];
      Newer(ring[..|ring| - 1], since) + (if last.toSeq > since then [last] else [])
  }

  predicate Consecutive(ring: seq<Entry>, first: nat) {
    forall i :: 0 <= i < |ring| ==> ring[i].toSeq == first + i
  }

  /** The newer entries are a suffix of the ring. */
  lemma {:induction false} NewerIsSuffix(ring: seq<Entry>, first: nat, since: nat)
    requires Consecutive(ring, first)
    ensures Newer(ring, since)
         == if since < first then ring else if since - first < |ring| then ring[since - first + 1..] else []
  {
    if ring != [] {
      var rest, last := ring[..|ring| - 1], ring[|ring| - 1];
      NewerIsSuffix(rest, first, since);
      assert ring == rest + [last] && last.toSeq == first + |rest|;
      if first <= since && since - first < |rest| {
        assert ring[since - first + 1..] == rest[since - first + 1..] + [last];
      }
    }
  }

  lemma RingConsecutive(ring: seq<Entry>, ringSize: nat, maxRows: nat, history: seq<map<Id, Dto>>)
    requires RingOk(ring, ringSize, maxRows, history)
    ensures Consecutive(ring, |history| - |ring| + 1)
  {
    forall i | 0 <= i < |ring| ensures ring[i].toSeq == |history| - |ring| + 1 + i {
      assert EntryOk(ring[i], |history| - |ring| + 1 + i, maxRows, history);
    }
  }

  /** A token at position 0 or older than the ring never finds all of its entries. */
  lemma GapExactly(ring: seq<Entry>, ringSize: nat, maxRows: nat, history: seq<map<Id, Dto>>, since: nat)
    requires RingOk(ring, ringSize, maxRows, history) && since < |history|
    ensures |Newer(ring, since)| != |history| - since <==> since < |history| - |ring|
    ensures since >= |history| - |ring| ==> Newer(ring, since) == ring[|ring| - (|history| - since)..]
  {
    RingConsecutive(ring, ringSize, maxRows, history);
    NewerIsSuffix(ring, |history| - |ring| + 1, since);
  }

  /** The entries between an observation and the present describe every step in between. */
  lemma NewerDescribes(ring: seq<Entry>, ringSize: nat, maxRows: nat, history: seq<map<Id, Dto>>, since: nat)
    requires RingOk(ring, ringSize, maxRows, history) && |history| - |ring| <= since < |history|
    requires forall e :: e in Newer(ring, since) ==> !e.overflow
    ensures DescribesAll(Newer(ring, since), history[since - 1..])
  {
    GapExactly(ring, ringSize, maxRows, history, since);
    var skip := |ring| - (|history| - since);
    var entries, obs := Newer(ring, since), history[since - 1..];
    forall i | 0 <= i < |entries| ensures Describes(entries[i], obs[i], obs[i + 1]) {
      assert entries[i] == ring[skip + i] && entries[i] in entries;
      assert obs[i] == history[since - 1 + i] && obs[i + 1] == history[since + i];
      EntryAt(ring, ringSize, maxRows, history, skip + i);
    }
  }

  lemma EntryAt(ring: seq<Entry>, ringSize: nat, maxRows: nat, history: seq<map<Id, Dto>>, i: nat)
    requires RingOk(ring, ringSize, maxRows, history) && i < |ring|
    ensures !ring[i].overflow ==>
      Describes(ring[i], history[|history| - |ring| + i - 1], history[|history| - |ring| + i])
  {
    assert EntryOk(ring[i], |history| - |ring| + 1 + i, maxRows, history);
  }

  ghost predicate BigStep(history: seq<map<Id, Dto>>, p: nat, maxRows: nat)
    requires 0 < p < |history|
  {
    |ChangedIds(history[p - 1], history[p])| > maxRows
  }

  /** Within the ring a token finds an overflow if and only if some step since then changed more than `maxRows` rows. */
  lemma OverflowExactly(ring: seq<Entry>, ringSize: nat, maxRows: nat, history: seq<map<Id, Dto>>, since: nat)
    requires RingOk(ring, ringSize, maxRows, history) && |history| - |ring| <= since < |history|
    ensures (exists e :: e in Newer(ring, since) && e.overflow)
       <==> (exists p :: 0 < p < |history| && since <= p && BigStep(history, p, maxRows))
  {
    GapExactly(ring, ringSize, maxRows, history, since);
    var entries := Newer(ring, since);
    forall i | 0 <= i < |entries| ensures entries[i].overflow <==> BigStep(history, since + i, maxRows) {
      assert EntryOk(ring[|ring| - (|history| - since) + i], since + i + 1, maxRows, history);
    }
    if p :| 0 < p < |history| && since <= p && BigStep(history, p, maxRows) {
      assert entries[p - since].overflow && entries[p - since] in entries;
    }
    if e :| e in entries && e.overflow {
      var i :| 0 <= i < |entries| && entries[i] == e;
      assert BigStep(history, since + i, maxRows);
    }
  }

  lemma DeltaReachesNow(ring: seq<Entry>, ringSize: nat, maxRows: nat, history: seq<map<Id, Dto>>, since: nat,
                        inScope: ScopeFields -> bool, upserts: map<Id, Dto>, removed: set<Id>)
    requires RingOk(ring, ringSize, maxRows, history) && |history| - |ring| <= since < |history|
    requires forall e :: e in Newer(ring, since) ==> !e.overflow
    requires IsDelta(Newer(ring, since), Scoped(history[|history| - 1], inScope), inScope, upserts, removed)
    ensures forall i :: since - 1 <= i < |history| ==>
      Patch(Scoped(history[i], inScope), upserts, removed) == Scoped(history[|history| - 1], inScope)
  {
    NewerDescribes(ring, ringSize, maxRows, history, since);
    ReachesLast(Newer(ring, since), history, since, inScope, upserts, removed);
  }

  lemma ReachesLast(entries: seq<Entry>, history: seq<map<Id, Dto>>, since: nat, inScope: ScopeFields -> bool,
                    upserts: map<Id, Dto>, removed: set<Id>)
    requires 0 < since < |history| && DescribesAll(entries, history[since - 1..])
    requires IsDelta(entries, Scoped(history[|history| - 1], inScope), inScope, upserts, removed)
    ensures forall i :: since - 1 <= i < |history| ==>
      Patch(Scoped(history[i], inScope), upserts, removed) == Scoped(history[|history| - 1], inScope)
  {
    var obs := history[since - 1..];
    assert obs[|obs| - 1] == history[|history| - 1];
    forall i | since - 1 <= i < |history|
      ensures Patch(Scoped(history[i], inScope), upserts, removed) == Scoped(history[|history| - 1], inScope)
    {
      var k := i - since + 1;
      assert obs[k] == history[i];
      DeltaConverges(entries, obs, k, inScope, upserts, removed);
    }
  }

  // ---- Touched rows -------------------------------------------------------------------------

  /** Ids touched by some change, with whether any observed state was visible. */
  ghost predicate TouchedOk(touched: map<Id, bool>, entries: seq<Entry>, inScope: ScopeFields -> bool) {
    && (forall id :: id in touched <==> TouchedBy(entries, id))
    && (forall id :: id in touched ==> (touched[id] <==> WasVisible(entries, inScope, id)))
  }

  lemma TouchedSnoc(entries: seq<Entry>, e: Entry, inScope: ScopeFields -> bool, id: Id)
    ensures TouchedBy(entries + [e], id) <==> TouchedBy(entries, id) || TouchedBy([e], id)
    ensures WasVisible(entries + [e], inScope, id) <==> WasVisible(entries, inScope, id) || WasVisible([e], inScope, id)
  {
    assert forall x :: x in entries + [e] <==> x in entries || x in [e];
  }

  method TouchEntry(e: Entry, inScope: ScopeFields -> bool, earlier: map<Id, bool>) returns (touched: map<Id, bool>)
    ensures forall id :: id in touched <==> id in earlier || TouchedBy([e], id)
    ensures forall id ::
      id in touched ==> (touched[id] <==> (id in earlier && earlier[id]) || WasVisible([e], inScope, id))
  {
    touched := earlier;
    for j := 0 to |e.changes|
      invariant forall id :: id in touched <==> id in earlier || exists k :: 0 <= k < j && e.changes[k].id == id
      invariant forall id | id in touched :: touched[id] <==>
          (id in earlier && earlier[id])
            || exists k :: 0 <= k < j && e.changes[k].id == id && ChangeVisible(e.changes[k], inScope)
    {
      var change := e.changes[j];
      touched := touched[change.id := (change.id in touched && touched[change.id]) || ChangeVisible(change, inScope)];
    }
    assert e in [e];
    forall id ensures TouchedBy([e], id) <==> exists k :: 0 <= k < |e.changes| && e.changes[k].id == id {
      if TouchedBy([e], id) {
        var c :| c in e.changes && c.id == id;
      }
    }
    forall id ensures WasVisible([e], inScope, id)
      <==> exists k :: 0 <= k < |e.changes| && e.changes[k].id == id && ChangeVisible(e.changes[k], inScope)
    {
      if WasVisible([e], inScope, id) {
        var c :| c in e.changes && c.id == id && ChangeVisible(c, inScope);
      }
    }
  }

  method TouchRows(entries: seq<Entry>, inScope: ScopeFields -> bool) returns (touched: map<Id, bool>)
    ensures TouchedOk(touched, entries, inScope)
  {
    touched := map[];
    for i := 0 to |entries|
      invariant TouchedOk(touched, entries[..i], inScope)
    {
      assert entries[..i + 1] == entries[..i] + [entries[i]];
      forall id
        ensures TouchedBy(entries[..i + 1], id) <==> TouchedBy(entries[..i], id) || TouchedBy([entries[i]], id)
        ensures WasVisible(entries[..i + 1], inScope, id)
           <==> WasVisible(entries[..i], inScope, id) || WasVisible([entries[i]], inScope, id)
      {
        TouchedSnoc(entries[..i], entries[i], inScope, id);
      }
      WasVisibleTouches(entries[..i], inScope);
      touched := TouchEntry(entries[i], inScope, touched);
    }
    assert entries[..|entries|] == entries;
  }

  lemma WasVisibleTouches(entries: seq<Entry>, inScope: ScopeFields -> bool)
    ensures forall id :: WasVisible(entries, inScope, id) ==> TouchedBy(entries, id)
  {
  }

  // ---- Upserts and removals -----------------------------------------------------------------

  /** The current row of an id, if the scope may see it. */
  function SeenRow(rows: seq<Row>, inScope: ScopeFields -> bool, id: Id): Option<Row> {
    var row := GetRow(rows, id);
    if row.Some? && inScope(row.value.scope) then row else None
  }

  lemma SeenRowIsScoped(rows: seq<Row>, wt: set<string>, inScope: ScopeFields -> bool, id: Id)
    ensures var seen := Scoped(DtoMap(rows, wt), inScope);
      (SeenRow(rows, inScope, id).Some? <==> id in seen)
      && (id in seen ==> seen[id] == ToChatListDto(SeenRow(rows, inScope, id).value, wt))
  {
    LookupAgrees(rows, wt, id);
  }

  /** The archived in-scope parent that a row's ancestor walk goes to next. */
  function NextAncestor(rows: seq<Row>, inScope: ScopeFields -> bool, id: Id): Id {
    var row := SeenRow(rows, inScope, id);
    if row.None? || row.value.forkParentChatId == NoId then NoId
    else
      var parent := SeenRow(rows, inScope, row.value.forkParentChatId);
      if parent.Some? && parent.value.archivedAt != "" then row.value.forkParentChatId else NoId
  }

  lemma NextAncestorIsEdge(rows: seq<Row>, wt: set<string>, inScope: ScopeFields -> bool)
    ensures IsNext(id => NextAncestor(rows, inScope, id), ChainEdges(Scoped(DtoMap(rows, wt), inScope)))
  {
    var seen := Scoped(DtoMap(rows, wt), inScope);
    forall id | id != NoId
      ensures NextAncestor(rows, inScope, id) == (if id in ChainEdges(seen) then ChainEdges(seen)[id] else NoId)
      ensures id in ChainEdges(seen) ==> ChainEdges(seen)[id] != NoId
    {
      SeenRowIsScoped(rows, wt, inScope, id);
      var row := SeenRow(rows, inScope, id);
      if row.Some? {
        SeenRowIsScoped(rows, wt, inScope, row.value.forkParentChatId);
      }
    }
  }

  /** Touched rows in scope, and touched rows that left it after having been visible. */
  method SplitTouched(rows: seq<Row>, wt: set<string>, inScope: ScopeFields -> bool, touched: map<Id, bool>)
    returns (upserts: map<Id, Dto>, removed: set<Id>)
    ensures var seen := Scoped(DtoMap(rows, wt), inScope);
      (forall id :: id in upserts <==> id in seen && id in touched)
        && (forall id :: id in upserts ==> upserts[id] == seen[id])
      && (forall id :: id in removed <==> id !in seen && id in touched && touched[id])
  {
    upserts, removed := map[], {};
    var todo := touched.Keys;
    while todo != {}
      invariant todo <= touched.Keys
      invariant var seen := Scoped(DtoMap(rows, wt), inScope);
        (forall id :: id in upserts <==> id in seen && id in touched.Keys - todo)
          && (forall id :: id in upserts ==> upserts[id] == seen[id])
        && (forall id :: id in removed <==> id !in seen && id in touched.Keys - todo && touched[id])
      decreases todo
    {
      var id :| id in todo;
      todo := todo - {id};
      SeenRowIsScoped(rows, wt, inScope, id);
      var row := SeenRow(rows, inScope, id);
      if row.Some? {
        upserts := upserts[id := ToChatListDto(row.value, wt)];
      } else if touched[id] {
        removed := removed + {id};
      }
    }
  }

  /** Adds the archived ancestors of every upserted live row. */
  method AddAncestors(rows: seq<Row>, wt: set<string>, inScope: ScopeFields -> bool, base: map<Id, Dto>)
    returns (upserts: map<Id, Dto>)
    requires forall id :: id in base ==>
      id in Scoped(DtoMap(rows, wt), inScope) && base[id] == Scoped(DtoMap(rows, wt), inScope)[id]
    ensures var seen := Scoped(DtoMap(rows, wt), inScope);
      WithAncestors(upserts.Keys, base, base.Keys, ChainEdges(seen))
      && (forall id :: id in upserts ==> id in seen && upserts[id] == seen[id])
  {
    ghost var seen := Scoped(DtoMap(rows, wt), inScope);
    ghost var edges := ChainEdges(seen);
    NextAncestorIsEdge(rows, wt, inScope);
    upserts := base;
    var todo := base.Keys;
    ghost var done: set<Id> := {};
    while todo != {}
      invariant todo <= base.Keys && done == base.Keys - todo
      invariant WithAncestors(upserts.Keys, base, done, edges)
      invariant forall id :: id in upserts ==> id in seen && upserts[id] == seen[id]
      decreases todo
    {
      var x :| x in todo;
      ghost var before := upserts.Keys;
      ghost var above: set<Id> := {};
      if !base[x].IsArchived() {
        LookupAgrees(rows, wt, x);
        var ids := WalkAbove(id => NextAncestor(rows, inScope, id), edges, x);
        upserts := AddRows(rows, wt, inScope, upserts, ids, x);
        above := ids;
      }
      OneMoreWalk(before, base, done, edges, x, above);
      todo, done := todo - {x}, done + {x};
    }
    assert done == base.Keys;
  }

  /** The base rows, and the ancestors of those live ones that are in `done`. */
  ghost predicate WithAncestors(ids: set<Id>, base: map<Id, Dto>, done: set<Id>, edges: Up)
    requires done <= base.Keys
  {
    forall id :: id in ids <==> id in base || exists x :: x in done && !base[x].IsArchived() && Above(edges, x, id)
  }

  lemma OneMoreWalk(ids: set<Id>, base: map<Id, Dto>, done: set<Id>, edges: Up, x: Id, above: set<Id>)
    requires done <= base.Keys && x in base && WithAncestors(ids, base, done, edges)
    requires if base[x].IsArchived() then above == {} else forall id :: id in above <==> Above(edges, x, id)
    ensures WithAncestors(ids + above, base, done + {x}, edges)
  {
  }

  method AddRows(rows: seq<Row>, wt: set<string>, inScope: ScopeFields -> bool, earlier: map<Id, Dto>, ids: set<Id>,
                 ghost x: Id)
    returns (upserts: map<Id, Dto>)
    requires var seen := Scoped(DtoMap(rows, wt), inScope);
      (forall id :: id in earlier ==> id in seen && earlier[id] == seen[id])
        && (forall id :: id in ids ==> Above(ChainEdges(seen), x, id))
    ensures var seen := Scoped(DtoMap(rows, wt), inScope);
      upserts.Keys == earlier.Keys + ids && (forall id :: id in upserts ==> id in seen && upserts[id] == seen[id])
  {
    upserts := earlier;
    ghost var seen := Scoped(DtoMap(rows, wt), inScope);
    var todo := ids;
    while todo != {}
      invariant todo <= ids && upserts.Keys == earlier.Keys + (ids - todo)
      invariant forall id :: id in upserts ==> id in seen && upserts[id] == seen[id]
      decreases todo
    {
      var id :| id in todo;
      todo := todo - {id};
      AboveIsArchived(ParentsOf(seen), ArchivedOf(seen), x, id);
      SeenRowIsScoped(rows, wt, inScope, id);
      if id !in upserts {
        upserts := upserts[id := ToChatListDto(SeenRow(rows, inScope, id).value, wt)];
      }
    }
  }

  lemma CollectedIsDelta(entries: seq<Entry>, seen: map<Id, Dto>, inScope: ScopeFields -> bool,
                         touched: map<Id, bool>, base: map<Id, Dto>, upserts: map<Id, Dto>, removed: set<Id>)
    requires TouchedOk(touched, entries, inScope)
    requires forall id :: id in base <==> id in seen && id in touched
    requires forall id :: id in base ==> base[id] == seen[id]
    requires forall id :: id in removed <==> id !in seen && id in touched && touched[id]
    requires WithAncestors(upserts.Keys, base, base.Keys, ChainEdges(seen))
    requires forall id :: id in upserts ==> id in seen && upserts[id] == seen[id]
    ensures IsDelta(entries, seen, inScope, upserts, removed)
  {
    WasVisibleTouches(entries, inScope);
    forall id ensures id in upserts <==> id in seen && (TouchedBy(entries, id) || TravelsWith(entries, seen, id)) {
      if id in seen && TravelsWith(entries, seen, id) {
        var x :| x in LiveOf(seen) && TouchedBy(entries, x) && Above(ChainEdges(seen), x, id);
        assert x in base && !base[x].IsArchived();
      }
      if id in upserts && id !in base {
        var x :| x in base && !base[x].IsArchived() && Above(ChainEdges(seen), x, id);
        assert x in LiveOf(seen);
      }
    }
  }

  // ---- What a delta serves ------------------------------------------------------------------

  /** The row is there, and the request may see it. */
  predicate Shows(m: map<Id, Dto>, id: Id, request: Request) {
    id in m && MaySee(m[id].scope, request.scope, request.matcher)
  }

  /** The row came, went or changed between two observations. */
  predicate Differs(a: map<Id, Dto>, b: map<Id, Dto>, id: Id) {
    (id in a || id in b) && !(id in a && id in b && a[id] == b[id])
  }

  /** Some step since the token changed the row. */
  ghost predicate ChangedSince(history: seq<map<Id, Dto>>, since: nat, id: Id) {
    exists p :: 0 < p < |history| && since <= p && Differs(history[p - 1], history[p], id)
  }

  /** Some observation since the token showed the row. */
  ghost predicate ShownSince(history: seq<map<Id, Dto>>, since: nat, request: Request, id: Id) {
    exists p :: 0 <= p < |history| && since <= p + 1 && Shows(history[p], id, request)
  }

  /** What a delta owes the request: every upsert is a current row it may see, every changed current row it may see
      is upserted, and exactly the rows that it could see since the token and may not see now are removed. */
  ghost predicate ServesScope(response: Response, request: Request, history: seq<map<Id, Dto>>)
    requires history != []
  {
    response.Delta? ==>
      var now := history[|history| - 1];
      && (forall id :: id in response.upserts ==> Shows(now, id, request) && response.upserts[id] == now[id])
      && (forall id :: Shows(now, id, request) && ChangedSince(history, response.since, id) ==> id in response.upserts)
      && (forall id :: id in response.removed <==>
            !Shows(now, id, request) && ShownSince(history, response.since, request, id))
  }

  lemma SeenIsShown(m: map<Id, Dto>, id: Id, request: Request)
    ensures id in Scoped(m, request.InScope()) <==> Shows(m, id, request)
    ensures Visible(FieldsAt(m, id), request.InScope()) <==> Shows(m, id, request)
  {
    if id in m {
      ScopeExact(m[id].scope, request.scope, request.matcher);
    }
  }

  lemma TouchedIsChanged(entries: seq<Entry>, history: seq<map<Id, Dto>>, since: nat, id: Id)
    requires 0 < since < |history| && DescribesAll(entries, history[since - 1..])
    ensures TouchedBy(entries, id) <==> ChangedSince(history, since, id)
  {
    var obs := history[since - 1..];
    if TouchedBy(entries, id) {
      var e, c :| e in entries && c in e.changes && c.id == id;
      var i :| 0 <= i < |entries| && entries[i] == e;
      assert Describes(entries[i], obs[i], obs[i + 1]) && id in ChangedIds(obs[i], obs[i + 1]);
      assert Differs(history[since + i - 1], history[since + i], id);
    }
    if p :| 0 < p < |history| && since <= p && Differs(history[p - 1], history[p], id) {
      var i := p - since;
      assert Describes(entries[i], obs[i], obs[i + 1]) && id in ChangedIds(obs[i], obs[i + 1]);
      assert entries[i] in entries;
    }
  }

  /** A visible change shows the row in the observation before or after it. */
  lemma VisibleWasShown(entries: seq<Entry>, history: seq<map<Id, Dto>>, since: nat, request: Request, id: Id)
    requires 0 < since < |history| && DescribesAll(entries, history[since - 1..])
    requires WasVisible(entries, request.InScope(), id)
    ensures ShownSince(history, since, request, id)
  {
    var obs := history[since - 1..];
    var e, c :| e in entries && c in e.changes && c.id == id && ChangeVisible(c, request.InScope());
    var i :| 0 <= i < |entries| && entries[i] == e;
    assert Describes(entries[i], obs[i], obs[i + 1]);
    assert obs[i] == history[since - 1 + i] && obs[i + 1] == history[since + i];
    SeenIsShown(history[since - 1 + i], id, request);
    SeenIsShown(history[since + i], id, request);
  }

  lemma ShownWasVisible(entries: seq<Entry>, history: seq<map<Id, Dto>>, since: nat, request: Request, id: Id)
    requires 0 < since < |history| && DescribesAll(entries, history[since - 1..])
    requires ShownSince(history, since, request, id) && !Shows(history[|history| - 1], id, request)
    ensures WasVisible(entries, request.InScope(), id)
  {
    var obs := history[since - 1..];
    var p :| 0 <= p < |history| && since <= p + 1 && Shows(history[p], id, request);
    assert obs[p + 1 - since] == history[p] && obs[|entries|] == history[|history| - 1];
    SeenIsShown(history[p], id, request);
    SeenIsShown(history[|history| - 1], id, request);
    GoneWasVisible(entries, obs, p + 1 - since, request.InScope(), id);
  }

  lemma DeltaServes(entries: seq<Entry>, history: seq<map<Id, Dto>>, since: nat, request: Request,
                    upserts: map<Id, Dto>, removed: set<Id>)
    requires 0 < since < |history| && DescribesAll(entries, history[since - 1..])
    requires IsDelta(entries, Scoped(history[|history| - 1], request.InScope()), request.InScope(), upserts, removed)
    ensures ServesScope(Delta(since, upserts, removed), request, history)
  {
    var now := history[|history| - 1];
    forall id
      ensures id in upserts ==> Shows(now, id, request) && upserts[id] == now[id]
      ensures Shows(now, id, request) && ChangedSince(history, since, id) ==> id in upserts
      ensures id in removed <==> !Shows(now, id, request) && ShownSince(history, since, request, id)
    {
      SeenIsShown(now, id, request);
      TouchedIsChanged(entries, history, since, id);
      if WasVisible(entries, request.InScope(), id) {
        VisibleWasShown(entries, history, since, request, id);
      } else if !Shows(now, id, request) && ShownSince(history, since, request, id) {
        ShownWasVisible(entries, history, since, request, id);
      }
    }
  }

  // ---- The answer ---------------------------------------------------------------------------

  /** A delta for the current scoped rows, or a resync when it exceeds the row or byte cap. */
  ghost predicate DeltaOrTooLarge(response: Response, request: Request, since: nat, entries: seq<Entry>,
                                  now: map<Id, Dto>, maxRows: nat, maxBytes: nat)
  {
    exists upserts, removed ::
      && IsDelta(entries, Scoped(now, request.InScope()), request.InScope(), upserts, removed)
      && response == if |upserts| + |removed| > maxRows || request.jsonLength(upserts, removed) > maxBytes
                     then Resync(TooLarge) else Delta(since, upserts, removed)
  }

  /** The server state an answer is computed from. */
  datatype Position = Position(epoch: string, position: nat, ring: seq<Entry>, maxRows: nat, maxBytes: nat)

  /** Which answer a well-formed token gets. */
  ghost predicate AnswerOk(response: Response, request: Request, token: Token, at: Position, now: map<Id, Dto>) {
    var entries := Newer(at.ring, token.position);
    if token.epoch != at.epoch then response == Resync(Epoch)
    else if token.position > at.position then response == Resync(Ahead)
    else if token.position == at.position then response == Noop(token.position)
    else if token.position < at.position - |at.ring| then response == Resync(Gap)
    else if exists e :: e in entries && e.overflow then response == Resync(TooLarge)
    else DeltaOrTooLarge(response, request, token.position, entries, now, at.maxRows, at.maxBytes)
  }

  /** Replica convergence. Whatever scoped observation a client holds, from the token's position up to
      the current one, an applied delta makes it the scoped rows of the current catalog; a noop is
      answered only when nothing has to be applied. */
  ghost predicate Converges(response: Response, history: seq<map<Id, Dto>>, inScope: ScopeFields -> bool) {
    var now := |history| - 1;
    match response
    case Noop(since) => since == |history|
    case Delta(since, upserts, removed) =>
      && 0 < since < |history|
      && forall i :: since - 1 <= i < |history| ==>
           Patch(Scoped(history[i], inScope), upserts, removed) == Scoped(history[now], inScope)
    case _ => true
  }

  method BuildChatListSyncResponse(state: SyncState, catalog: Catalog, request: Request) returns (response: Response)
    requires state.Valid()
    requires state.observedKey == Some(Key(catalog.revision, request.worktreeTodoIds)) ==>
      Observation(catalog, request.worktreeTodoIds) == state.history[state.position - 1]
    modifies state
    ensures state.Valid() && state.position > 0
      && state.history[state.position - 1] == Observation(catalog, request.worktreeTodoIds)
    ensures old(state.history) <= state.history && |state.history| <= |old(state.history)| + 1
    ensures request.since == "" ==> response == Resync(NoSince)
    ensures request.since != "" && ParseSyncToken(request.since).None? ==> response == MalformedSince
    ensures request.since != "" && ParseSyncToken(request.since).Some? ==>
      AnswerOk(response, request, ParseSyncToken(request.since).value,
               Position(state.epoch, state.position, state.ring, state.maxRows, state.maxBytes),
               Observation(catalog, request.worktreeTodoIds))
    ensures Converges(response, state.history, request.InScope())
    ensures ServesScope(response, request, state.history)
  {
    state.Observe(catalog, request.worktreeTodoIds);
    if request.since == "" {
      return Resync(NoSince);
    }
    var parsed := ParseSyncToken(request.since);
    if parsed.None? {
      return MalformedSince;
    }
    var at := Position(state.epoch, state.position, state.ring, state.maxRows, state.maxBytes);
    response := AnswerToken(at, catalog.rows, request, parsed.value, state.ringSize, state.history);
  }

  method AnswerToken(at: Position, rows: seq<Row>, request: Request, token: Token, ghost ringSize: nat,
                     ghost history: seq<map<Id, Dto>>)
    returns (response: Response)
    requires RingOk(at.ring, ringSize, at.maxRows, history) && at.position == |history| > 0
    requires history[|history| - 1] == DtoMap(rows, request.worktreeTodoIds)
    ensures AnswerOk(response, request, token, at, DtoMap(rows, request.worktreeTodoIds))
    ensures Converges(response, history, request.InScope())
    ensures ServesScope(response, request, history)
  {
    if token.epoch != at.epoch {
      return Resync(Epoch);
    }
    if token.position > at.position {
      return Resync(Ahead);
    }
    if token.position == at.position {
      return Noop(token.position);
    }
    var entries := Newer(at.ring, token.position);
    GapExactly(at.ring, ringSize, at.maxRows, history, token.position);
    if |entries| != at.position - token.position {
      return Resync(Gap);
    }
    if exists e :: e in entries && e.overflow {
      return Resync(TooLarge);
    }
    response := BuildDelta(entries, rows, request, token.position, at.maxRows, at.maxBytes, at.ring, ringSize, history);
  }

  /** The delta branch: the ring covers every step since the token. */
  method BuildDelta(entries: seq<Entry>, rows: seq<Row>, request: Request, since: nat, maxRows: nat, maxBytes: nat,
                    ghost ring: seq<Entry>, ghost ringSize: nat, ghost history: seq<map<Id, Dto>>)
    returns (response: Response)
    requires RingOk(ring, ringSize, maxRows, history) && |history| - |ring| <= since < |history|
      && entries == Newer(ring, since)
    requires history[|history| - 1] == DtoMap(rows, request.worktreeTodoIds)
    requires forall e :: e in entries ==> !e.overflow
    ensures DeltaOrTooLarge(response, request, since, entries, history[|history| - 1], maxRows, maxBytes)
    ensures Converges(response, history, request.InScope())
    ensures ServesScope(response, request, history)
  {
    var wt, inScope := request.worktreeTodoIds, request.InScope();
    ghost var now := DtoMap(rows, wt);
    var touched := TouchRows(entries, inScope);
    var base, removed := SplitTouched(rows, wt, inScope, touched);
    var upserts := AddAncestors(rows, wt, inScope, base);
    CollectedIsDelta(entries, Scoped(now, inScope), inScope, touched, base, upserts, removed);
    DeltaReachesNow(ring, ringSize, maxRows, history, since, inScope, upserts, removed);
    NewerDescribes(ring, ringSize, maxRows, history, since);
    DeltaServes(entries, history, since, request, upserts, removed);
    response := if |upserts| + |removed| > maxRows || request.jsonLength(upserts, removed) > maxBytes
      then Resync(TooLarge) else Delta(since, upserts, removed);
  }
}
