/** The server side of the chat-list sync contract: an in-memory observer of catalog snapshots with a
    bounded ring of changes, answering a client position with a delta, a noop or a resync. */
module ChatListSync {
  import opened Wrappers
  import opened Sets
  import opened ParentGraph
  import opened ChatListDelta
  import opened SyncToken

  const CHAT_LIST_SYNC_MAX_ROWS := 100
  const CHAT_LIST_SYNC_MAX_BYTES := 128 * 1024
  const CHAT_LIST_SYNC_RING_SIZE := 32

  datatype ResyncReason = NoSince | Epoch | Gap | Ahead | TooLarge

  /** `MalformedSince` is the INVALID_ARGUMENT error. */
  datatype Response =
    | Resync(reason: ResyncReason)
    | Noop(since: nat)
    | Delta(since: nat, upserts: map<Id, Dto>, removed: set<Id>)
    | MalformedSince

  datatype Catalog = Catalog(revision: string, rows: seq<Row>)

  /** What an observation is memoized by. */
  datatype Key = Key(revision: string, worktreeTodoIds: set<string>)

  datatype Digest = Digest(h: Dto, s: ScopeFields)

  function Observation(catalog: Catalog, worktreeTodoIds: set<string>): map<Id, Dto> {
    DtoMap(catalog.rows, worktreeTodoIds)
  }

  /** The ring holds the last entries, consecutive up to the last observation. */
  ghost predicate RingOk(ring: seq<Entry>, ringSize: nat, maxRows: nat, history: seq<map<Id, Dto>>) {
    && |ring| <= ringSize && |ring| < |history|
    && (|ring| < ringSize ==> |ring| + 1 == |history|)
    && (forall i :: 0 <= i < |ring| ==> EntryOk(ring[i], |history| - |ring| + 1 + i, maxRows, history))
  }

  /** An entry overflows if and only if its step changes more than `maxRows` rows; otherwise it describes the step. */
  ghost predicate EntryOk(e: Entry, toSeq: int, maxRows: nat, history: seq<map<Id, Dto>>)
    requires 2 <= toSeq <= |history|
  {
    && e.toSeq == toSeq
    && (e.overflow <==> |ChangedIds(history[toSeq - 2], history[toSeq - 1])| > maxRows)
    && (!e.overflow ==> Describes(e, history[toSeq - 2], history[toSeq - 1]))
  }

  /** Appends an entry, dropping the oldest one when the ring is full. */
  function PushEntry(ring: seq<Entry>, ringSize: nat, e: Entry): seq<Entry> {
    var longer := ring + [e];
    if |longer| > ringSize then longer[1..] else longer
  }

  lemma PushKeepsRing(ring: seq<Entry>, ringSize: nat, maxRows: nat, history: seq<map<Id, Dto>>, e: Entry,
                      now: map<Id, Dto>)
    requires ringSize > 0 && RingOk(ring, ringSize, maxRows, history)
      && EntryOk(e, |history| + 1, maxRows, history + [now])
    ensures RingOk(PushEntry(ring, ringSize, e), ringSize, maxRows, history + [now])
    ensures var pushed := PushEntry(ring, ringSize, e); pushed != [] && pushed[|pushed| - 1] == e
  {
    var pushed, history' := PushEntry(ring, ringSize, e), history + [now];
    forall i | 0 <= i < |pushed| ensures EntryOk(pushed[i], |history'| - |pushed| + 1 + i, maxRows, history') {
      var j := i + |ring| + 1 - |pushed|;
      if j < |ring| {
        assert pushed[i] == ring[j] && EntryOk(ring[j], |history| - |ring| + 1 + j, maxRows, history);
      }
    }
  }

  /** What the observer holds after the observations of `history`. */
  ghost predicate Observed(position: nat, digests: map<Id, Digest>, ring: seq<Entry>, ringSize: nat, maxRows: nat,
                           history: seq<map<Id, Dto>>)
  {
    && position == |history|
    && if history == [] then ring == [] && digests == map[]
       else RingOk(ring, ringSize, maxRows, history) && DigestsOf(digests, history[|history| - 1])
  }

  lemma FirstObserved(digests: map<Id, Digest>, ringSize: nat, maxRows: nat, now: map<Id, Dto>)
    requires ringSize > 0 && DigestsOf(digests, now)
    ensures Observed(1, digests, [], ringSize, maxRows, [now])
  {
  }

  lemma NextObserved(digests: map<Id, Digest>, ring: seq<Entry>, ringSize: nat, maxRows: nat,
                     history: seq<map<Id, Dto>>, entry: Entry, next: map<Id, Digest>, now: map<Id, Dto>)
    requires ringSize > 0 && history != [] && Observed(|history|, digests, ring, ringSize, maxRows, history)
    requires EntryOk(entry, |history| + 1, maxRows, history + [now]) && DigestsOf(next, now)
    ensures Observed(|history| + 1, next, PushEntry(ring, ringSize, entry), ringSize, maxRows, history + [now])
    ensures NewestOverflows(PushEntry(ring, ringSize, entry), history, now, maxRows)
  {
    PushKeepsRing(ring, ringSize, maxRows, history, entry, now);
  }

  /** The newest entry overflows exactly when the last step changed more than `maxRows` rows. */
  ghost predicate NewestOverflows(ring: seq<Entry>, earlier: seq<map<Id, Dto>>, now: map<Id, Dto>, maxRows: nat) {
    ring != [] && earlier != [] && (ring[|ring| - 1].overflow <==> |ChangedIds(earlier[|earlier| - 1], now)| > maxRows)
  }

  class SyncState {
    const epoch: string
    const ringSize: nat
    const maxRows: nat
    const maxBytes: nat
    var position: nat
    var observedKey: Option<Key>
    var digests: map<Id, Digest>
    var ring: seq<Entry>
    /** Every observation so far; position `n` names `history[n - 1]`. */
    ghost var history: seq<map<Id, Dto>>

    ghost predicate Valid()
      reads this
    {
      && ringSize > 0 && (observedKey.None? <==> position == 0)
      && Observed(position, digests, ring, ringSize, maxRows, history)
    }

    constructor (epoch: string, ringSize: nat := CHAT_LIST_SYNC_RING_SIZE, maxRows: nat := CHAT_LIST_SYNC_MAX_ROWS,
                 maxBytes: nat := CHAT_LIST_SYNC_MAX_BYTES)
      requires ringSize > 0
      ensures Valid() && position == 0
      ensures this.epoch == epoch && this.ringSize == ringSize && this.maxRows == maxRows && this.maxBytes == maxBytes
    {
      this.epoch, this.ringSize, this.maxRows, this.maxBytes := epoch, ringSize, maxRows, maxBytes;
      position, observedKey, digests, ring, history := 0, None, map[], [], [];
    }

    /** Observes a snapshot. A repeated key costs nothing and returns the same position; a new key is
        one more observation. The premise is the catalog contract: an equal key means equal rows. */
    method Observe(catalog: Catalog, worktreeTodoIds: set<string>)
      requires Valid()
      requires observedKey == Some(Key(catalog.revision, worktreeTodoIds)) ==>
        Observation(catalog, worktreeTodoIds) == history[position - 1]
      modifies this
      ensures Valid() && observedKey == Some(Key(catalog.revision, worktreeTodoIds))
      ensures old(observedKey) == observedKey ==> history == old(history) && ring == old(ring)
      ensures old(observedKey) != observedKey ==> history == old(history) + [Observation(catalog, worktreeTodoIds)]
      ensures position > 0 && history[position - 1] == Observation(catalog, worktreeTodoIds)
      ensures old(observedKey).Some? && old(observedKey) != observedKey ==>
        NewestOverflows(ring, old(history), Observation(catalog, worktreeTodoIds), maxRows)
    {
      var key := Key(catalog.revision, worktreeTodoIds);
      if observedKey == Some(key) {
        return;
      }
      var nextRows, nextDtos := DiffRows(catalog, worktreeTodoIds, observedKey.Some?, digests);
      ghost var now := Observation(catalog, worktreeTodoIds);
      if observedKey.None? {
        position := 1;
        FirstObserved(nextRows, ringSize, maxRows, now);
      } else {
        position := position + 1;
        ring := NextRing(nextRows, nextDtos, digests, ring, ringSize, position, maxRows, history, now);
      }
      history := history + [now];
      digests := nextRows;
      observedKey := Some(key);
    }
  }

  ghost predicate DigestsOf(digests: map<Id, Digest>, m: map<Id, Dto>) {
    digests.Keys == m.Keys && forall id :: id in m ==> digests[id] == Digest(m[id], m[id].scope)
  }

  /** The digests of a snapshot, and the DTOs that differ from the previous digests. */
  method DiffRows(catalog: Catalog, worktreeTodoIds: set<string>, observed: bool, digests: map<Id, Digest>)
    returns (nextRows: map<Id, Digest>, nextDtos: map<Id, Dto>)
    ensures DigestsOf(nextRows, Observation(catalog, worktreeTodoIds))
    ensures forall id ::
      id in nextDtos <==> id in nextRows && observed && !(id in digests && digests[id].h == nextRows[id].h)
  {
    nextRows, nextDtos := map[], map[];
    var rows := catalog.rows;
    for i := 0 to |rows|
      invariant DigestsOf(nextRows, DtoMap(rows[..i], worktreeTodoIds))
      invariant forall id ::
        id in nextDtos <==> id in nextRows && observed && !(id in digests && digests[id].h == nextRows[id].h)
    {
      assert rows[..i + 1][..i] == rows[..i];
      var id := rows[i].scope.id;
      if id == NoId || id in nextRows {
        continue;
      }
      var dto := ToChatListDto(rows[i], worktreeTodoIds);
      nextRows := nextRows[id := Digest(dto, dto.scope)];
      if observed && !(id in digests && digests[id].h == dto) {
        nextDtos := nextDtos[id := dto];
      }
    }
    assert rows[..|rows|] == rows;
  }

  /** The changes list those of `ids` that are not in `rest`, after what was listed earlier. */
  ghost predicate ListedSoFar(changes: seq<Change>, earlier: seq<Change>, listed: set<Id>, ids: set<Id>, rest: set<Id>,
                               before: map<Id, Dto>, now: map<Id, Dto>)
  {
    && rest <= ids && |changes| + |rest| == |earlier| + |ids|
    && (ListsChanges(earlier, listed, before, now) ==> ListsChanges(changes, listed + (ids - rest), before, now))
  }

  lemma NothingListed(earlier: seq<Change>, listed: set<Id>, ids: set<Id>, before: map<Id, Dto>, now: map<Id, Dto>)
    ensures ListedSoFar(earlier, earlier, listed, ids, ids, before, now)
  {
    assert listed + (ids - ids) == listed;
  }

  lemma ListOneMore(changes: seq<Change>, earlier: seq<Change>, listed: set<Id>, ids: set<Id>, rest: set<Id>,
                    change: Change, before: map<Id, Dto>, now: map<Id, Dto>)
    requires ListedSoFar(changes, earlier, listed, ids, rest, before, now) && change.id in rest
    requires change.prev == FieldsAt(before, change.id) && change.next == FieldsAt(now, change.id)
    ensures ListedSoFar(changes + [change], earlier, listed, ids, rest - {change.id}, before, now)
  {
    AppendChange(changes, listed + (ids - rest), change, before, now);
    assert listed + (ids - rest) + {change.id} == listed + (ids - (rest - {change.id}));
  }

  /** Pushes the entry of one more observation. */
  method NextRing(nextRows: map<Id, Digest>, nextDtos: map<Id, Dto>, digests: map<Id, Digest>, ring: seq<Entry>,
                  ringSize: nat, position: nat, maxRows: nat, ghost history: seq<map<Id, Dto>>, ghost now: map<Id, Dto>)
    returns (pushed: seq<Entry>)
    requires ringSize > 0 && history != [] && position == |history| + 1 && DigestsOf(nextRows, now)
    requires Observed(|history|, digests, ring, ringSize, maxRows, history)
    requires forall id :: id in nextDtos <==> id in nextRows && !(id in digests && digests[id].h == nextRows[id].h)
    ensures Observed(position, nextRows, pushed, ringSize, maxRows, history + [now])
    ensures NewestOverflows(pushed, history, now, maxRows)
  {
    var changes, overflow := DiffChanges(nextRows, nextDtos, digests, maxRows, history[|history| - 1], now);
    var entry := Entry(position, overflow, changes);
    pushed := PushEntry(ring, ringSize, entry);
    NextObserved(digests, ring, ringSize, maxRows, history, entry, nextRows, now);
  }

  /** At most `maxRows` changes: the differing rows first, then the vanished ones. */
  method DiffChanges(nextRows: map<Id, Digest>, nextDtos: map<Id, Dto>, digests: map<Id, Digest>, maxRows: nat,
                     ghost before: map<Id, Dto>, ghost now: map<Id, Dto>)
    returns (changes: seq<Change>, overflow: bool)
    requires DigestsOf(digests, before) && DigestsOf(nextRows, now)
    requires forall id :: id in nextDtos <==> id in nextRows && !(id in digests && digests[id].h == nextRows[id].h)
    ensures |changes| <= maxRows
    ensures overflow <==> |ChangedIds(before, now)| > maxRows
    ensures !overflow ==> ListsChanges(changes, ChangedIds(before, now), before, now)
  {
    var upsertsOverflow, removalsOverflow;
    changes, upsertsOverflow := DiffUpserts(nextRows, nextDtos.Keys, digests, maxRows, before, now);
    changes, removalsOverflow := DiffRemovals(changes, nextRows.Keys, digests, maxRows, nextDtos.Keys, before, now);
    overflow := upsertsOverflow || removalsOverflow;
    DiffIsChanged(nextRows, nextDtos, digests, before, now);
  }

  lemma DiffIsChanged(nextRows: map<Id, Digest>, nextDtos: map<Id, Dto>, digests: map<Id, Digest>, before: map<Id, Dto>,
                      now: map<Id, Dto>)
    requires DigestsOf(digests, before) && DigestsOf(nextRows, now)
    requires forall id :: id in nextDtos <==> id in nextRows && !(id in digests && digests[id].h == nextRows[id].h)
    ensures nextDtos.Keys + (digests.Keys - nextRows.Keys) == ChangedIds(before, now)
    ensures |ChangedIds(before, now)| == |nextDtos.Keys| + |digests.Keys - nextRows.Keys|
  {
    var kept, gone := nextDtos.Keys, digests.Keys - nextRows.Keys;
    forall id ensures id in ChangedIds(before, now) <==> id in kept || id in gone {
      ChangedAt(nextRows, nextDtos, digests, before, now, id);
    }
    DisjointUnion(kept, gone, ChangedIds(before, now));
  }

  lemma ChangedAt(nextRows: map<Id, Digest>, nextDtos: map<Id, Dto>, digests: map<Id, Digest>, before: map<Id, Dto>,
                  now: map<Id, Dto>, id: Id)
    requires DigestsOf(digests, before) && DigestsOf(nextRows, now)
    requires id in nextDtos <==> id in nextRows && !(id in digests && digests[id].h == nextRows[id].h)
    ensures id in ChangedIds(before, now) <==> id in nextDtos || (id in digests && id !in nextRows)
  {
  }

  method DiffUpserts(nextRows: map<Id, Digest>, ids: set<Id>, digests: map<Id, Digest>, maxRows: nat,
                     ghost before: map<Id, Dto>, ghost now: map<Id, Dto>)
    returns (changes: seq<Change>, overflow: bool)
    requires DigestsOf(digests, before) && DigestsOf(nextRows, now) && ids <= nextRows.Keys
    ensures |changes| <= maxRows && (overflow <==> |ids| > maxRows)
    ensures !overflow ==> |changes| == |ids| && ListsChanges(changes, ids, before, now)
  {
    changes, overflow := [], false;
    var todo := ids;
    NothingListed([], {}, ids, before, now);
    while todo != {}
      invariant |changes| <= maxRows
      invariant ListedSoFar(changes, [], {}, ids, todo, before, now)
      decreases todo
    {
      if |changes| >= maxRows {
        return changes, true;
      }
      var id :| id in todo;
      var change := Change(id, if id in digests then Some(digests[id].s) else None, Some(nextRows[id].s));
      ListOneMore(changes, [], {}, ids, todo, change, before, now);
      changes, todo := changes + [change], todo - {id};
    }
    assert {} + (ids - todo) == ids;
  }

  method DiffRemovals(earlier: seq<Change>, present: set<Id>, digests: map<Id, Digest>, maxRows: nat,
                      ghost listed: set<Id>, ghost before: map<Id, Dto>, ghost now: map<Id, Dto>)
    returns (changes: seq<Change>, overflow: bool)
    requires DigestsOf(digests, before) && present == now.Keys && |earlier| <= maxRows
    ensures |changes| <= maxRows && (overflow <==> |earlier| + |digests.Keys - present| > maxRows)
    ensures ListsChanges(earlier, listed, before, now) && !overflow ==>
      ListsChanges(changes, listed + (digests.Keys - present), before, now)
  {
    changes, overflow := earlier, false;
    var todo := digests.Keys;
    ghost var vanished := digests.Keys - present;
    ghost var rest := vanished;
    NothingListed(earlier, listed, vanished, before, now);
    while todo != {}
      invariant todo <= digests.Keys && |changes| <= maxRows
        && forall id :: id in rest <==> id in todo && id !in present
      invariant ListedSoFar(changes, earlier, listed, vanished, rest, before, now)
      decreases todo
    {
      var id :| id in todo;
      todo := todo - {id};
      if id in present {
        continue;
      }
      if |changes| >= maxRows {
        return changes, true;
      }
      var change := Change(id, Some(digests[id].s), None);
      ListOneMore(changes, earlier, listed, vanished, rest, change, before, now);
      changes, rest := changes + [change], rest - {id};
    }
    assert rest == {};
    assert vanished - rest == vanished;
  }

  lemma AppendChange(changes: seq<Change>, ids: set<Id>, change: Change, before: map<Id, Dto>, now: map<Id, Dto>)
    requires change.prev == FieldsAt(before, change.id) && change.next == FieldsAt(now, change.id)
    ensures ListsChanges(changes, ids, before, now) ==> ListsChanges(changes + [change], ids + {change.id}, before, now)
  {
    if ListsChanges(changes, ids, before, now) {
      forall id | id in ids + {change.id} ensures exists c :: c in changes + [change] && c.id == id {
        if id == change.id {
          assert change in changes + [change];
        } else {
          var c :| c in changes && c.id == id;
          assert c in changes + [change];
        }
      }
    }
  }
}
