/** The meaning of chat-list deltas: rows, list DTOs, scopes, observed changes, and the law that a
    delta brings every replica of an earlier observation to the current one. */
module ChatListDelta {
  import opened Wrappers
  import opened ParentGraph

  // ---- Rows and DTOs ------------------------------------------------------------------------

  /** The five fields a scope decision may read. */
  datatype ScopeFields = ScopeFields(
    id: Id, widgetInstallationId: string, widgetPageSessionId: string, workspaceFolder: string, workspaceFile: string)

  /** A persisted chat row. `listed` stands for the other allowlisted scalar fields and `unlisted` for
      everything the list must not carry (history, session ids, local paths). */
  datatype Row = Row(scope: ScopeFields, archivedAt: string, forkParentChatId: Id, todoId: string, listed: string,
                     unlisted: string)

  /** The allowlist projection sent to clients. It is its own digest. */
  datatype Dto = Dto(scope: ScopeFields, archivedAt: string, forkParentChatId: Id, todoId: string, listed: string,
                     onWorktree: bool) {
    predicate IsArchived() {
      archivedAt != ""
    }
  }

  function ToChatListDto(row: Row, worktreeTodoIds: set<string>): Dto {
    Dto(row.scope, row.archivedAt, row.forkParentChatId, row.todoId, row.listed,
        row.todoId != "" && row.todoId in worktreeTodoIds)
  }

  /** The DTOs of a catalog by id. Rows without an id are not indexed; a duplicate id keeps its first row. */
  function DtoMap(rows: seq<Row>, worktreeTodoIds: set<string>): map<Id, Dto> {
    if rows == [] then map[]
    else
      var last := rows[|rows| - 1];
      var m := DtoMap(rows[..|rows| - 1], worktreeTodoIds);
      if last.scope.id == NoId || last.scope.id in m then m
      else m[last.scope.id := ToChatListDto(last, worktreeTodoIds)]
  }

  /** The catalog's first-wins lookup by id. */
  function GetRow(rows: seq<Row>, id: Id): Option<Row> {
    if rows == [] || id == NoId then None
    else
      var earlier := GetRow(rows[..|rows| - 1], id);
      if earlier.Some? then earlier
      else if rows[|rows| - 1].scope.id == id then Some(rows[|rows| - 1]) else None
  }

  /** Lookup and observation index the same row. */
  lemma {:induction false} LookupAgrees(rows: seq<Row>, worktreeTodoIds: set<string>, id: Id)
    ensures id in DtoMap(rows, worktreeTodoIds) <==> GetRow(rows, id).Some?
    ensures GetRow(rows, id).Some? ==> GetRow(rows, id).value.scope.id == id
    ensures GetRow(rows, id).Some? ==>
      DtoMap(rows, worktreeTodoIds)[id] == ToChatListDto(GetRow(rows, id).value, worktreeTodoIds)
  {
    if rows != [] {
      LookupAgrees(rows[..|rows| - 1], worktreeTodoIds, id);
    }
  }

  /** Row `i` is the first one of its id. */
  predicate FirstOfId(rows: seq<Row>, i: nat, id: Id)
    requires i < |rows|
  {
    id != NoId && rows[i].scope.id == id && forall j :: 0 <= j < i ==> rows[j].scope.id != id
  }

  /** What clients see of a catalog: one DTO for each id, of its first row, with the listed fields of that row and no
      others; a row is marked as on a worktree if and only if its todo has one. */
  lemma {:induction false} ObservationExact(rows: seq<Row>, worktreeTodoIds: set<string>, id: Id)
    ensures id in DtoMap(rows, worktreeTodoIds) <==> exists i: nat :: i < |rows| && FirstOfId(rows, i, id)
    ensures forall i: nat :: i < |rows| && FirstOfId(rows, i, id) && id in DtoMap(rows, worktreeTodoIds) ==>
      var dto := DtoMap(rows, worktreeTodoIds)[id];
      && dto.scope == rows[i].scope && dto.archivedAt == rows[i].archivedAt && dto.todoId == rows[i].todoId
      && dto.forkParentChatId == rows[i].forkParentChatId && dto.listed == rows[i].listed
      && (dto.onWorktree <==> rows[i].todoId != "" && rows[i].todoId in worktreeTodoIds)
  {
    if rows != [] {
      var rest, last := rows[..|rows| - 1], |rows| - 1;
      ObservationExact(rest, worktreeTodoIds, id);
      forall i: nat | i < last ensures FirstOfId(rows, i, id) <==> FirstOfId(rest, i, id) {
      }
      if id in DtoMap(rest, worktreeTodoIds) {
        var i: nat :| i < |rest| && FirstOfId(rest, i, id);
        assert FirstOfId(rows, i, id) && !FirstOfId(rows, last, id);
      } else {
        FirstIfAbsent(rest, id);
        assert FirstOfId(rows, last, id) <==> id != NoId && rows[last].scope.id == id;
      }
    }
  }

  lemma {:induction false} FirstIfAbsent(rows: seq<Row>, id: Id)
    requires forall i: nat :: i < |rows| ==> !FirstOfId(rows, i, id)
    ensures id != NoId ==> forall j :: 0 <= j < |rows| ==> rows[j].scope.id != id
  {
    if rows != [] {
      var rest := rows[..|rows| - 1];
      forall i: nat | i < |rest| ensures !FirstOfId(rest, i, id) {
        assert !FirstOfId(rows, i, id);
      }
      FirstIfAbsent(rest, id);
      assert !FirstOfId(rows, |rows| - 1, id);
    }
  }

  // ---- Scopes -------------------------------------------------------------------------------

  datatype Scope = Scope(workspaceFolder: string, workspaceFile: string, widgetInstallationId: string)

  /** An empty scope matches everything and never reaches the injected matcher. */
  predicate IsChatInScope(fields: ScopeFields, scope: Scope, matcher: (ScopeFields, Scope) -> bool) {
    if scope.workspaceFolder == "" && scope.workspaceFile == "" && scope.widgetInstallationId == "" then true
    else if scope.widgetInstallationId != "" && fields.widgetInstallationId != scope.widgetInstallationId then false
    else matcher(fields, scope)
  }

  /** What a scope promises: a widget sees rows of its own installation alone, and a scope that names anything
      sees what its matcher lets through. */
  predicate MaySee(fields: ScopeFields, scope: Scope, matcher: (ScopeFields, Scope) -> bool) {
    && (scope.widgetInstallationId != "" ==> fields.widgetInstallationId == scope.widgetInstallationId)
    && (scope != Scope("", "", "") ==> matcher(fields, scope))
  }

  lemma ScopeExact(fields: ScopeFields, scope: Scope, matcher: (ScopeFields, Scope) -> bool)
    ensures IsChatInScope(fields, scope, matcher) <==> MaySee(fields, scope, matcher)
  {
  }

  /** The rows of an observation that one client may see. */
  function Scoped(m: map<Id, Dto>, inScope: ScopeFields -> bool): map<Id, Dto> {
    map id | id in m && inScope(m[id].scope) :: m[id]
  }

  // ---- Observed changes ---------------------------------------------------------------------

  /** One changed row between two observations: its scope fields before and after. */
  datatype Change = Change(id: Id, prev: Option<ScopeFields>, next: Option<ScopeFields>)

  /** One ring entry: the changes that led to position `toSeq`, unless there were too many. */
  datatype Entry = Entry(toSeq: nat, overflow: bool, changes: seq<Change>)

  function FieldsAt(m: map<Id, Dto>, id: Id): Option<ScopeFields> {
    if id in m then Some(m[id].scope) else None
  }

  ghost predicate SameAt(a: map<Id, Dto>, b: map<Id, Dto>, id: Id) {
    if id in a then id in b && a[id] == b[id] else id !in b
  }

  /** `changes` lists exactly the ids in `ids`, with their fields before and after. */
  ghost predicate ListsChanges(changes: seq<Change>, ids: set<Id>, before: map<Id, Dto>, after: map<Id, Dto>) {
    && (forall c :: c in changes ==> c.id in ids && c.prev == FieldsAt(before, c.id) && c.next == FieldsAt(after, c.id))
    && (forall id :: id in ids ==> exists c :: c in changes && c.id == id)
  }

  ghost function ChangedIds(before: map<Id, Dto>, after: map<Id, Dto>): set<Id> {
    set id | id in before.Keys + after.Keys && !SameAt(before, after, id)
  }

  ghost predicate Describes(e: Entry, before: map<Id, Dto>, after: map<Id, Dto>) {
    !e.overflow && ListsChanges(e.changes, ChangedIds(before, after), before, after)
  }

  /** `entries` describe the steps of the observation sequence `obs`. */
  ghost predicate DescribesAll(entries: seq<Entry>, obs: seq<map<Id, Dto>>) {
    |obs| == |entries| + 1 && forall i :: 0 <= i < |entries| ==> Describes(entries[i], obs[i], obs[i + 1])
  }

  // ---- The delta ----------------------------------------------------------------------------

  predicate Visible(fields: Option<ScopeFields>, inScope: ScopeFields -> bool) {
    fields.Some? && inScope(fields.value)
  }

  predicate ChangeVisible(c: Change, inScope: ScopeFields -> bool) {
    Visible(c.prev, inScope) || Visible(c.next, inScope)
  }

  ghost predicate TouchedBy(entries: seq<Entry>, id: Id) {
    exists e, c :: e in entries && c in e.changes && c.id == id
  }

  /** Some observed state of the row was visible to the scope. */
  ghost predicate WasVisible(entries: seq<Entry>, inScope: ScopeFields -> bool, id: Id) {
    exists e, c :: e in entries && c in e.changes && c.id == id && ChangeVisible(c, inScope)
  }

  function ParentsOf(m: map<Id, Dto>): Up {
    map id | id in m && m[id].forkParentChatId != NoId :: m[id].forkParentChatId
  }

  function ArchivedOf(m: map<Id, Dto>): set<Id> {
    set id | id in m && m[id].IsArchived()
  }

  function LiveOf(m: map<Id, Dto>): set<Id> {
    set id | id in m && !m[id].IsArchived()
  }

  function ChainEdges(m: map<Id, Dto>): Up {
    ArchivedEdges(ParentsOf(m), ArchivedOf(m))
  }

  /** `q` travels with a touched live row: it is above it on an unbroken chain of archived rows. */
  ghost predicate TravelsWith(entries: seq<Entry>, seen: map<Id, Dto>, q: Id) {
    exists x :: x in LiveOf(seen) && TouchedBy(entries, x) && Above(ChainEdges(seen), x, q)
  }

  /** The content of a delta for the current scoped rows `seen`. */
  ghost predicate IsDelta(entries: seq<Entry>, seen: map<Id, Dto>, inScope: ScopeFields -> bool, upserts: map<Id, Dto>,
                          removed: set<Id>)
  {
    && (forall id :: id in upserts <==> id in seen && (TouchedBy(entries, id) || TravelsWith(entries, seen, id)))
    && (forall id :: id in upserts ==> upserts[id] == seen[id])
    && (forall id :: id in removed <==> id !in seen && WasVisible(entries, inScope, id))
  }

  function Patch(rows: map<Id, Dto>, upserts: map<Id, Dto>, removed: set<Id>): map<Id, Dto> {
    (rows + upserts) - removed
  }

  /** A row no entry touches is the same in every observation. */
  lemma {:induction false} UntouchedSame(entries: seq<Entry>, obs: seq<map<Id, Dto>>, p: nat, id: Id)
    requires DescribesAll(entries, obs) && p <= |entries| && !TouchedBy(entries, id)
    ensures SameAt(obs[p], obs[|entries|], id)
    decreases |entries| - p
  {
    if p < |entries| {
      assert entries[p] in entries && id !in ChangedIds(obs[p], obs[p + 1]);
      UntouchedSame(entries, obs, p + 1, id);
    }
  }

  /** A row that a replica could see and that is gone now was visible in some change. */
  lemma {:induction false} GoneWasVisible(entries: seq<Entry>, obs: seq<map<Id, Dto>>, p: nat,
                                          inScope: ScopeFields -> bool, id: Id)
    requires DescribesAll(entries, obs) && p <= |entries|
    requires Visible(FieldsAt(obs[p], id), inScope) && !Visible(FieldsAt(obs[|entries|], id), inScope)
    ensures WasVisible(entries, inScope, id)
    decreases |entries| - p
  {
    if SameAt(obs[p], obs[p + 1], id) {
      GoneWasVisible(entries, obs, p + 1, inScope, id);
    } else {
      assert id in ChangedIds(obs[p], obs[p + 1]);
      var c :| c in entries[p].changes && c.id == id;
      assert entries[p] in entries;
    }
  }

  /** Convergence: a delta brings the scoped rows of any observation since the token (the token's own or
      a later one the replica already reached) to exactly the scoped rows of the current observation. */
  lemma DeltaConverges(entries: seq<Entry>, obs: seq<map<Id, Dto>>, p: nat, inScope: ScopeFields -> bool,
                       upserts: map<Id, Dto>, removed: set<Id>)
    requires DescribesAll(entries, obs) && p <= |entries|
    requires IsDelta(entries, Scoped(obs[|entries|], inScope), inScope, upserts, removed)
    ensures Patch(Scoped(obs[p], inScope), upserts, removed) == Scoped(obs[|entries|], inScope)
  {
    var was, now := Scoped(obs[p], inScope), Scoped(obs[|entries|], inScope);
    var result := Patch(was, upserts, removed);
    forall id ensures SameAt(result, now, id) {
      if !TouchedBy(entries, id) {
        UntouchedSame(entries, obs, p, id);
        assert !WasVisible(entries, inScope, id);
      } else if id in was && id !in now {
        GoneWasVisible(entries, obs, p, inScope, id);
      }
    }
    assert result.Keys == now.Keys by {
      forall id ensures id in result <==> id in now {
        assert SameAt(result, now, id);
      }
    }
    forall id | id in result ensures result[id] == now[id] {
      assert SameAt(result, now, id);
    }
  }

  /** What a delta may carry: only rows the scope sees now, only ids it could see before, and with every
      touched live row its whole chain of archived ancestors. */
  lemma DeltaShape(entries: seq<Entry>, seen: map<Id, Dto>, inScope: ScopeFields -> bool, upserts: map<Id, Dto>,
                   removed: set<Id>)
    requires IsDelta(entries, seen, inScope, upserts, removed)
    ensures upserts.Keys !! removed
    ensures forall x, q :: x in LiveOf(seen) && TouchedBy(entries, x) && Above(ChainEdges(seen), x, q) ==>
      q in upserts && upserts[q].IsArchived()
    ensures forall id :: id in upserts && !TouchedBy(entries, id) ==> upserts[id].IsArchived()
  {
    forall x, q | x in LiveOf(seen) && TouchedBy(entries, x) && Above(ChainEdges(seen), x, q)
      ensures q in upserts && upserts[q].IsArchived()
    {
      AboveIsArchived(ParentsOf(seen), ArchivedOf(seen), x, q);
      assert TravelsWith(entries, seen, q);
    }
  }
}
