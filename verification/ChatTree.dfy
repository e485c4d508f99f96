/** The sidebar chat forest: fork subtrees, the busy-ancestor pass, the live/archived split, the
    nesting guard and the flattened tree. Chats nest under `forkParentChatId`; parents may be
    missing and parent chains may be cyclic. */
module ChatTree {
  import opened Sets
  import opened ParentGraph

  /** The tree-relevant fields of a chat row. Ids and parents are trimmed; `NoId` means absent. */
  datatype Chat = Chat(id: Id, parentId: Id, archivedAt: string) {
    predicate IsArchived() {
      archivedAt != ""
    }
  }

  /** No two rows share an id. Rows without an id may repeat. */
  ghost predicate UniqueIds(chats: seq<Chat>) {
    forall i, j :: 0 <= i < j < |chats| && chats[i].id != NoId ==> chats[i].id != chats[j].id
  }

  lemma SameIdSameRow(chats: seq<Chat>, c: Chat, d: Chat)
    requires UniqueIds(chats) && c in chats && d in chats && c.id == d.id != NoId
    ensures c == d
  {
    var i :| 0 <= i < |chats| && chats[i] == c;
    var j :| 0 <= j < |chats| && chats[j] == d;
    assert i == j;
  }

  ghost function RowIds(chats: seq<Chat>): set<Id> {
    set c | c in chats && c.id != NoId :: c.id
  }

  /** The parent edge of every row that has an id and names a parent. */
  ghost function ParentOf(chats: seq<Chat>): Up {
    if chats == [] then map[]
    else
      var last := chats[|chats| - 1];
      var rest := ParentOf(chats[..|chats| - 1]);
      if last.id != NoId && last.parentId != NoId then rest[last.id := last.parentId] else rest
  }

  /** Every edge comes from a row. */
  lemma {:induction false} EdgeHasRow(chats: seq<Chat>, id: Id) returns (c: Chat)
    requires id in ParentOf(chats)
    ensures c in chats && c.id == id != NoId && c.parentId == ParentOf(chats)[id] != NoId
  {
    c := chats[|chats| - 1];
    if c.id != id || c.id == NoId || c.parentId == NoId {
      c := EdgeHasRow(chats[..|chats| - 1], id);
    }
  }

  /** Every row determines the edge of its id. */
  lemma {:induction false} RowHasEdge(chats: seq<Chat>, c: Chat)
    requires UniqueIds(chats) && c in chats && c.id != NoId
    ensures c.parentId != NoId ==> c.id in ParentOf(chats) && ParentOf(chats)[c.id] == c.parentId
    ensures c.parentId == NoId ==> c.id !in ParentOf(chats)
  {
    var last := chats[|chats| - 1];
    if c == last {
      if c.parentId == NoId && c.id in ParentOf(chats) {
        var d := EdgeHasRow(chats, c.id);
        SameIdSameRow(chats, c, d);
      }
    } else {
      if c.id == last.id {
        SameIdSameRow(chats, c, last);
      }
      assert UniqueIds(chats[..|chats| - 1]);
      RowHasEdge(chats[..|chats| - 1], c);
    }
  }

  /** The row of an id, for the `byId` indexes the walks use. */
  function FindChat(chats: seq<Chat>, id: Id): (c: Chat)
    requires exists d :: d in chats && d.id == id
    ensures c in chats && c.id == id
  {
    if chats[|chats| - 1].id == id then chats[|chats| - 1] else FindChat(chats[..|chats| - 1], id)
  }

  function HasChat(chats: seq<Chat>, id: Id): (b: bool)
    ensures b <==> exists d :: d in chats && d.id == id
  {
    if chats == [] then false
    else chats[|chats| - 1].id == id || HasChat(chats[..|chats| - 1], id)
  }

  // ---- Fork subtree -------------------------------------------------------------------------

  /** The chat plus every fork descendant, by closing over the rows until nothing is added. */
  method CollectForkSubtreeIds(chats: seq<Chat>, root: Id) returns (ids: set<Id>)
    requires UniqueIds(chats)
    ensures root == NoId ==> ids == {}
    ensures root != NoId ==> forall y :: y in ids <==> Reaches(ParentOf(chats), y, root)
  {
    ids := {};
    if root == NoId {
      return;
    }
    ghost var up := ParentOf(chats);
    ids := {root};
    ReachesSelf(up, root);
    var changed := true;
    while changed
      invariant root in ids
      invariant ids <= RowIds(chats) + {root}
      invariant forall y :: y in ids ==> Reaches(up, y, root)
      invariant !changed ==> forall c :: c in chats && c.id != NoId && c.parentId != NoId && c.parentId in ids ==>
        c.id in ids
      decreases RowIds(chats) + {root} - ids, changed
    {
      changed := false;
      ghost var before := ids;
      var i := 0;
      while i < |chats|
        invariant 0 <= i <= |chats|
        invariant before <= ids <= RowIds(chats) + {root}
        invariant forall y :: y in ids ==> Reaches(up, y, root)
        invariant changed ==> before < ids
        invariant !changed ==> ids == before
        invariant !changed ==> forall k ::
          0 <= k < i && chats[k].id != NoId && chats[k].parentId != NoId && chats[k].parentId in ids ==>
            chats[k].id in ids
      {
        var chat := chats[i];
        if chat.id != NoId && chat.parentId != NoId && chat.id !in ids && chat.parentId in ids {
          RowHasEdge(chats, chat);
          ReachesUnfold(up, chat.id, root);
          ids := ids + {chat.id};
          changed := true;
        }
        i := i + 1;
      }
    }
    forall z | z in up && up[z] in ids ensures z in ids {
      var c := EdgeHasRow(chats, z);
    }
    forall y | Reaches(up, y, root) ensures y in ids {
      var n: nat :| Steps(up, y, root, n);
      ClosedDownContains(up, ids, y, root, n);
    }
  }

  /** Some chat of the fork subtree of `root` is busy. */
  ghost predicate SubtreeBusy(chats: seq<Chat>, root: Id, isBusy: Chat -> bool)
    requires UniqueIds(chats)
  {
    root != NoId && exists c :: c in chats && c.id != NoId && isBusy(c) && Reaches(ParentOf(chats), c.id, root)
  }

  /** The quadratic definition: one subtree closure per question. */
  method IsForkSubtreeBusy(chats: seq<Chat>, root: Id, isBusy: Chat -> bool) returns (busy: bool)
    requires UniqueIds(chats)
    ensures busy <==> SubtreeBusy(chats, root, isBusy)
  {
    var ids := CollectForkSubtreeIds(chats, root);
    for i := 0 to |chats|
      invariant forall k :: 0 <= k < i && chats[k].id != NoId && chats[k].id in ids ==> !isBusy(chats[k])
    {
      if chats[i].id != NoId && chats[i].id in ids && isBusy(chats[i]) {
        return true;
      }
    }
    return false;
  }

  /** There are at most as many parents as rows. */
  lemma {:induction false} ParentsBounded(chats: seq<Chat>)
    ensures |ParentOf(chats).Values| <= |chats|
  {
    if chats != [] {
      var last := chats[|chats| - 1];
      var rest := ParentOf(chats[..|chats| - 1]);
      ParentsBounded(chats[..|chats| - 1]);
      if last.id != NoId && last.parentId != NoId {
        SubsetSize(rest[last.id := last.parentId].Values, rest.Values + {last.parentId});
      }
    }
  }

  /** Every id of `blocked` has its parent in `blocked` too, except possibly `node`. */
  ghost predicate UpClosedBut(up: Up, blocked: set<Id>, node: Id) {
    forall b {:trigger up[b]} :: b in blocked && b != node && b in up ==> up[b] in blocked
  }

  ghost function BusyIds(chats: seq<Chat>, isBusy: Chat -> bool): set<Id>
    requires UniqueIds(chats)
  {
    set r | r in RowIds(chats) + ParentOf(chats).Values && SubtreeBusy(chats, r, isBusy)
  }

  /** One upward pass over all rows. It answers `IsForkSubtreeBusy` for every id at once, also on
      cyclic graphs and for missing parents, in at most two steps per chat. */
  method BuildForkArchiveBlockedIds(chats: seq<Chat>, isBusy: Chat -> bool)
    returns (blocked: set<Id>, buildPassSteps: nat)
    requires UniqueIds(chats)
    ensures forall r :: r in blocked <==> SubtreeBusy(chats, r, isBusy)
    ensures buildPassSteps <= 2 * |chats|
  {
    blocked, buildPassSteps := {}, 0;
    ghost var busyIds, parentIds, climbed := BusyIds(chats, isBusy), ParentOf(chats).Values, {};
    for i := 0 to |chats|
      invariant blocked <= busyIds && UpClosedBut(ParentOf(chats), blocked, NoId)
      invariant forall k :: 0 <= k < i && chats[k].id != NoId && isBusy(chats[k]) ==> chats[k].id in blocked
      invariant climbed <= blocked && climbed <= parentIds && buildPassSteps == i + |climbed|
    {
      buildPassSteps := buildPassSteps + 1;
      if chats[i].id != NoId && isBusy(chats[i]) {
        var steps;
        blocked, steps, climbed := MarkBusyChain(chats, isBusy, chats[i], blocked, busyIds, parentIds, climbed);
        buildPassSteps := buildPassSteps + steps;
      }
    }
    PassCorrect(chats, isBusy, blocked, climbed);
  }

  lemma PassCorrect(chats: seq<Chat>, isBusy: Chat -> bool, blocked: set<Id>, climbed: set<Id>)
    requires UniqueIds(chats) && blocked <= BusyIds(chats, isBusy) && UpClosedBut(ParentOf(chats), blocked, NoId)
    requires forall k :: 0 <= k < |chats| && chats[k].id != NoId && isBusy(chats[k]) ==> chats[k].id in blocked
    requires climbed <= ParentOf(chats).Values
    ensures forall r :: r in blocked <==> SubtreeBusy(chats, r, isBusy)
    ensures |climbed| <= |chats|
  {
    ParentsBounded(chats);
    SubsetSize(climbed, ParentOf(chats).Values);
    BusyCovered(chats, blocked, isBusy);
  }

  /** Marks one busy row and climbs from it. Every climb step marks one more listed parent. */
  method MarkBusyChain(chats: seq<Chat>, isBusy: Chat -> bool, chat: Chat, marked: set<Id>,
                       ghost busyIds: set<Id>, ghost parentIds: set<Id>, ghost climbed: set<Id>)
    returns (blocked: set<Id>, steps: nat, ghost climbed': set<Id>)
    requires UniqueIds(chats) && chat in chats && chat.id != NoId && isBusy(chat)
    requires busyIds == BusyIds(chats, isBusy) && parentIds == ParentOf(chats).Values
    requires marked <= busyIds && UpClosedBut(ParentOf(chats), marked, NoId)
    requires climbed <= marked && climbed <= parentIds
    ensures marked + {chat.id} <= blocked <= busyIds && UpClosedBut(ParentOf(chats), blocked, NoId)
    ensures climbed' <= blocked && climbed' <= parentIds && |climbed'| == |climbed| + steps
  {
    BusySelf(chats, chat, isBusy);
    NextParentsAreEdges(chats);
    blocked, steps := ClimbInto(x => NextParent(chats, x), ParentOf(chats), chat.id, marked + {chat.id});
    ClimbMarksBusy(chats, isBusy, chat.id, marked + {chat.id}, blocked, climbed);
    climbed' := climbed + (blocked - (marked + {chat.id}));
  }

  lemma NextParentsAreEdges(chats: seq<Chat>)
    requires UniqueIds(chats)
    ensures IsNext(x => NextParent(chats, x), ParentOf(chats))
  {
    forall id | id != NoId
      ensures NextParent(chats, id) == (if id in ParentOf(chats) then ParentOf(chats)[id] else NoId)
      ensures id in ParentOf(chats) ==> ParentOf(chats)[id] != NoId
    {
      NextParentIsEdge(chats, id);
    }
  }

  /** A climb from a busy row marks only ids with a busy subtree, and each step one new listed parent. */
  lemma ClimbMarksBusy(chats: seq<Chat>, isBusy: Chat -> bool, id: Id, marked: set<Id>, all: set<Id>, climbed: set<Id>)
    requires UniqueIds(chats) && id in BusyIds(chats, isBusy) && marked <= BusyIds(chats, isBusy) && marked <= all
    requires climbed <= marked && climbed <= ParentOf(chats).Values
    requires forall y :: y in all ==> y in marked || Above(ParentOf(chats), id, y)
    ensures all <= BusyIds(chats, isBusy) && climbed + (all - marked) <= ParentOf(chats).Values
    ensures |climbed + (all - marked)| == |climbed| + (|all| - |marked|)
  {
    BusyAbove(chats, id, isBusy);
    assert all == marked + (all - marked);
  }

  /** Every proper ancestor of a busy row is a listed parent with a busy subtree. */
  lemma BusyAbove(chats: seq<Chat>, id: Id, isBusy: Chat -> bool)
    requires UniqueIds(chats) && id in BusyIds(chats, isBusy)
    ensures forall y :: Above(ParentOf(chats), id, y) ==> y in BusyIds(chats, isBusy) && y in ParentOf(chats).Values
  {
    var up := ParentOf(chats);
    var s := BusyIds(chats, isBusy) * ParentOf(chats).Values;
    forall z | z in BusyIds(chats, isBusy) && z in up ensures up[z] in s {
      BusyClimbs(chats, z, isBusy);
    }
    ClosedHoldsAncestors(up, s, id);
  }

  /** The parent of the row of `id`; `NoId` ends the walk: no such row, or a row without a parent. */
  function NextParent(chats: seq<Chat>, id: Id): Id {
    if HasChat(chats, id) then FindChat(chats, id).parentId else NoId
  }

  lemma NextParentIsEdge(chats: seq<Chat>, id: Id)
    requires UniqueIds(chats) && id != NoId
    ensures id in ParentOf(chats) <==> NextParent(chats, id) != NoId
    ensures id in ParentOf(chats) ==> ParentOf(chats)[id] == NextParent(chats, id)
  {
    if HasChat(chats, id) {
      RowHasEdge(chats, FindChat(chats, id));
    } else {
      NoRowNoEdge(chats, id);
    }
  }

  lemma NoRowNoEdge(chats: seq<Chat>, id: Id)
    requires !HasChat(chats, id)
    ensures id !in ParentOf(chats)
  {
    if id in ParentOf(chats) {
      var c := EdgeHasRow(chats, id);
    }
  }

  lemma BusySelf(chats: seq<Chat>, c: Chat, isBusy: Chat -> bool)
    requires UniqueIds(chats) && c in chats && c.id != NoId && isBusy(c)
    ensures c.id in BusyIds(chats, isBusy)
  {
    ReachesSelf(ParentOf(chats), c.id);
  }

  lemma BusyClimbs(chats: seq<Chat>, id: Id, isBusy: Chat -> bool)
    requires UniqueIds(chats) && id in ParentOf(chats) && id in BusyIds(chats, isBusy)
    ensures ParentOf(chats)[id] in BusyIds(chats, isBusy) && ParentOf(chats)[id] in ParentOf(chats).Values
  {
    var up := ParentOf(chats);
    var row := EdgeHasRow(chats, id);
    var c :| c in chats && c.id != NoId && isBusy(c) && Reaches(up, c.id, id);
    ReachesSelf(up, up[id]);
    ReachesUnfold(up, id, up[id]);
    ReachesTransitive(up, c.id, id, up[id]);
  }

  /** An up-closed set that holds every busy row holds every id with a busy subtree. */
  lemma BusyCovered(chats: seq<Chat>, blocked: set<Id>, isBusy: Chat -> bool)
    requires UniqueIds(chats) && blocked <= BusyIds(chats, isBusy)
    requires UpClosedBut(ParentOf(chats), blocked, NoId)
    requires forall k :: 0 <= k < |chats| && chats[k].id != NoId && isBusy(chats[k]) ==> chats[k].id in blocked
    ensures forall r :: r in blocked <==> SubtreeBusy(chats, r, isBusy)
  {
    var up := ParentOf(chats);
    if NoId in up {
      var c := EdgeHasRow(chats, NoId);
    }
    forall r | SubtreeBusy(chats, r, isBusy) ensures r in blocked {
      var c :| c in chats && c.id != NoId && isBusy(c) && Reaches(up, c.id, r);
      var n: nat :| Steps(up, c.id, r, n);
      ClosedContains(up, blocked, c.id, r, n);
    }
  }

  // ---- Nesting guard ------------------------------------------------------------------------

  /** `parentId` is the chat itself or one of its descendants. */
  ghost predicate NestsUnderSelf(chats: seq<Chat>, chatId: Id, parentId: Id) {
    chatId == parentId || (HasChat(chats, chatId) && Reaches(ParentOf(chats), parentId, chatId))
  }

  /** Walks the ancestors of `parentId`; true when `chatId` is among them. */
  method WouldCreateChatParentCycle(chats: seq<Chat>, chatId: Id, parentId: Id) returns (cycle: bool)
    requires UniqueIds(chats)
    ensures cycle == (chatId != NoId && parentId != NoId && NestsUnderSelf(chats, chatId, parentId))
  {
    if chatId == NoId || parentId == NoId {
      return false;
    }
    if chatId == parentId {
      return true;
    }
    ghost var up := ParentOf(chats);
    ghost var node := parentId;
    var currentId := parentId;
    var visited: set<Id> := {};
    ReachesSelf(up, parentId);
    while HasChat(chats, currentId)
      invariant currentId != NoId && Reaches(up, parentId, currentId)
      invariant visited <= RowIds(chats) && chatId !in visited
      invariant parentId == currentId || parentId in visited
      invariant forall v {:trigger up[v]} :: v in visited && v in up ==> up[v] in visited || up[v] == currentId
      decreases RowIds(chats) - visited
    {
      var current := FindChat(chats, currentId);
      if current.id == chatId {
        return true;
      }
      if currentId in visited {
        NotAbove(up, visited, parentId, chatId);
        return false;
      }
      visited := visited + {currentId};
      RowHasEdge(chats, current);
      if current.parentId == NoId {
        NotAbove(up, visited, parentId, chatId);
        return false;
      }
      ReachesSelf(up, current.parentId);
      ReachesUnfold(up, currentId, current.parentId);
      ReachesTransitive(up, parentId, currentId, current.parentId);
      currentId := current.parentId;
    }
    if HasChat(chats, chatId) {
      NoRowNoEdge(chats, currentId);
      NotAbove(up, visited + {currentId}, parentId, chatId);
    }
    return false;
  }

  lemma NotAbove(up: Up, s: set<Id>, x: Id, y: Id)
    requires x in s && y !in s
    requires forall z {:trigger up[z]} :: z in s && z in up ==> up[z] in s
    ensures !Reaches(up, x, y)
  {
    if Reaches(up, x, y) {
      var n: nat :| Steps(up, x, y, n);
      ClosedContains(up, s, x, y, n);
    }
  }

  /** The rows after the store has nested `chatId` under `parentId`. */
  function Nest(chats: seq<Chat>, chatId: Id, parentId: Id): (nested: seq<Chat>)
    ensures |nested| == |chats|
  {
    seq(|chats|, i requires 0 <= i < |chats| =>
      if chats[i].id == chatId then chats[i].(parentId := parentId) else chats[i])
  }

  /** The guard is exact: in an acyclic forest, nesting an existing chat under a non-empty parent
      leaves the forest acyclic if and only if the guard allows it. */
  lemma NestingGuardExact(chats: seq<Chat>, chatId: Id, parentId: Id)
    requires UniqueIds(chats) && Acyclic(ParentOf(chats))
    requires chatId != NoId && parentId != NoId && HasChat(chats, chatId)
    ensures UniqueIds(Nest(chats, chatId, parentId))
    ensures ParentOf(Nest(chats, chatId, parentId)) == ParentOf(chats)[chatId := parentId]
    ensures Acyclic(ParentOf(Nest(chats, chatId, parentId))) <==> !NestsUnderSelf(chats, chatId, parentId)
  {
    var up := ParentOf(chats);
    var nested := Nest(chats, chatId, parentId);
    assert UniqueIds(nested);
    NestedParents(chats, chatId, parentId);
    ReachesSelf(up, chatId);
    if Reaches(up, parentId, chatId) {
      ReparentUnderDescendantCloses(up, chatId, parentId);
    } else {
      ReparentKeepsAcyclic(up, chatId, parentId);
    }
  }

  lemma {:induction false} NestedParents(chats: seq<Chat>, chatId: Id, parentId: Id)
    requires UniqueIds(chats) && chatId != NoId && parentId != NoId
    ensures ParentOf(Nest(chats, chatId, parentId))
         == if HasChat(chats, chatId) then ParentOf(chats)[chatId := parentId] else ParentOf(chats)
  {
    if chats != [] {
      var rest := chats[..|chats| - 1];
      assert Nest(chats, chatId, parentId)[..|chats| - 1] == Nest(rest, chatId, parentId);
      NestedParents(rest, chatId, parentId);
    }
  }

  // ---- Live and archived rows ---------------------------------------------------------------

  ghost function LiveIds(chats: seq<Chat>): set<Id> {
    set c | c in chats && c.id != NoId && !c.IsArchived() :: c.id
  }

  ghost function ArchivedIds(chats: seq<Chat>): set<Id> {
    set c | c in chats && c.id != NoId && c.IsArchived() :: c.id
  }

  /** Archived rows with a live descendant under an unbroken archived chain. */
  ghost function ArchivedAncestors(chats: seq<Chat>): set<Id> {
    KeptAncestors(ParentOf(chats), LiveIds(chats), ArchivedIds(chats))
  }

  lemma ArchivedRowId(chats: seq<Chat>, c: Chat)
    requires UniqueIds(chats) && c in chats && c.id != NoId
    ensures c.id in ArchivedIds(chats) <==> c.IsArchived()
    ensures c.id in LiveIds(chats) <==> !c.IsArchived()
  {
    if c.id in ArchivedIds(chats) {
      var d :| d in chats && d.id == c.id && d.IsArchived();
      SameIdSameRow(chats, c, d);
    }
    if c.id in LiveIds(chats) {
      var d :| d in chats && d.id == c.id && !d.IsArchived();
      SameIdSameRow(chats, c, d);
    }
  }

  /** The next archived row above `id`; `NoId` when the walk stops there. */
  function NextArchived(chats: seq<Chat>, id: Id): Id {
    var parentId := NextParent(chats, id);
    if parentId != NoId && HasChat(chats, parentId) && FindChat(chats, parentId).IsArchived() then parentId else NoId
  }

  lemma NextArchivedIsEdge(chats: seq<Chat>, id: Id)
    requires UniqueIds(chats) && id != NoId
    ensures id in ArchivedEdges(ParentOf(chats), ArchivedIds(chats)) <==> NextArchived(chats, id) != NoId
    ensures id in ArchivedEdges(ParentOf(chats), ArchivedIds(chats)) ==> ParentOf(chats)[id] == NextArchived(chats, id)
  {
    NextParentIsEdge(chats, id);
    var parentId := NextParent(chats, id);
    if parentId != NoId && HasChat(chats, parentId) {
      ArchivedRowId(chats, FindChat(chats, parentId));
    }
  }

  lemma NextArchivedAreEdges(chats: seq<Chat>)
    requires UniqueIds(chats)
    ensures IsNext(id => NextArchived(chats, id), ArchivedEdges(ParentOf(chats), ArchivedIds(chats)))
  {
    var up := ArchivedEdges(ParentOf(chats), ArchivedIds(chats));
    forall id | id != NoId
      ensures NextArchived(chats, id) == (if id in up then up[id] else NoId)
      ensures id in up ==> up[id] != NoId
    {
      NextArchivedIsEdge(chats, id);
    }
  }

  /** The archived chain above every live row of the prefix is collected. */
  ghost predicate CoversPrefix(chats: seq<Chat>, n: nat, keep: set<Id>)
    requires n <= |chats|
  {
    var up := ArchivedEdges(ParentOf(chats), ArchivedIds(chats));
    forall j, k :: 0 <= j < n && chats[j].id != NoId && !chats[j].IsArchived() && Above(up, chats[j].id, k) ==>
      k in keep
  }

  method CollectArchivedAncestorIds(chats: seq<Chat>) returns (keep: set<Id>)
    requires UniqueIds(chats)
    ensures keep == ArchivedAncestors(chats)
  {
    keep := {};
    for i := 0 to |chats|
      invariant keep <= ArchivedAncestors(chats)
      invariant CoversPrefix(chats, i, keep)
    {
      if chats[i].id != NoId && !chats[i].IsArchived() {
        var above := CollectArchivedAbove(chats, chats[i]);
        keep := keep + above;
      }
    }
    KeptIsCovered(chats, keep);
  }

  method CollectArchivedAbove(chats: seq<Chat>, c: Chat) returns (above: set<Id>)
    requires UniqueIds(chats) && c in chats && c.id != NoId && !c.IsArchived()
    ensures above <= ArchivedAncestors(chats)
    ensures forall k :: Above(ArchivedEdges(ParentOf(chats), ArchivedIds(chats)), c.id, k) ==> k in above
  {
    NextArchivedAreEdges(chats);
    above := WalkAbove(id => NextArchived(chats, id), ArchivedEdges(ParentOf(chats), ArchivedIds(chats)), c.id);
    AboveLiveIsKept(chats, c, above);
  }

  lemma AboveLiveIsKept(chats: seq<Chat>, c: Chat, above: set<Id>)
    requires c in chats && c.id != NoId && !c.IsArchived()
    requires forall y :: y in above ==> Above(ArchivedEdges(ParentOf(chats), ArchivedIds(chats)), c.id, y)
    ensures above <= ArchivedAncestors(chats)
  {
    forall y | y in above ensures y in ArchivedAncestors(chats) {
      AboveIsArchived(ParentOf(chats), ArchivedIds(chats), c.id, y);
      assert c.id in LiveIds(chats);
    }
  }

  lemma KeptIsCovered(chats: seq<Chat>, keep: set<Id>)
    requires CoversPrefix(chats, |chats|, keep)
    ensures ArchivedAncestors(chats) <= keep
  {
    forall k | k in ArchivedAncestors(chats) ensures k in keep {
      var x :| x in LiveIds(chats) && Above(ArchivedEdges(ParentOf(chats), ArchivedIds(chats)), x, k);
      var c :| c in chats && c.id == x && x != NoId && !c.IsArchived();
      var j :| 0 <= j < |chats| && chats[j] == c;
    }
  }
}
