/** The flattened sidebar tree and the live/archived split that keeps its places. */
module ChatTreeLayout {
  import opened Sublists
  import opened ParentGraph
  import opened ChatTree

  // ---- Roots, children and places -----------------------------------------------------------

  /** A row without a usable parent: none named, itself, or one that does not exist. */
  predicate IsRoot(chats: seq<Chat>, c: Chat) {
    c.parentId == NoId || c.parentId == c.id || !HasChat(chats, c.parentId)
  }

  /** The roots among `rows`, in input order. */
  function RootsIn(chats: seq<Chat>, rows: seq<Chat>): (roots: seq<Chat>)
    ensures forall c :: c in roots <==> c in rows && IsRoot(chats, c)
  {
    if rows == [] then []
    else
      var last := rows[|rows| - 1];
      RootsIn(chats, rows[..|rows| - 1]) + (if IsRoot(chats, last) then [last] else [])
  }

  /** The children of `parentId` among `rows`, in input order. */
  function ChildrenIn(chats: seq<Chat>, rows: seq<Chat>, parentId: Id): (children: seq<Chat>)
    ensures forall c :: c in children <==> c in rows && !IsRoot(chats, c) && c.parentId == parentId
  {
    if rows == [] then []
    else
      var last := rows[|rows| - 1];
      ChildrenIn(chats, rows[..|rows| - 1], parentId)
      + (if !IsRoot(chats, last) && last.parentId == parentId then [last] else [])
  }

  /** The edges of the displayed tree: rows that are not roots, to their parents. */
  ghost function TreeUp(chats: seq<Chat>): Up {
    var up := ParentOf(chats);
    map id | id in up && up[id] != id && HasChat(chats, up[id]) :: up[id]
  }

  lemma TreeEdgeIffNotRoot(chats: seq<Chat>, c: Chat)
    requires UniqueIds(chats) && c in chats && c.id != NoId
    ensures c.id in TreeUp(chats) <==> !IsRoot(chats, c)
    ensures c.id in TreeUp(chats) ==> TreeUp(chats)[c.id] == c.parentId
  {
    RowHasEdge(chats, c);
  }

  /** The place a row has in the tree: `level` steps below a root, directly under `parentId`. Rows on
      or below a cycle have no place. */
  ghost predicate PlacedAt(chats: seq<Chat>, id: Id, level: nat, parentId: Id) {
    && id in RowIds(chats)
    && (exists top :: top !in TreeUp(chats) && Steps(TreeUp(chats), id, top, level))
    && parentId == (if id in TreeUp(chats) then TreeUp(chats)[id] else NoId)
  }

  // ---- Preorder -----------------------------------------------------------------------------

  /** One row of the flattened list; before it is emitted, one node of the DFS stack. */
  datatype FlatRow = FlatRow(chat: Chat, level: nat, isLastChild: bool, parentId: Id)

  function RootNodes(roots: seq<Chat>): seq<FlatRow> {
    seq(|roots|, i requires 0 <= i < |roots| => FlatRow(roots[i], 0, false, NoId))
  }

  function ChildNodes(children: seq<Chat>, parent: FlatRow): seq<FlatRow> {
    seq(|children|, i requires 0 <= i < |children| =>
      FlatRow(children[i], parent.level + 1, i == |children| - 1, parent.chat.id))
  }

  /** Recursive preorder below one node. `avail` holds the ids not yet used on the way down, so the
      definition also terminates on cyclic graphs. */
  ghost function PreorderNode(chats: seq<Chat>, node: FlatRow, avail: set<Id>): seq<FlatRow>
    decreases avail, 0
  {
    if node.chat.id == NoId || node.chat.id !in avail then []
    else [node] + PreorderList(chats, ChildNodes(ChildrenIn(chats, chats, node.chat.id), node), avail - {node.chat.id})
  }

  ghost function PreorderList(chats: seq<Chat>, nodes: seq<FlatRow>, avail: set<Id>): seq<FlatRow>
    decreases avail, 1 + |nodes|
  {
    if nodes == [] then []
    else PreorderNode(chats, nodes[0], avail) + PreorderList(chats, nodes[1..], avail)
  }

  lemma {:induction false} PreorderAppend(chats: seq<Chat>, a: seq<FlatRow>, b: seq<FlatRow>, avail: set<Id>)
    ensures PreorderList(chats, a + b, avail) == PreorderList(chats, a, avail) + PreorderList(chats, b, avail)
  {
    if a == [] {
      assert a + b == b;
    } else {
      assert (a + b)[1..] == a[1..] + b;
      PreorderAppend(chats, a[1..], b, avail);
    }
  }

  ghost predicate RowsOf(chats: seq<Chat>, nodes: seq<FlatRow>) {
    forall i :: 0 <= i < |nodes| ==> nodes[i].chat in chats
  }

  /** Dropping an id that no node lies at or above leaves the preorder unchanged. */
  lemma {:induction false} PreorderIgnores(chats: seq<Chat>, nodes: seq<FlatRow>, avail: set<Id>, id: Id)
    requires UniqueIds(chats) && RowsOf(chats, nodes)
    requires forall i :: 0 <= i < |nodes| && nodes[i].chat.id != NoId ==> !Reaches(TreeUp(chats), id, nodes[i].chat.id)
    ensures PreorderList(chats, nodes, avail) == PreorderList(chats, nodes, avail - {id})
    decreases avail, |nodes|
  {
    if nodes != [] {
      var n := nodes[0];
      PreorderIgnores(chats, nodes[1..], avail, id);
      if n.chat.id != NoId {
        ReachesSelf(TreeUp(chats), id);
        if n.chat.id in avail {
          var children := ChildrenIn(chats, chats, n.chat.id);
          var sub := ChildNodes(children, n);
          forall i | 0 <= i < |sub| && sub[i].chat.id != NoId ensures !Reaches(TreeUp(chats), id, sub[i].chat.id) {
            assert children[i] in children;
            ChildStep(chats, children[i]);
            if Reaches(TreeUp(chats), id, sub[i].chat.id) {
              ReachesTransitive(TreeUp(chats), id, sub[i].chat.id, n.chat.id);
            }
          }
          forall i | 0 <= i < |sub| ensures sub[i].chat in chats {
            assert children[i] in children;
          }
          PreorderIgnores(chats, sub, avail - {n.chat.id}, id);
          assert avail - {n.chat.id} - {id} == avail - {id} - {n.chat.id};
        }
      }
    }
  }

  /** A child is one tree step below its parent. */
  lemma ChildStep(chats: seq<Chat>, c: Chat)
    requires UniqueIds(chats) && c in chats && c.id != NoId && !IsRoot(chats, c)
    ensures c.id in TreeUp(chats) && TreeUp(chats)[c.id] == c.parentId && Reaches(TreeUp(chats), c.id, c.parentId)
  {
    TreeEdgeIffNotRoot(chats, c);
    ReachesSelf(TreeUp(chats), c.parentId);
    ReachesUnfold(TreeUp(chats), c.id, c.parentId);
  }

  // ---- The explicit-stack walk --------------------------------------------------------------

  ghost predicate NodePlaced(chats: seq<Chat>, node: FlatRow) {
    node.chat in chats && (node.chat.id != NoId ==> PlacedAt(chats, node.chat.id, node.level, node.parentId))
  }

  /** An unvisited, placed row whose parent has been visited. */
  ghost predicate NodeReady(chats: seq<Chat>, node: FlatRow, visited: set<Id>) {
    && NodePlaced(chats, node) && node.chat.id !in visited
    && (node.chat.id in TreeUp(chats) ==> TreeUp(chats)[node.chat.id] in visited)
  }

  ghost predicate AllReady(chats: seq<Chat>, pending: seq<FlatRow>, visited: set<Id>) {
    forall node :: node in pending ==> NodeReady(chats, node, visited)
  }

  ghost predicate VisitedOk(chats: seq<Chat>, visited: set<Id>) {
    visited <= RowIds(chats) && UpClosedBut(TreeUp(chats), visited, NoId)
  }

  ghost predicate DistinctNodes(nodes: seq<FlatRow>) {
    forall i, j :: 0 <= i < j < |nodes| && nodes[i].chat.id != NoId ==> nodes[i].chat.id != nodes[j].chat.id
  }

  /** A root, or a child of a visited row. */
  ghost predicate Due(chats: seq<Chat>, c: Chat, visited: set<Id>) {
    c.id != NoId && c.id !in visited && (IsRoot(chats, c) || c.parentId in visited)
  }

  ghost predicate DuePending(chats: seq<Chat>, pending: seq<FlatRow>, visited: set<Id>) {
    forall c :: c in chats && Due(chats, c, visited) ==> exists node :: node in pending && node.chat == c
  }

  /** The pending nodes, next one first. */
  ghost predicate PendingOk(chats: seq<Chat>, pending: seq<FlatRow>, visited: set<Id>) {
    VisitedOk(chats, visited) && AllReady(chats, pending, visited) && DistinctNodes(pending)
      && DuePending(chats, pending, visited)
  }

  lemma AppendUnique(a: seq<Chat>, last: Chat)
    requires UniqueIds(a) && forall c :: c in a && c.id != NoId ==> c.id != last.id
    ensures UniqueIds(a + [last])
  {
    var b := a + [last];
    forall i, j | 0 <= i < j < |b| && b[i].id != NoId ensures b[i].id != b[j].id {
      assert b[i] == a[i] && a[i] in a;
    }
  }

  lemma UniqueInit(rows: seq<Chat>)
    requires UniqueIds(rows) && rows != []
    ensures UniqueIds(rows[..|rows| - 1])
    ensures forall c :: c in rows[..|rows| - 1] && c.id != NoId ==> c.id != rows[|rows| - 1].id
  {
    var rest := rows[..|rows| - 1];
    forall c | c in rest && c.id != NoId ensures c.id != rows[|rows| - 1].id {
      var i :| 0 <= i < |rest| && rest[i] == c;
      assert rows[i] == c;
    }
  }

  lemma {:induction false} RootsDistinct(chats: seq<Chat>, rows: seq<Chat>)
    requires UniqueIds(rows)
    ensures UniqueIds(RootsIn(chats, rows))
  {
    if rows != [] {
      UniqueInit(rows);
      RootsDistinct(chats, rows[..|rows| - 1]);
      if IsRoot(chats, rows[|rows| - 1]) {
        AppendUnique(RootsIn(chats, rows[..|rows| - 1]), rows[|rows| - 1]);
      }
    }
  }

  lemma {:induction false} ChildrenDistinct(chats: seq<Chat>, rows: seq<Chat>, parentId: Id)
    requires UniqueIds(rows)
    ensures UniqueIds(ChildrenIn(chats, rows, parentId))
  {
    if rows != [] {
      UniqueInit(rows);
      ChildrenDistinct(chats, rows[..|rows| - 1], parentId);
      var last := rows[|rows| - 1];
      if !IsRoot(chats, last) && last.parentId == parentId {
        AppendUnique(ChildrenIn(chats, rows[..|rows| - 1], parentId), last);
      }
    }
  }

  lemma NoEmptyEdge(chats: seq<Chat>)
    ensures NoId !in TreeUp(chats)
  {
    if NoId in TreeUp(chats) {
      var c := EdgeHasRow(chats, NoId);
    }
  }

  lemma StartPending(chats: seq<Chat>)
    requires UniqueIds(chats)
    ensures PendingOk(chats, RootNodes(RootsIn(chats, chats)), {})
  {
    var roots := RootsIn(chats, chats);
    var pending := RootNodes(roots);
    RootsDistinct(chats, chats);
    NoEmptyEdge(chats);
    forall node | node in pending ensures NodeReady(chats, node, {}) {
      assert node.chat in roots;
      if node.chat.id != NoId {
        TreeEdgeIffNotRoot(chats, node.chat);
        assert Steps(TreeUp(chats), node.chat.id, node.chat.id, 0);
      }
    }
    forall c | c in chats && Due(chats, c, {}) ensures exists node :: node in pending && node.chat == c {
      assert c in roots;
      var i :| 0 <= i < |roots| && roots[i] == c;
      assert pending[i].chat == c;
    }
  }

  lemma ChildNode(children: seq<Chat>, parent: FlatRow, child: FlatRow)
    requires child in ChildNodes(children, parent)
    ensures child.chat in children && child.level == parent.level + 1 && child.parentId == parent.chat.id
  {
  }

  /** The children of a placed row are placed one level deeper, directly under it. */
  lemma ChildPlaced(chats: seq<Chat>, node: FlatRow, child: FlatRow)
    requires UniqueIds(chats) && node.chat.id != NoId && NodePlaced(chats, node)
    requires child in Children(chats, node)
    ensures NodePlaced(chats, child)
    ensures child.chat.id != NoId ==> child.chat.id in TreeUp(chats) && TreeUp(chats)[child.chat.id] == node.chat.id
  {
    ChildNode(ChildrenIn(chats, chats, node.chat.id), node, child);
    if child.chat.id != NoId {
      ChildStep(chats, child.chat);
      OneDeeper(chats, child.chat.id, node.chat.id, node.level, node.parentId);
    }
  }

  lemma OneDeeper(chats: seq<Chat>, id: Id, parentId: Id, level: nat, grandparentId: Id)
    requires id in RowIds(chats) && id in TreeUp(chats) && TreeUp(chats)[id] == parentId
    requires PlacedAt(chats, parentId, level, grandparentId)
    ensures PlacedAt(chats, id, level + 1, parentId)
  {
    var up := TreeUp(chats);
    var top :| top !in up && Steps(up, parentId, top, level);
    assert Steps(up, id, top, level + 1);
  }

  /** The nodes pushed for the children of a visited node. */
  function Children(chats: seq<Chat>, node: FlatRow): seq<FlatRow> {
    ChildNodes(ChildrenIn(chats, chats, node.chat.id), node)
  }

  lemma PopKeepsReady(chats: seq<Chat>, node: FlatRow, rest: seq<FlatRow>, visited: set<Id>)
    requires UniqueIds(chats) && node.chat.id != NoId && VisitedOk(chats, visited)
    requires AllReady(chats, [node] + rest, visited) && DistinctNodes([node] + rest)
    ensures var sub := Children(chats, node);
      VisitedOk(chats, visited + {node.chat.id}) && AllReady(chats, sub + rest, visited + {node.chat.id})
  {
    var sub := Children(chats, node);
    var visited' := visited + {node.chat.id};
    NoEmptyEdge(chats);
    assert node in [node] + rest;
    forall n | n in sub ensures NodeReady(chats, n, visited') {
      ChildPlaced(chats, node, n);
    }
    forall n | n in rest ensures NodeReady(chats, n, visited') {
      var i :| 0 <= i < |rest| && rest[i] == n;
      assert ([node] + rest)[i + 1] == n && ([node] + rest)[0] == node;
      assert n in [node] + rest;
    }
  }

  lemma PopKeepsDistinct(chats: seq<Chat>, node: FlatRow, rest: seq<FlatRow>, visited: set<Id>)
    requires UniqueIds(chats) && node.chat.id != NoId
    requires AllReady(chats, [node] + rest, visited) && DistinctNodes([node] + rest)
    ensures DistinctNodes(Children(chats, node) + rest)
  {
    var children := ChildrenIn(chats, chats, node.chat.id);
    var sub := ChildNodes(children, node);
    ChildrenDistinct(chats, chats, node.chat.id);
    assert node in [node] + rest;
    forall a, b | a in sub && b in rest && a.chat.id != NoId ensures a.chat.id != b.chat.id {
      ChildPlaced(chats, node, a);
      assert b in [node] + rest;
    }
    assert DistinctNodes(rest) by {
      assert forall i :: 0 <= i < |rest| ==> ([node] + rest)[i + 1] == rest[i];
    }
  }

  lemma PopKeepsDue(chats: seq<Chat>, node: FlatRow, rest: seq<FlatRow>, visited: set<Id>)
    requires DuePending(chats, [node] + rest, visited)
    ensures DuePending(chats, Children(chats, node) + rest, visited + {node.chat.id})
  {
    var children := ChildrenIn(chats, chats, node.chat.id);
    var sub := ChildNodes(children, node);
    forall c | c in chats && Due(chats, c, visited + {node.chat.id}) ensures exists n :: n in sub + rest && n.chat == c
    {
      if Due(chats, c, visited) {
        var n :| n in [node] + rest && n.chat == c;
        assert n in sub + rest;
      } else {
        assert c in children;
        var i :| 0 <= i < |children| && children[i] == c;
        assert sub[i] in sub + rest;
      }
    }
  }

  /** Popping a row that no other pending row lies above unfolds the preorder by exactly that row. */
  lemma PopUnfoldsPreorder(chats: seq<Chat>, node: FlatRow, rest: seq<FlatRow>, avail: set<Id>)
    requires UniqueIds(chats) && node.chat.id != NoId && node.chat.id in avail && RowsOf(chats, rest)
    requires forall i :: 0 <= i < |rest| && rest[i].chat.id != NoId ==>
      !Reaches(TreeUp(chats), node.chat.id, rest[i].chat.id)
    ensures PreorderList(chats, [node] + rest, avail)
         == [node] + PreorderList(chats, Children(chats, node) + rest, avail - {node.chat.id})
  {
    var sub := Children(chats, node);
    PreorderIgnores(chats, rest, avail, node.chat.id);
    PreorderAppend(chats, sub, rest, avail - {node.chat.id});
    UnfoldFirst(chats, node, rest, avail);
  }

  lemma UnfoldFirst(chats: seq<Chat>, node: FlatRow, rest: seq<FlatRow>, avail: set<Id>)
    requires node.chat.id != NoId && node.chat.id in avail
    ensures PreorderList(chats, [node] + rest, avail)
         == [node] + PreorderList(chats, Children(chats, node), avail - {node.chat.id})
           + PreorderList(chats, rest, avail)
  {
    assert ([node] + rest)[1..] == rest;
  }

  /** Everything above a pending row has been visited, so no other pending row is above it. */
  lemma NoneAbovePending(chats: seq<Chat>, node: FlatRow, rest: seq<FlatRow>, visited: set<Id>)
    requires VisitedOk(chats, visited) && AllReady(chats, [node] + rest, visited) && DistinctNodes([node] + rest)
    requires node.chat.id != NoId
    ensures node.chat.id in RowIds(chats) && RowsOf(chats, rest)
    ensures forall i :: 0 <= i < |rest| && rest[i].chat.id != NoId ==>
      !Reaches(TreeUp(chats), node.chat.id, rest[i].chat.id)
  {
    var up, id := TreeUp(chats), node.chat.id;
    assert node in [node] + rest;
    forall i | 0 <= i < |rest| ensures rest[i].chat in chats && !Reaches(up, id, rest[i].chat.id) {
      var other := rest[i];
      assert other in [node] + rest;
      assert ([node] + rest)[i + 1] == other && ([node] + rest)[0] == node;
      ReachesUnfold(up, id, other.chat.id);
      if Above(up, id, other.chat.id) {
        NoEmptyEdge(chats);
        var n: nat :| Steps(up, up[id], other.chat.id, n);
        ClosedContains(up, visited, up[id], other.chat.id, n);
      }
    }
  }

  /** When nothing is pending, every row that has a place has been visited. */
  lemma {:induction false} AllPlacedVisited(chats: seq<Chat>, visited: set<Id>, id: Id, top: Id, level: nat)
    requires UniqueIds(chats) && DuePending(chats, [], visited)
    requires id in RowIds(chats) && top !in TreeUp(chats) && Steps(TreeUp(chats), id, top, level)
    ensures id in visited
    decreases level
  {
    var up := TreeUp(chats);
    var c :| c in chats && c.id == id;
    TreeEdgeIffNotRoot(chats, c);
    if level > 0 {
      assert FindChat(chats, c.parentId) in chats;
      AllPlacedVisited(chats, visited, up[id], top, level - 1);
    }
    assert !Due(chats, c, visited);
  }

  function Reverse<T>(s: seq<T>): (r: seq<T>)
    ensures |r| == |s|
  {
    if s == [] then [] else [s[|s| - 1]] + Reverse(s[..|s| - 1])
  }

  /** Pushes the nodes from last to first, so that the first one is popped next. */
  method PushReversed(stack: seq<FlatRow>, nodes: seq<FlatRow>) returns (stack': seq<FlatRow>)
    ensures Reverse(stack') == nodes + Reverse(stack)
  {
    stack' := stack;
    var i := |nodes|;
    while i > 0
      invariant 0 <= i <= |nodes|
      invariant Reverse(stack') == nodes[i..] + Reverse(stack)
    {
      i := i - 1;
      stack' := stack' + [nodes[i]];
    }
  }

  // ---- Input order --------------------------------------------------------------------------

  ghost predicate BeforeIn(chats: seq<Chat>, c: Chat, d: Chat) {
    forall a, b :: 0 <= a < |chats| && 0 <= b < |chats| && chats[a] == c && chats[b] == d ==> a < b
  }

  /** Of two rows under the same parent, or two roots, the first one comes first in the input. */
  ghost predicate SiblingsInOrder(chats: seq<Chat>, nodes: seq<FlatRow>) {
    forall i, j :: 0 <= i < j < |nodes| && Siblings(nodes[i], nodes[j]) ==>
      BeforeIn(chats, nodes[i].chat, nodes[j].chat)
  }

  /** Two rows under the same parent, or two roots. */
  predicate Siblings(a: FlatRow, b: FlatRow) {
    a.parentId == b.parentId && a.chat.id != NoId && b.chat.id != NoId
  }

  /** No later row of the input lies under the same parent. A row that names itself as its parent is a root. */
  ghost predicate NoLaterSibling(chats: seq<Chat>, node: FlatRow) {
    forall a, b :: 0 <= a < b < |chats| && chats[a] == node.chat ==>
      !(chats[b].parentId == node.parentId && chats[b].id != node.parentId)
  }

  /** The last-child mark is set on exactly the rows below a parent that no sibling follows. */
  ghost predicate LastMarked(chats: seq<Chat>, node: FlatRow) {
    node.chat.id != NoId ==> (node.isLastChild <==> node.parentId != NoId && NoLaterSibling(chats, node))
  }

  ghost predicate AllMarked(chats: seq<Chat>, nodes: seq<FlatRow>) {
    forall node :: node in nodes ==> LastMarked(chats, node)
  }

  ghost predicate InInputOrder(chats: seq<Chat>, nodes: seq<FlatRow>) {
    SiblingsInOrder(chats, nodes) && AllMarked(chats, nodes)
  }

  lemma {:induction false} RootsAreSublist(chats: seq<Chat>, rows: seq<Chat>)
    ensures IsSublist(RootsIn(chats, rows), rows, (c: Chat) => IsRoot(chats, c))
  {
    if rows == [] {
      SublistEmpty((c: Chat) => IsRoot(chats, c));
    } else {
      RootsAreSublist(chats, rows[..|rows| - 1]);
      SublistSnoc(RootsIn(chats, rows[..|rows| - 1]), rows[..|rows| - 1],
                  rows[|rows| - 1], (c: Chat) => IsRoot(chats, c));
      assert rows == rows[..|rows| - 1] + [rows[|rows| - 1]];
    }
  }

  lemma {:induction false} ChildrenAreSublist(chats: seq<Chat>, rows: seq<Chat>, parentId: Id)
    ensures IsSublist(ChildrenIn(chats, rows, parentId), rows, (c: Chat) => !IsRoot(chats, c) && c.parentId == parentId)
  {
    var want := (c: Chat) => !IsRoot(chats, c) && c.parentId == parentId;
    if rows == [] {
      SublistEmpty(want);
    } else {
      ChildrenAreSublist(chats, rows[..|rows| - 1], parentId);
      SublistSnoc(ChildrenIn(chats, rows[..|rows| - 1], parentId), rows[..|rows| - 1], rows[|rows| - 1], want);
      assert rows == rows[..|rows| - 1] + [rows[|rows| - 1]];
    }
  }

  lemma RowHasOnePlace(chats: seq<Chat>, a: nat, b: nat)
    requires UniqueIds(chats) && a < |chats| && b < |chats| && chats[a] == chats[b] && chats[a].id != NoId
    ensures a == b
  {
  }

  lemma SublistInOrder(chats: seq<Chat>, at: seq<nat>, sub: seq<Chat>, want: Chat -> bool, j: nat, k: nat)
    requires UniqueIds(chats) && Picks(at, sub, chats, want) && j < k < |sub| && sub[j].id != NoId && sub[k].id != NoId
    ensures BeforeIn(chats, sub[j], sub[k])
  {
    forall a, b | 0 <= a < |chats| && 0 <= b < |chats| && chats[a] == sub[j] && chats[b] == sub[k] ensures a < b {
      RowHasOnePlace(chats, a, at[j]);
      RowHasOnePlace(chats, b, at[k]);
    }
  }

  lemma RootsInOrder(chats: seq<Chat>)
    requires UniqueIds(chats)
    ensures InInputOrder(chats, RootNodes(RootsIn(chats, chats)))
  {
    var roots, want := RootsIn(chats, chats), (c: Chat) => IsRoot(chats, c);
    RootsAreSublist(chats, chats);
    var at :| Picks(at, roots, chats, want);
    var nodes := RootNodes(roots);
    forall j, k | 0 <= j < k < |nodes| && Siblings(nodes[j], nodes[k])
      ensures BeforeIn(chats, nodes[j].chat, nodes[k].chat)
    {
      SublistInOrder(chats, at, roots, want, j, k);
    }
  }

  /** The rows under `id`, as long as `id` is a row. */
  function UnderId(id: Id): Chat -> bool {
    (c: Chat) => c.parentId == id && c.id != id
  }

  lemma ChildrenUnder(chats: seq<Chat>, id: Id) returns (at: seq<nat>)
    requires id != NoId && HasChat(chats, id)
    ensures Picks(at, ChildrenIn(chats, chats, id), chats, UnderId(id))
  {
    ChildrenAreSublist(chats, chats, id);
    SublistSame(ChildrenIn(chats, chats, id), chats, (c: Chat) => !IsRoot(chats, c) && c.parentId == id, UnderId(id));
    at :| Picks(at, ChildrenIn(chats, chats, id), chats, UnderId(id));
  }

  lemma ChildrenInOrder(chats: seq<Chat>, parent: FlatRow)
    requires UniqueIds(chats) && parent.chat.id != NoId && parent.chat in chats
    ensures InInputOrder(chats, Children(chats, parent))
  {
    var id := parent.chat.id;
    var at := ChildrenUnder(chats, id);
    ChildrenOrdered(chats, ChildrenIn(chats, chats, id), parent, at);
    ChildrenMarked(chats, ChildrenIn(chats, chats, id), parent, at);
  }

  lemma ChildrenOrdered(chats: seq<Chat>, children: seq<Chat>, parent: FlatRow, at: seq<nat>)
    requires UniqueIds(chats) && Picks(at, children, chats, UnderId(parent.chat.id))
    ensures SiblingsInOrder(chats, ChildNodes(children, parent))
  {
    var nodes := ChildNodes(children, parent);
    forall j, k | 0 <= j < k < |nodes| && Siblings(nodes[j], nodes[k])
      ensures BeforeIn(chats, nodes[j].chat, nodes[k].chat)
    {
      SublistInOrder(chats, at, children, UnderId(parent.chat.id), j, k);
    }
  }

  lemma ChildrenMarked(chats: seq<Chat>, children: seq<Chat>, parent: FlatRow, at: seq<nat>)
    requires UniqueIds(chats) && Picks(at, children, chats, UnderId(parent.chat.id)) && parent.chat.id != NoId
    ensures AllMarked(chats, ChildNodes(children, parent))
  {
    var nodes := ChildNodes(children, parent);
    forall node | node in nodes ensures LastMarked(chats, node) {
      var k :| 0 <= k < |nodes| && nodes[k] == node;
      if node.chat.id != NoId {
        LastHasNoneAfter(chats, children, parent.chat.id, at, k);
      }
    }
  }

  /** A child is the last one if and only if no later row of the input lies under the same parent. */
  lemma LastHasNoneAfter(chats: seq<Chat>, children: seq<Chat>, id: Id, at: seq<nat>, k: nat)
    requires UniqueIds(chats) && Picks(at, children, chats, UnderId(id)) && k < |children| && children[k].id != NoId
    ensures k == |children| - 1
       <==> forall a, b :: 0 <= a < b < |chats| && chats[a] == children[k] ==>
         !(chats[b].parentId == id && chats[b].id != id)
  {
    if k + 1 < |at| {
      assert at[k] < at[k + 1] < |chats| && chats[at[k]] == children[k] && at[k + 1] in at;
      assert UnderId(id)(chats[at[k + 1]]);
    } else {
      forall a, b | 0 <= a < b < |chats| && chats[a] == children[k] ensures b !in at && !UnderId(id)(chats[b]) {
        RowHasOnePlace(chats, a, at[k]);
      }
    }
  }

  /** Inserting the children of a row that has none yet keeps the order. */
  lemma InsertKeepsOrder(chats: seq<Chat>, pre: seq<FlatRow>, sub: seq<FlatRow>, post: seq<FlatRow>, parentId: Id)
    requires InInputOrder(chats, pre + post) && InInputOrder(chats, sub)
    requires forall node :: node in sub ==> node.parentId == parentId
    requires forall node :: node in pre + post && node.chat.id != NoId ==> node.parentId != parentId
    ensures InInputOrder(chats, pre + (sub + post))
  {
    var all := pre + (sub + post);
    assert forall node :: node in all <==> node in pre + post || node in sub;
    forall i, j | 0 <= i < j < |all| ensures Siblings(all[i], all[j]) ==> BeforeIn(chats, all[i].chat, all[j].chat) {
      var inside, i', j' := |pre|, if i < |pre| then i else i - |sub|, if j < |pre| then j else j - |sub|;
      if inside <= i < inside + |sub| && inside <= j < inside + |sub| {
        assert all[i] == sub[i - |pre|] && all[j] == sub[j - |pre|];
      } else if inside <= i < inside + |sub| {
        assert all[i] in sub && all[j] == (pre + post)[j'] && all[j] in pre + post;
      } else if inside <= j < inside + |sub| {
        assert all[j] in sub && all[i] == (pre + post)[i'] && all[i] in pre + post;
      } else {
        assert all[i] == (pre + post)[i'] && all[j] == (pre + post)[j'];
      }
    }
  }

  /** One round of the walk keeps the order of everything emitted or pending. */
  lemma PopKeepsOrder(chats: seq<Chat>, linear: seq<FlatRow>, node: FlatRow, rest: seq<FlatRow>, visited: set<Id>)
    requires UniqueIds(chats) && node.chat.id != NoId && WalkOk(chats, linear, [node] + rest, visited)
    requires InInputOrder(chats, linear + ([node] + rest))
    ensures InInputOrder(chats, linear + [node] + (Children(chats, node) + rest))
  {
    var pre, sub := linear + [node], Children(chats, node);
    assert linear + ([node] + rest) == pre + rest;
    assert node in [node] + rest && node.chat in chats;
    ChildrenInOrder(chats, node);
    forall n | n in pre + rest && n.chat.id != NoId ensures n.parentId != node.chat.id {
      NotYetParent(chats, linear, node, rest, visited, n);
    }
    forall n | n in sub ensures n.parentId == node.chat.id {
      ChildNode(ChildrenIn(chats, chats, node.chat.id), node, n);
    }
    InsertKeepsOrder(chats, pre, sub, rest, node.chat.id);
  }

  lemma NotYetParent(chats: seq<Chat>, linear: seq<FlatRow>, node: FlatRow, rest: seq<FlatRow>, visited: set<Id>,
                     n: FlatRow)
    requires UniqueIds(chats) && node.chat.id != NoId && WalkOk(chats, linear, [node] + rest, visited)
    requires n in linear + [node] + rest && n.chat.id != NoId
    ensures n.parentId != node.chat.id
  {
    assert node in [node] + rest;
    if n in linear {
      var i :| 0 <= i < |linear| && linear[i] == n;
      assert EmittedAt(chats, linear, i);
    } else {
      assert n in [node] + rest && NodeReady(chats, n, visited);
    }
  }

  lemma SkipKeepsOrder(chats: seq<Chat>, linear: seq<FlatRow>, node: FlatRow, rest: seq<FlatRow>)
    requires InInputOrder(chats, linear + ([node] + rest))
    ensures InInputOrder(chats, linear + rest)
  {
    var all, fewer := linear + ([node] + rest), linear + rest;
    forall i | 0 <= i < |fewer| ensures fewer[i] == all[if i < |linear| then i else i + 1] && fewer[i] in all {
    }
  }

  ghost function IdsOf(rows: seq<FlatRow>): set<Id> {
    set r | r in rows :: r.chat.id
  }

  /** The row at `i` is placed, new, and comes after its parent. */
  ghost predicate EmittedAt(chats: seq<Chat>, linear: seq<FlatRow>, i: nat)
    requires i < |linear|
  {
    && linear[i].chat.id != NoId && NodePlaced(chats, linear[i])
    && linear[i].chat.id !in IdsOf(linear[..i])
    && (linear[i].parentId != NoId ==> linear[i].parentId in IdsOf(linear[..i]))
  }

  ghost predicate EmittedOk(chats: seq<Chat>, linear: seq<FlatRow>) {
    forall i: nat :: i < |linear| ==> EmittedAt(chats, linear, i)
  }

  lemma EmitKeeps(chats: seq<Chat>, linear: seq<FlatRow>, node: FlatRow)
    requires EmittedOk(chats, linear) && node.chat.id != NoId && NodeReady(chats, node, IdsOf(linear))
    ensures EmittedOk(chats, linear + [node]) && IdsOf(linear + [node]) == IdsOf(linear) + {node.chat.id}
  {
    var longer := linear + [node];
    forall i: nat | i < |longer| ensures EmittedAt(chats, longer, i) {
      if i < |linear| {
        assert EmittedAt(chats, linear, i);
        assert longer[..i] == linear[..i];
      } else {
        assert longer[..i] == linear;
      }
    }
    assert forall r :: r in longer <==> r in linear || r == node;
  }

  /** The loop invariant: what is emitted and what is pending make up the whole preorder. */
  ghost predicate WalkOk(chats: seq<Chat>, linear: seq<FlatRow>, pending: seq<FlatRow>, visited: set<Id>) {
    && PendingOk(chats, pending, visited) && EmittedOk(chats, linear) && IdsOf(linear) == visited
    && linear + PreorderList(chats, pending, RowIds(chats) - visited)
       == PreorderList(chats, RootNodes(RootsIn(chats, chats)), RowIds(chats))
  }

  lemma StartWalk(chats: seq<Chat>, stack: seq<FlatRow>)
    requires UniqueIds(chats) && Reverse(stack) == RootNodes(RootsIn(chats, chats)) + Reverse<FlatRow>([])
    ensures WalkOk(chats, [], Reverse(stack), {})
  {
    assert Reverse(stack) == RootNodes(RootsIn(chats, chats));
    StartPending(chats);
    assert RowIds(chats) - {} == RowIds(chats);
  }

  /** One round of the walk, for a row that is visited now. */
  lemma PopPending(chats: seq<Chat>, linear: seq<FlatRow>, node: FlatRow, rest: seq<FlatRow>, visited: set<Id>)
    requires UniqueIds(chats) && node.chat.id != NoId && WalkOk(chats, linear, [node] + rest, visited)
    ensures node.chat.id in RowIds(chats) && node.chat.id !in visited
    ensures WalkOk(chats, linear + [node], Children(chats, node) + rest, visited + {node.chat.id})
  {
    PopKeepsPending(chats, node, rest, visited);
    PopKeepsPreorder(chats, linear, node, rest, visited);
    EmitKeeps(chats, linear, node);
  }

  lemma PopKeepsPending(chats: seq<Chat>, node: FlatRow, rest: seq<FlatRow>, visited: set<Id>)
    requires UniqueIds(chats) && node.chat.id != NoId && PendingOk(chats, [node] + rest, visited)
    ensures NodeReady(chats, node, visited) && node.chat.id in RowIds(chats)
    ensures PendingOk(chats, Children(chats, node) + rest, visited + {node.chat.id})
  {
    PopKeepsReady(chats, node, rest, visited);
    PopKeepsDistinct(chats, node, rest, visited);
    PopKeepsDue(chats, node, rest, visited);
    assert node in [node] + rest;
  }

  lemma PopKeepsPreorder(chats: seq<Chat>, linear: seq<FlatRow>, node: FlatRow, rest: seq<FlatRow>, visited: set<Id>)
    requires UniqueIds(chats) && node.chat.id != NoId && PendingOk(chats, [node] + rest, visited)
    ensures linear + PreorderList(chats, [node] + rest, RowIds(chats) - visited)
         == linear + [node]
           + PreorderList(chats, Children(chats, node) + rest, RowIds(chats) - (visited + {node.chat.id}))
  {
    var avail := RowIds(chats) - visited;
    assert node in [node] + rest;
    assert avail - {node.chat.id} == RowIds(chats) - (visited + {node.chat.id});
    NoneAbovePending(chats, node, rest, visited);
    PopUnfoldsPreorder(chats, node, rest, avail);
  }

  /** The displayed tree. It is the recursive preorder from the roots; a row appears exactly when it
      has a place, once, at that place, after its parent. Rows on or below a cycle are absent. */
  method FlattenChatsTree(chats: seq<Chat>) returns (linear: seq<FlatRow>)
    requires UniqueIds(chats)
    ensures linear == PreorderList(chats, RootNodes(RootsIn(chats, chats)), RowIds(chats))
    ensures EmittedOk(chats, linear)
    ensures forall id :: id in IdsOf(linear) <==> exists level, parentId :: PlacedAt(chats, id, level, parentId)
    ensures SiblingsInOrder(chats, linear) && AllMarked(chats, linear)
  {
    var stack := PushReversed([], RootNodes(RootsIn(chats, chats)));
    linear := [];
    var visited: set<Id> := {};
    StartWalk(chats, stack);
    RootsInOrder(chats);
    assert linear + Reverse(stack) == RootNodes(RootsIn(chats, chats));
    while stack != []
      invariant WalkOk(chats, linear, Reverse(stack), visited)
      invariant InInputOrder(chats, linear + Reverse(stack))
      decreases RowIds(chats) - visited, |stack|
    {
      var node := stack[|stack| - 1];
      stack := stack[..|stack| - 1];
      if node.chat.id == NoId || node.chat.id in visited {
        SkipPending(chats, linear, node, Reverse(stack), visited);
        SkipKeepsOrder(chats, linear, node, Reverse(stack));
        continue;
      }
      PopPending(chats, linear, node, Reverse(stack), visited);
      PopKeepsOrder(chats, linear, node, Reverse(stack), visited);
      visited := visited + {node.chat.id};
      linear := linear + [node];
      stack := PushReversed(stack, Children(chats, node));
    }
    EmittedExactly(chats, linear, visited);
    assert linear + Reverse<FlatRow>([]) == linear;
  }

  lemma EmittedExactly(chats: seq<Chat>, linear: seq<FlatRow>, visited: set<Id>)
    requires UniqueIds(chats) && WalkOk(chats, linear, [], visited)
    ensures linear == PreorderList(chats, RootNodes(RootsIn(chats, chats)), RowIds(chats))
    ensures EmittedOk(chats, linear)
    ensures forall id :: id in IdsOf(linear) <==> exists level, parentId :: PlacedAt(chats, id, level, parentId)
  {
    forall id | id in IdsOf(linear) ensures exists level, parentId :: PlacedAt(chats, id, level, parentId) {
      var i :| 0 <= i < |linear| && linear[i].chat.id == id;
      assert EmittedAt(chats, linear, i);
    }
    forall id, level, parentId | PlacedAt(chats, id, level, parentId) ensures id in IdsOf(linear) {
      var top :| top !in TreeUp(chats) && Steps(TreeUp(chats), id, top, level);
      AllPlacedVisited(chats, visited, id, top, level);
    }
  }

  /** Only a row without an id is ever skipped; it changes nothing. */
  lemma SkipPending(chats: seq<Chat>, linear: seq<FlatRow>, node: FlatRow, rest: seq<FlatRow>, visited: set<Id>)
    requires WalkOk(chats, linear, [node] + rest, visited) && (node.chat.id == NoId || node.chat.id in visited)
    ensures WalkOk(chats, linear, rest, visited)
  {
    SkipKeepsPreorder(chats, node, rest, RowIds(chats) - visited);
    SkipKeepsPending(chats, node, rest, visited);
  }

  lemma SkipKeepsPreorder(chats: seq<Chat>, node: FlatRow, rest: seq<FlatRow>, avail: set<Id>)
    requires node.chat.id == NoId || node.chat.id !in avail
    ensures PreorderList(chats, [node] + rest, avail) == PreorderList(chats, rest, avail)
  {
    assert PreorderNode(chats, node, avail) == [];
    assert ([node] + rest)[1..] == rest;
  }

  lemma SkipKeepsPending(chats: seq<Chat>, node: FlatRow, rest: seq<FlatRow>, visited: set<Id>)
    requires PendingOk(chats, [node] + rest, visited) && (node.chat.id == NoId || node.chat.id in visited)
    ensures PendingOk(chats, rest, visited)
  {
    var pending := [node] + rest;
    assert forall i :: 0 <= i < |rest| ==> pending[i + 1] == rest[i];
    assert forall n :: n in rest ==> n in pending;
    forall c | c in chats && Due(chats, c, visited) ensures exists n :: n in rest && n.chat == c {
      var n :| n in pending && n.chat == c;
      assert n in rest;
    }
  }

  // ---- Splitting live from archived ---------------------------------------------------------

  /** A row that stays in the live list: not archived, or an archived ancestor of a live row. */
  predicate StaysLive(c: Chat, keep: set<Id>) {
    !c.IsArchived() || c.id in keep
  }

  /** The rows on one side of the split, in input order. */
  function SplitRows(chats: seq<Chat>, keep: set<Id>, live: bool): (rows: seq<Chat>)
    ensures forall c :: c in rows <==> c in chats && StaysLive(c, keep) == live
  {
    if chats == [] then []
    else
      var last := chats[|chats| - 1];
      SplitRows(chats[..|chats| - 1], keep, live) + (if StaysLive(last, keep) == live then [last] else [])
  }

  /** No row is lost or duplicated by the split. */
  lemma {:induction false} SplitIsExact(chats: seq<Chat>, keep: set<Id>)
    ensures multiset(chats) == multiset(SplitRows(chats, keep, true)) + multiset(SplitRows(chats, keep, false))
  {
    if chats != [] {
      assert chats == chats[..|chats| - 1] + [chats[|chats| - 1]];
      SplitIsExact(chats[..|chats| - 1], keep);
    }
  }

  method PartitionChatsByArchive(chats: seq<Chat>) returns (live: seq<Chat>, archived: seq<Chat>)
    requires UniqueIds(chats)
    ensures live == SplitRows(chats, ArchivedAncestors(chats), true)
    ensures archived == SplitRows(chats, ArchivedAncestors(chats), false)
    ensures multiset(chats) == multiset(live) + multiset(archived)
  {
    live, archived := [], [];
    var keep := CollectArchivedAncestorIds(chats);
    for i := 0 to |chats|
      invariant live == SplitRows(chats[..i], keep, true) && archived == SplitRows(chats[..i], keep, false)
    {
      assert chats[..i + 1][..i] == chats[..i];
      if chats[i].IsArchived() && chats[i].id !in keep {
        archived := archived + [chats[i]];
      } else {
        live := live + [chats[i]];
      }
    }
    assert chats[..|chats|] == chats;
    SplitIsExact(chats, keep);
  }

  lemma {:induction false} SplitDistinct(chats: seq<Chat>, keep: set<Id>, live: bool)
    requires UniqueIds(chats)
    ensures UniqueIds(SplitRows(chats, keep, live))
  {
    if chats != [] {
      UniqueInit(chats);
      SplitDistinct(chats[..|chats| - 1], keep, live);
      if StaysLive(chats[|chats| - 1], keep) == live {
        AppendUnique(SplitRows(chats[..|chats| - 1], keep, live), chats[|chats| - 1]);
      }
    }
  }

  /** The live list is closed under existing parents. */
  lemma LiveClosedUnderParents(chats: seq<Chat>, c: Chat, p: Chat)
    requires UniqueIds(chats) && c in SplitRows(chats, ArchivedAncestors(chats), true) && c.id != NoId
    requires p in chats && p.id == c.parentId != NoId
    ensures p in SplitRows(chats, ArchivedAncestors(chats), true)
  {
    var edges := ArchivedEdges(ParentOf(chats), ArchivedIds(chats));
    if p.IsArchived() {
      RowHasEdge(chats, c);
      ArchivedRowId(chats, p);
      ArchivedRowId(chats, c);
      assert c.id in edges && edges[c.id] == p.id;
      ReachesSelf(edges, p.id);
      if c.IsArchived() {
        var x :| x in LiveIds(chats) && Above(edges, x, c.id);
        ReachesUnfold(edges, c.id, p.id);
        ReachesTransitive(edges, edges[x], c.id, p.id);
      }
    }
  }

  lemma LiveTreeEdges(chats: seq<Chat>, live: seq<Chat>, id: Id)
    requires UniqueIds(chats) && UniqueIds(live) && live == SplitRows(chats, ArchivedAncestors(chats), true)
    requires id in RowIds(live)
    ensures id in TreeUp(live) <==> id in TreeUp(chats)
    ensures id in TreeUp(chats) ==> TreeUp(live)[id] == TreeUp(chats)[id] && TreeUp(chats)[id] in RowIds(live)
  {
    var c :| c in live && c.id == id != NoId;
    TreeEdgeIffNotRoot(live, c);
    TreeEdgeIffNotRoot(chats, c);
    if HasChat(chats, c.parentId) && c.parentId != NoId {
      LiveClosedUnderParents(chats, c, FindChat(chats, c.parentId));
    }
  }

  /** Two graphs that agree on a set closed under parents have the same walks from it. */
  lemma {:induction false} SameWalks(a: Up, b: Up, s: set<Id>, x: Id, top: Id, n: nat)
    requires x in s
    requires forall z {:trigger a[z]} {:trigger b[z]} :: z in s && z in a ==> z in b && a[z] == b[z] && a[z] in s
    requires forall z {:trigger b[z]} :: z in s && z in b ==> z in a
    ensures Steps(a, x, top, n) <==> Steps(b, x, top, n)
    ensures Steps(a, x, top, n) ==> top in s
    decreases n
  {
    if n > 0 && x in a {
      SameWalks(a, b, s, a[x], top, n - 1);
    }
  }

  lemma LiveSteps(chats: seq<Chat>, live: seq<Chat>, id: Id, top: Id, n: nat)
    requires UniqueIds(chats) && UniqueIds(live) && live == SplitRows(chats, ArchivedAncestors(chats), true)
    requires id in RowIds(live)
    ensures Steps(TreeUp(live), id, top, n) <==> Steps(TreeUp(chats), id, top, n)
    ensures Steps(TreeUp(live), id, top, n) ==> top in RowIds(live)
  {
    var here, there := TreeUp(live), TreeUp(chats);
    forall z | z in RowIds(live)
      ensures z in here <==> z in there
      ensures z in here ==> here[z] == there[z] && here[z] in RowIds(live)
    {
      LiveTreeEdges(chats, live, z);
    }
    SameWalks(here, there, RowIds(live), id, top, n);
  }

  /** Taking the archived rows out moves no remaining row: each keeps its presence, level and parent. */
  lemma SplitKeepsPlaces(chats: seq<Chat>, id: Id, level: nat, parentId: Id)
    requires UniqueIds(chats)
    ensures var live := SplitRows(chats, ArchivedAncestors(chats), true);
      UniqueIds(live)
        && (id in RowIds(live) ==> (PlacedAt(live, id, level, parentId) <==> PlacedAt(chats, id, level, parentId)))
  {
    var live := SplitRows(chats, ArchivedAncestors(chats), true);
    SplitDistinct(chats, ArchivedAncestors(chats), true);
    if id in RowIds(live) {
      LiveTreeEdges(chats, live, id);
      forall top ensures (top !in TreeUp(live) && Steps(TreeUp(live), id, top, level))
        <==> (top !in TreeUp(chats) && Steps(TreeUp(chats), id, top, level))
      {
        LiveSteps(chats, live, id, top, level);
        if top in RowIds(live) {
          LiveTreeEdges(chats, live, top);
        }
      }
    }
  }
}
