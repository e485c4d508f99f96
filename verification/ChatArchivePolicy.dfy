/** Family archiving: the recursive family collector with its cycle guard, the children-first writer,
    and the chat store whose archive write cascades over the fork subtree. */
module ChatArchivePolicy {
  import opened Wrappers
  import opened ParentGraph
  import opened ChatTree

  /** A chat row with the fields the archive gate reads. */
  datatype Member = Member(row: Chat, archivedFlag: bool, watcherPinned: bool, updatedMs: Option<int>) {
    predicate AlreadyArchived() {
      archivedFlag || row.archivedAt != ""
    }
  }

  datatype Delegation = Delegation(childChatId: Id, terminal: bool, slotOccupied: bool) {
    predicate Settled() {
      terminal && !slotOccupied
    }
  }

  /** One chat snapshot with its gate and its delegation registry; `None` is a failed registry read. */
  datatype Snapshot = Snapshot(chats: seq<Member>, gate: Member -> bool, delegationsOf: Id -> Option<seq<Delegation>>)

  /** Fail-closed gate: a pinned chat, an unreadable or recent activity time and an idleness probe that
      throws (`None`) or does not confirm all keep the chat visible. */
  predicate ChatArchivable(chat: Member, now: int, graceMs: int, includeArchived: bool, probe: Member -> Option<bool>) {
    && !chat.watcherPinned
    && (chat.AlreadyArchived() ==> includeArchived)
    && chat.updatedMs.Some? && now - chat.updatedMs.value >= graceMs
    && probe(chat) == Some(true)
  }

  function Rows(chats: seq<Member>): (rows: seq<Chat>)
    ensures |rows| == |chats|
  {
    seq(|chats|, i requires 0 <= i < |chats| => chats[i].row)
  }

  ghost function Ids(chats: seq<Member>): set<Id> {
    set c | c in chats :: c.row.id
  }

  // ---- Family edges -------------------------------------------------------------------------

  function Forks(chats: seq<Member>, parentId: Id): (forks: seq<Member>)
    ensures forall c :: c in forks <==> c in chats && c.row.parentId == parentId
  {
    if chats == [] then []
    else
      var last := chats[|chats| - 1];
      Forks(chats[..|chats| - 1], parentId) + if last.row.parentId == parentId then [last] else []
  }

  /** The `byId` index: a later row replaces an earlier one of the same id. */
  function FindMember(chats: seq<Member>, id: Id): (found: Option<Member>)
    ensures found.Some? ==> found.value in chats && found.value.row.id == id
    ensures found.None? ==> forall c :: c in chats ==> c.row.id != id
  {
    if chats == [] then None
    else if chats[|chats| - 1].row.id == id then Some(chats[|chats| - 1])
    else FindMember(chats[..|chats| - 1], id)
  }

  /** Of several rows with one id, the last one is found. */
  lemma {:induction false} FindsLast(chats: seq<Member>, i: nat)
    requires i < |chats| && forall j :: i < j < |chats| ==> chats[j].row.id != chats[i].row.id
    ensures FindMember(chats, chats[i].row.id) == Some(chats[i])
  {
    if i < |chats| - 1 {
      FindsLast(chats[..|chats| - 1], i);
    }
  }

  /** Chats behind delegation rows; rows without a child and deleted children are ignored. */
  function DelegationChildren(chats: seq<Member>, rows: seq<Delegation>): (children: seq<Member>)
    ensures forall c :: c in children ==> c in chats
  {
    if rows == [] then []
    else
      var last := rows[|rows| - 1];
      var child := if last.childChatId == NoId then None else FindMember(chats, last.childChatId);
      DelegationChildren(chats, rows[..|rows| - 1]) + if child.Some? then [child.value] else []
  }

  ghost predicate Delegates(s: Snapshot, controller: Id, child: Id) {
    s.delegationsOf(controller).Some?
      && exists row :: row in s.delegationsOf(controller).value && row.childChatId == child
  }

  /** `b` is a direct fork or a delegation child of `a`. */
  ghost predicate Edge(s: Snapshot, a: Member, b: Member) {
    && a.row.id != NoId && b in s.chats
    && (b.row.parentId == a.row.id || (b.row.id != NoId && Delegates(s, a.row.id, b.row.id)))
  }

  /** `b` lies exactly `n` edges below `a`. */
  ghost predicate Walk(s: Snapshot, a: Member, b: Member, n: nat)
    decreases n
  {
    if n == 0 then a == b else exists c :: Edge(s, a, c) && Walk(s, c, b, n - 1)
  }

  ghost predicate Reachable(s: Snapshot, a: Member, b: Member) {
    exists n: nat :: Walk(s, a, b, n)
  }

  ghost predicate OnCycle(s: Snapshot, a: Member) {
    exists c :: Edge(s, a, c) && Reachable(s, c, a)
  }

  /** What every member of a family has to meet. */
  ghost predicate Passes(s: Snapshot, chat: Member) {
    chat.row.id != NoId && s.gate(chat) && RowsSettled(s, chat.row.id)
  }

  ghost predicate RowsSettled(s: Snapshot, id: Id) {
    s.delegationsOf(id).Some? && AllSettled(s.delegationsOf(id).value)
  }

  ghost predicate AllSettled(rows: seq<Delegation>) {
    forall row :: row in rows ==> row.Settled()
  }

  function Children(s: Snapshot, id: Id): (children: seq<Member>)
    requires s.delegationsOf(id).Some?
    ensures forall c :: c in children ==> c in s.chats
  {
    Forks(s.chats, id) + DelegationChildren(s.chats, s.delegationsOf(id).value)
  }

  lemma SameMember(chats: seq<Member>, a: Member, b: Member)
    requires UniqueIds(Rows(chats)) && a in chats && b in chats && a.row.id == b.row.id != NoId
    ensures a == b
  {
    var i :| 0 <= i < |chats| && chats[i] == a;
    var j :| 0 <= j < |chats| && chats[j] == b;
    assert Rows(chats)[i].id == Rows(chats)[j].id;
  }

  lemma {:induction false} DelegationChildrenExact(chats: seq<Member>, rows: seq<Delegation>, c: Member)
    requires UniqueIds(Rows(chats))
    ensures c in DelegationChildren(chats, rows)
      <==> c in chats && c.row.id != NoId && exists row :: row in rows && row.childChatId == c.row.id
  {
    if rows != [] {
      var rest, last := rows[..|rows| - 1], rows[|rows| - 1];
      DelegationChildrenExact(chats, rest, c);
      assert rows == rest + [last];
      var child := FindMember(chats, last.childChatId);
      if c in chats && c.row.id == last.childChatId != NoId && child.Some? {
        SameMember(chats, c, child.value);
      }
    }
  }

  lemma ChildrenExact(s: Snapshot, a: Member, c: Member)
    requires UniqueIds(Rows(s.chats)) && a.row.id != NoId && s.delegationsOf(a.row.id).Some?
    ensures c in Children(s, a.row.id) <==> Edge(s, a, c)
  {
    DelegationChildrenExact(s.chats, s.delegationsOf(a.row.id).value, c);
  }

  // ---- The family of a chat -----------------------------------------------------------------

  /** Parent-first members, or `None` as soon as one fails. `visiting` holds the chats on the path. */
  ghost function Family(s: Snapshot, chat: Member, visiting: set<Id>): (family: Option<seq<Member>>)
    requires chat in s.chats
    decreases Ids(s.chats) - visiting, 0, 0
  {
    var id := chat.row.id;
    if id in visiting || !Passes(s, chat) then None
    else
      var below := Families(s, Children(s, id), visiting + {id});
      if below.None? then None else Some([chat] + below.value)
  }

  ghost function Families(s: Snapshot, list: seq<Member>, visiting: set<Id>): Option<seq<Member>>
    requires forall c :: c in list ==> c in s.chats
    decreases Ids(s.chats) - visiting, 1, |list|
  {
    if list == [] then Some([])
    else
      Join(Families(s, list[..|list| - 1], visiting), Family(s, list[|list| - 1], visiting))
  }

  /** Both parts, unless one of them failed. */
  function Join(a: Option<seq<Member>>, b: Option<seq<Member>>): Option<seq<Member>> {
    if a.None? || b.None? then None else Some(a.value + b.value)
  }

  lemma JoinAssociates(a: Option<seq<Member>>, b: Option<seq<Member>>, c: Option<seq<Member>>)
    ensures Join(Join(a, b), c) == Join(a, Join(b, c))
    ensures Join(a, Some([])) == a
  {
    if a.Some? && b.Some? && c.Some? {
      assert a.value + b.value + c.value == a.value + (b.value + c.value);
    }
    assert a.Some? ==> a.value + [] == a.value;
  }

  lemma {:induction false} FamiliesConcat(s: Snapshot, a: seq<Member>, b: seq<Member>, visiting: set<Id>)
    requires forall c :: c in a || c in b ==> c in s.chats
    ensures Families(s, a + b, visiting) == Join(Families(s, a, visiting), Families(s, b, visiting))
    decreases |b|
  {
    var front := Families(s, a, visiting);
    if b == [] {
      assert a + b == a;
      JoinAssociates(front, front, front);
    } else {
      var rest, last := b[..|b| - 1], b[|b| - 1];
      FamiliesConcat(s, a, rest, visiting);
      assert (a + b)[..|a + b| - 1] == a + rest && (a + b)[|a + b| - 1] == last;
      JoinAssociates(front, Families(s, rest, visiting), Family(s, last, visiting));
    }
  }

  lemma {:induction false} FamiliesEach(s: Snapshot, list: seq<Member>, visiting: set<Id>, c: Member)
    requires forall c :: c in list ==> c in s.chats
    requires Families(s, list, visiting).Some? && c in list
    ensures Family(s, c, visiting).Some?
    ensures forall d :: d in Family(s, c, visiting).value ==> d in Families(s, list, visiting).value
    decreases |list|
  {
    if c != list[|list| - 1] {
      FamiliesEach(s, list[..|list| - 1], visiting, c);
    }
  }

  lemma {:induction false} FamiliesAll(s: Snapshot, list: seq<Member>, visiting: set<Id>)
    requires forall c :: c in list ==> c in s.chats && Family(s, c, visiting).Some?
    ensures Families(s, list, visiting).Some?
    decreases |list|
  {
    if list != [] {
      FamiliesAll(s, list[..|list| - 1], visiting);
    }
  }

  lemma {:induction false} FamiliesMember(s: Snapshot, list: seq<Member>, visiting: set<Id>, d: Member)
    returns (c: Member)
    requires forall c :: c in list ==> c in s.chats
    requires Families(s, list, visiting).Some? && d in Families(s, list, visiting).value
    ensures c in list && Family(s, c, visiting).Some? && d in Family(s, c, visiting).value
    decreases |list|
  {
    c := list[|list| - 1];
    if d !in Family(s, c, visiting).value {
      c := FamiliesMember(s, list[..|list| - 1], visiting, d);
    }
  }

  /** Every child of a collected chat is collected on the longer path. */
  lemma ChildFamily(s: Snapshot, chat: Member, visiting: set<Id>, c: Member)
    requires UniqueIds(Rows(s.chats)) && chat in s.chats
    requires Family(s, chat, visiting).Some? && Edge(s, chat, c)
    ensures Family(s, c, visiting + {chat.row.id}).Some?
    ensures forall d :: d in Family(s, c, visiting + {chat.row.id}).value ==> d in Family(s, chat, visiting).value[1..]
    ensures forall d :: d in Family(s, c, visiting + {chat.row.id}).value ==> d in Family(s, chat, visiting).value
  {
    ChildrenExact(s, chat, c);
    FamiliesEach(s, Children(s, chat.row.id), visiting + {chat.row.id}, c);
  }

  lemma WalkFirst(s: Snapshot, a: Member, b: Member, n: nat) returns (c: Member)
    requires n > 0 && Walk(s, a, b, n)
    ensures Edge(s, a, c) && c in s.chats && Walk(s, c, b, n - 1)
  {
    c :| Edge(s, a, c) && Walk(s, c, b, n - 1);
  }

  /** Everything below a collected chat passes the gate, avoids the path and is a member. */
  lemma {:induction false} FamilySound(s: Snapshot, chat: Member, visiting: set<Id>, d: Member, n: nat)
    requires UniqueIds(Rows(s.chats)) && chat in s.chats
    requires Family(s, chat, visiting).Some? && Walk(s, chat, d, n)
    ensures Passes(s, d) && d.row.id !in visiting && d in Family(s, chat, visiting).value
    decreases n
  {
    if n == 0 {
      assert d == chat && d == Family(s, chat, visiting).value[0];
    } else {
      var c := WalkFirst(s, chat, d, n);
      ChildFamily(s, chat, visiting, c);
      FamilySound(s, c, visiting + {chat.row.id}, d, n - 1);
    }
  }

  lemma WalkOn(s: Snapshot, a: Member, c: Member, b: Member)
    requires Edge(s, a, c) && Reachable(s, c, b)
    ensures Reachable(s, a, b)
  {
    var n: nat :| Walk(s, c, b, n);
    assert Walk(s, a, b, n + 1);
  }

  /** Every member is reachable from the collected chat. */
  lemma {:induction false} MemberReachable(s: Snapshot, chat: Member, visiting: set<Id>, d: Member)
    requires UniqueIds(Rows(s.chats)) && chat in s.chats
    requires Family(s, chat, visiting).Some? && d in Family(s, chat, visiting).value
    ensures Reachable(s, chat, d)
    decreases Ids(s.chats) - visiting
  {
    if d == chat {
      assert Walk(s, chat, d, 0);
    } else {
      var c := FamiliesMember(s, Children(s, chat.row.id), visiting + {chat.row.id}, d);
      MemberReachable(s, c, visiting + {chat.row.id}, d);
      ChildrenExact(s, chat, c);
      WalkOn(s, chat, c, d);
    }
  }

  /** Nothing below a collected chat lies on a cycle. */
  lemma {:induction false} FamilyAcyclic(s: Snapshot, chat: Member, visiting: set<Id>, d: Member, n: nat)
    requires UniqueIds(Rows(s.chats)) && chat in s.chats
    requires Family(s, chat, visiting).Some? && Walk(s, chat, d, n)
    ensures !OnCycle(s, d)
    decreases n
  {
    var path := visiting + {chat.row.id};
    if n > 0 {
      var c := WalkFirst(s, chat, d, n);
      ChildFamily(s, chat, visiting, c);
      FamilyAcyclic(s, c, path, d, n - 1);
    } else {
      RootOffCycle(s, chat, visiting);
    }
  }

  lemma RootOffCycle(s: Snapshot, chat: Member, visiting: set<Id>)
    requires UniqueIds(Rows(s.chats)) && chat in s.chats && Family(s, chat, visiting).Some?
    ensures !OnCycle(s, chat)
  {
    if OnCycle(s, chat) {
      var c :| Edge(s, chat, c) && Reachable(s, c, chat);
      var m: nat :| Walk(s, c, chat, m);
      ChildFamily(s, chat, visiting, c);
      FamilySound(s, c, visiting + {chat.row.id}, chat, m);
    }
  }

  /** A chat below which everything passes, nothing cycles and nothing is on the path is collected. */
  lemma {:induction false} FamilyComplete(s: Snapshot, chat: Member, visiting: set<Id>)
    requires UniqueIds(Rows(s.chats)) && chat in s.chats
    requires forall d :: Reachable(s, chat, d) ==> Passes(s, d) && !OnCycle(s, d) && d.row.id !in visiting
    ensures Family(s, chat, visiting).Some?
    decreases Ids(s.chats) - visiting
  {
    assert Walk(s, chat, chat, 0);
    var id := chat.row.id;
    assert Reachable(s, chat, chat) && id in Ids(s.chats);
    forall c | c in Children(s, id) ensures Family(s, c, visiting + {id}).Some? {
      ChildrenExact(s, chat, c);
      forall d | Reachable(s, c, d) ensures Passes(s, d) && !OnCycle(s, d) && d.row.id !in visiting + {id} {
        WalkOn(s, chat, c, d);
        if d.row.id == id {
          ReachableIsRow(s, c, d);
          SameMember(s.chats, d, chat);
        }
      }
      FamilyComplete(s, c, visiting + {id});
    }
    FamiliesAll(s, Children(s, id), visiting + {id});
  }

  lemma {:induction false} WalkIsRow(s: Snapshot, a: Member, b: Member, n: nat)
    requires a in s.chats && Walk(s, a, b, n)
    ensures b in s.chats
    decreases n
  {
    if n > 0 {
      var c := WalkFirst(s, a, b, n);
      WalkIsRow(s, c, b, n - 1);
    }
  }

  lemma ReachableIsRow(s: Snapshot, a: Member, b: Member)
    requires a in s.chats && Reachable(s, a, b)
    ensures b in s.chats
  {
    var n: nat :| Walk(s, a, b, n);
    WalkIsRow(s, a, b, n);
  }

  /** The collector is exact: it returns a family if and only if everything reachable by fork or
      delegation edges passes the gate and no cycle is reachable; its members are then exactly the
      reachable chats. */
  lemma CollectExact(s: Snapshot, root: Member)
    requires UniqueIds(Rows(s.chats)) && root in s.chats
    ensures Family(s, root, {}).Some? <==> forall d :: Reachable(s, root, d) ==> Passes(s, d) && !OnCycle(s, d)
    ensures Family(s, root, {}).Some? ==> forall d :: d in Family(s, root, {}).value <==> Reachable(s, root, d)
  {
    if Family(s, root, {}).Some? {
      forall d | Reachable(s, root, d) ensures Passes(s, d) && !OnCycle(s, d) && d in Family(s, root, {}).value {
        var n: nat :| Walk(s, root, d, n);
        FamilySound(s, root, {}, d, n);
        FamilyAcyclic(s, root, {}, d, n);
      }
      forall d | d in Family(s, root, {}).value ensures Reachable(s, root, d) {
        MemberReachable(s, root, {}, d);
      }
    }
    if forall d :: Reachable(s, root, d) ==> Passes(s, d) && !OnCycle(s, d) {
      FamilyComplete(s, root, {});
    }
  }

  // ---- Order of the members -----------------------------------------------------------------

  /** Every child of a member comes after it. */
  ghost predicate ChildrenFollow(s: Snapshot, members: seq<Member>) {
    forall i, c :: 0 <= i < |members| && Edge(s, members[i], c) ==> c in members[i + 1..]
  }

  lemma FollowConcat(s: Snapshot, a: seq<Member>, b: seq<Member>)
    requires ChildrenFollow(s, a) && ChildrenFollow(s, b)
    ensures ChildrenFollow(s, a + b)
  {
    forall i, c | 0 <= i < |a + b| && Edge(s, (a + b)[i], c) ensures c in (a + b)[i + 1..] {
      if i < |a| {
        assert Edge(s, a[i], c);
        assert (a + b)[i + 1..] == a[i + 1..] + b;
      } else {
        assert Edge(s, b[i - |a|], c);
        assert (a + b)[i + 1..] == b[i - |a| + 1..];
      }
    }
  }

  lemma {:induction false} FamilyFollows(s: Snapshot, chat: Member, visiting: set<Id>)
    requires UniqueIds(Rows(s.chats)) && chat in s.chats && Family(s, chat, visiting).Some?
    ensures ChildrenFollow(s, Family(s, chat, visiting).value)
    decreases Ids(s.chats) - visiting, 0, 0
  {
    var list, path := Children(s, chat.row.id), visiting + {chat.row.id};
    assert chat.row.id in Ids(s.chats);
    FamiliesFollow(s, list, path);
    var below, members := Families(s, list, path).value, Family(s, chat, visiting).value;
    forall i, c | 0 <= i < |members| && Edge(s, members[i], c) ensures c in members[i + 1..] {
      if i == 0 {
        ChildFamily(s, chat, visiting, c);
        assert c in Family(s, c, path).value;
      } else {
        assert Edge(s, below[i - 1], c);
        assert members[i + 1..] == below[i..];
      }
    }
  }

  lemma {:induction false} FamiliesFollow(s: Snapshot, list: seq<Member>, visiting: set<Id>)
    requires UniqueIds(Rows(s.chats)) && forall c :: c in list ==> c in s.chats
    requires Families(s, list, visiting).Some?
    ensures ChildrenFollow(s, Families(s, list, visiting).value)
    decreases Ids(s.chats) - visiting, 1, |list|
  {
    if list != [] {
      FamiliesFollow(s, list[..|list| - 1], visiting);
      FamilyFollows(s, list[|list| - 1], visiting);
      FollowConcat(s, Families(s, list[..|list| - 1], visiting).value, Family(s, list[|list| - 1], visiting).value);
    }
  }

  /** Where a list has every child after its parent, the whole fork subtree of a member is in the list
      from that member on. */
  lemma SubtreeFollows(s: Snapshot, members: seq<Member>, i: nat, y: Id)
    requires UniqueIds(Rows(s.chats)) && ChildrenFollow(s, members)
    requires i < |members| && members[i].row.id != NoId
    requires forall m :: m in members ==> m in s.chats && m.row.id != NoId
    requires Reaches(ParentOf(Rows(s.chats)), y, members[i].row.id)
    ensures exists j :: i <= j < |members| && members[j].row.id == y
  {
    var up := ParentOf(Rows(s.chats));
    var below := set j | i <= j < |members| :: members[j].row.id;
    forall z {:trigger up[z]} | z in up && up[z] in below ensures z in below {
      var j :| i <= j < |members| && members[j].row.id == up[z];
      var row := EdgeHasRow(Rows(s.chats), z);
      var k :| 0 <= k < |s.chats| && Rows(s.chats)[k] == row;
      assert Edge(s, members[j], s.chats[k]);
      assert s.chats[k] in members[j + 1..];
      var l :| 0 <= l < |members[j + 1..]| && members[j + 1..][l] == s.chats[k];
      assert members[j + 1 + l].row.id == z;
    }
    var n: nat :| Steps(up, y, members[i].row.id, n);
    ClosedDownContains(up, below, y, members[i].row.id, n);
  }

  lemma {:induction false} DelegationChildrenConcat(chats: seq<Member>, a: seq<Delegation>, b: seq<Delegation>)
    ensures DelegationChildren(chats, a + b) == DelegationChildren(chats, a) + DelegationChildren(chats, b)
  {
    if b == [] {
      assert a + b == a;
    } else {
      DelegationChildrenConcat(chats, a, b[..|b| - 1]);
      assert (a + b)[..|a + b| - 1] == a + b[..|b| - 1];
    }
  }

  /** One more delegation row of the collector's second loop. */
  lemma DelegatesStep(s: Snapshot, rows: seq<Delegation>, i: nat, visiting: set<Id>, child: Option<Member>)
    requires i < |rows|
    requires child == if rows[i].childChatId == NoId then None else FindMember(s.chats, rows[i].childChatId)
    ensures child.None? ==> DelegationChildren(s.chats, rows[..i + 1]) == DelegationChildren(s.chats, rows[..i])
    ensures (child.Some? && Families(s, DelegationChildren(s.chats, rows[..i]), visiting).Some?
             && Family(s, child.value, visiting).Some?) ==>
      Families(s, DelegationChildren(s.chats, rows[..i + 1]), visiting)
        == Some(Families(s, DelegationChildren(s.chats, rows[..i]), visiting).value
            + Family(s, child.value, visiting).value)
    ensures child.Some? && Family(s, child.value, visiting).None? ==>
      Families(s, DelegationChildren(s.chats, rows), visiting).None?
  {
    var before, after := DelegationChildren(s.chats, rows[..i]), DelegationChildren(s.chats, rows[i + 1..]);
    assert rows[..i + 1][..i] == rows[..i];
    if child.Some? {
      assert DelegationChildren(s.chats, rows[..i + 1]) == before + [child.value];
      assert (before + [child.value])[..|before|] == before;
      assert rows == rows[..i + 1] + rows[i + 1..];
      DelegationChildrenConcat(s.chats, rows[..i + 1], rows[i + 1..]);
      FamiliesConcat(s, before + [child.value], after, visiting);
    }
  }

  lemma FamilyParts(s: Snapshot, chat: Member, visiting: set<Id>)
    requires chat in s.chats && chat.row.id != NoId && chat.row.id !in visiting && s.gate(chat)
    ensures var path := visiting + {chat.row.id};
      var forks := Families(s, Forks(s.chats, chat.row.id), path);
      Family(s, chat, visiting) == if forks.None? || !RowsSettled(s, chat.row.id) then None
        else Join(Some([chat] + forks.value),
                  Families(s, DelegationChildren(s.chats, s.delegationsOf(chat.row.id).value), path))
  {
    var path := visiting + {chat.row.id};
    if RowsSettled(s, chat.row.id) {
      var delegates := DelegationChildren(s.chats, s.delegationsOf(chat.row.id).value);
      FamiliesConcat(s, Forks(s.chats, chat.row.id), delegates, path);
      JoinAssociates(Some([chat]), Families(s, Forks(s.chats, chat.row.id), path), Families(s, delegates, path));
    }
  }

  /** One more fork of the collector's first loop. */
  lemma ForksStep(s: Snapshot, forks: seq<Member>, i: nat, visiting: set<Id>)
    requires i < |forks| && forall c :: c in forks ==> c in s.chats
    ensures Families(s, forks[..i + 1], visiting)
      == Join(Families(s, forks[..i], visiting), Family(s, forks[i], visiting))
    ensures Family(s, forks[i], visiting).None? ==> Families(s, forks, visiting).None?
  {
    assert forks[..i + 1][..i] == forks[..i];
    assert forks == forks[..i + 1] + forks[i + 1..];
    FamiliesConcat(s, forks[..i + 1], forks[i + 1..], visiting);
  }

  // ---- The collector ------------------------------------------------------------------------

  class FamilyCollector {
    const s: Snapshot
    var visiting: set<Id>

    constructor (s: Snapshot)
      ensures this.s == s && visiting == {}
    {
      this.s := s;
      visiting := {};
    }

    method Collect(chat: Member) returns (members: Option<seq<Member>>)
      requires chat in s.chats
      modifies this
      ensures visiting == old(visiting)
      ensures members == Family(s, chat, visiting)
      decreases Ids(s.chats) - visiting, 0
    {
      var id := chat.row.id;
      if id == NoId || id in visiting || !s.gate(chat) {
        return None;
      }
      ghost var before := visiting;
      assert id in Ids(s.chats);
      visiting := visiting + {id};
      var forks := CollectForks(id);
      FamilyParts(s, chat, before);
      if forks.None? {
        visiting := visiting - {id};
        assert visiting == before;
        return None;
      }
      var rows := s.delegationsOf(id);
      if rows.None? {
        visiting := visiting - {id};
        assert visiting == before;
        return None;
      }
      var delegates := CollectDelegates(rows.value);
      visiting := visiting - {id};
      assert visiting == before;
      if delegates.None? {
        return None;
      }
      return Some([chat] + forks.value + delegates.value);
    }

    method CollectForks(id: Id) returns (members: Option<seq<Member>>)
      modifies this
      ensures visiting == old(visiting)
      ensures members == Families(s, Forks(s.chats, id), visiting)
      decreases Ids(s.chats) - visiting, 1
    {
      var forks, all := Forks(s.chats, id), [];
      for i := 0 to |forks|
        invariant visiting == old(visiting)
        invariant Families(s, forks[..i], visiting) == Some(all)
      {
        var sub := Collect(forks[i]);
        ForksStep(s, forks, i, visiting);
        if sub.None? {
          return None;
        }
        all := all + sub.value;
      }
      assert forks[..|forks|] == forks;
      return Some(all);
    }

    method CollectDelegates(rows: seq<Delegation>) returns (members: Option<seq<Member>>)
      modifies this
      ensures visiting == old(visiting)
      ensures members == if AllSettled(rows) then Families(s, DelegationChildren(s.chats, rows), visiting) else None
      decreases Ids(s.chats) - visiting, 1
    {
      var all := [];
      for i := 0 to |rows|
        invariant visiting == old(visiting)
        invariant AllSettled(rows[..i])
        invariant Families(s, DelegationChildren(s.chats, rows[..i]), visiting) == Some(all)
      {
        var row := rows[i];
        if !row.terminal || row.slotOccupied {
          assert rows[i] in rows && !AllSettled(rows);
          return None;
        }
        var child := if row.childChatId == NoId then None else FindMember(s.chats, row.childChatId);
        DelegatesStep(s, rows, i, visiting, child);
        if child.Some? {
          var sub := Collect(child.value);
          if sub.None? {
            return None;
          }
          all := all + sub.value;
        }
      }
      assert rows[..|rows|] == rows;
      return Some(all);
    }
  }
}
