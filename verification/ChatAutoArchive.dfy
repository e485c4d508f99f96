/** The automatic sweep of idle chats: a fallible store whose archive write cascades over the fork
    subtree, the children-first family writer, and what one whole sweep may hide. */
module ChatAutoArchive {
  import opened Wrappers
  import opened Sets
  import opened ParentGraph
  import opened ChatTree
  import opened ChatArchivePolicy

  // ---- The chat store -----------------------------------------------------------------------

  ghost function ArchivedChats(chats: seq<Member>): set<Id> {
    set c | c in chats && c.row.id != NoId && c.AlreadyArchived() :: c.row.id
  }

  /** A reading of the clock, as text and in milliseconds. */
  datatype Time = Time(iso: string, ms: int)

  /** An archive write of one chat, with the time it took from the clock. */
  datatype Write = Write(id: Id, time: Time)

  function IdsOf(writes: seq<Write>): (ids: seq<Id>)
    ensures |ids| == |writes|
  {
    seq(|writes|, i requires 0 <= i < |writes| => writes[i].id)
  }

  function Stamped(chat: Member, time: Time): Member {
    chat.(row := chat.row.(archivedAt := time.iso), updatedMs := Some(time.ms))
  }

  /** An archive write stamps the chat and every fork descendant. */
  ghost function Cascade(chats: seq<Member>, id: Id, time: Time): (stamped: seq<Member>)
    ensures |stamped| == |chats|
  {
    var up := ParentOf(Rows(chats));
    seq(|chats|, i requires 0 <= i < |chats| =>
      if Reaches(up, chats[i].row.id, id) then Stamped(chats[i], time) else chats[i])
  }

  lemma {:induction false} SameShapeSameParents(a: seq<Chat>, b: seq<Chat>)
    requires |a| == |b| && forall i :: 0 <= i < |a| ==> a[i].id == b[i].id && a[i].parentId == b[i].parentId
    ensures ParentOf(a) == ParentOf(b)
  {
    if a != [] {
      SameShapeSameParents(a[..|a| - 1], b[..|b| - 1]);
    }
  }

  /** A cascade changes no id and no parent, and archives exactly the fork subtree. */
  lemma CascadeArchives(chats: seq<Member>, id: Id, time: Time)
    requires UniqueIds(Rows(chats)) && time.iso != "" && id != NoId
    ensures var after := Cascade(chats, id, time);
      && UniqueIds(Rows(after)) && ParentOf(Rows(after)) == ParentOf(Rows(chats)) && Ids(after) == Ids(chats)
      && forall y :: y in ArchivedChats(after) <==>
        y in ArchivedChats(chats) || (y in Ids(chats) && y != NoId && Reaches(ParentOf(Rows(chats)), y, id))
  {
    var after, up := Cascade(chats, id, time), ParentOf(Rows(chats));
    assert forall i :: 0 <= i < |chats| ==>
      Rows(after)[i].id == Rows(chats)[i].id && Rows(after)[i].parentId == Rows(chats)[i].parentId;
    SameShapeSameParents(Rows(chats), Rows(after));
    forall y ensures y in Ids(after) <==> y in Ids(chats) {
      if c :| c in chats && c.row.id == y {
        var i :| 0 <= i < |chats| && chats[i] == c;
        assert after[i] in after && after[i].row.id == y;
      }
      if c :| c in after && c.row.id == y {
        var i :| 0 <= i < |after| && after[i] == c;
        assert chats[i] in chats && chats[i].row.id == y;
      }
    }
    forall y ensures y in ArchivedChats(after)
      <==> y in ArchivedChats(chats) || (y in Ids(chats) && y != NoId && Reaches(up, y, id))
    {
      if c :| c in chats && c.row.id == y != NoId && (c.AlreadyArchived() || Reaches(up, y, id)) {
        var i :| 0 <= i < |chats| && chats[i] == c;
        assert after[i] in after && after[i].row.id == y && after[i].AlreadyArchived();
      }
      if c :| c in after && c.row.id == y != NoId && c.AlreadyArchived() {
        var i :| 0 <= i < |after| && after[i] == c;
        assert chats[i] in chats && chats[i].row.id == y;
      }
    }
  }

  // ---- A list of writes ---------------------------------------------------------------------

  /** A chat takes the time of the last write at or above it in the fork forest. */
  ghost function RowAfter(up: map<Id, Id>, chat: Member, writes: seq<Write>): Member
    decreases |writes|
  {
    if writes == [] then chat
    else if Reaches(up, chat.row.id, writes[|writes| - 1].id) then Stamped(chat, writes[|writes| - 1].time)
    else RowAfter(up, chat, writes[..|writes| - 1])
  }

  ghost function AfterWrites(chats: seq<Member>, writes: seq<Write>): (after: seq<Member>)
    ensures |after| == |chats|
  {
    seq(|chats|, i requires 0 <= i < |chats| => RowAfter(ParentOf(Rows(chats)), chats[i], writes))
  }

  /** Write `k` is the last one at or above the chat. */
  ghost predicate LastAbove(up: map<Id, Id>, chat: Member, writes: seq<Write>, k: nat) {
    && k < |writes| && Reaches(up, chat.row.id, writes[k].id)
    && forall j :: k < j < |writes| ==> !Reaches(up, chat.row.id, writes[j].id)
  }

  ghost predicate NoneAbove(up: map<Id, Id>, chat: Member, writes: seq<Write>) {
    forall k :: 0 <= k < |writes| ==> !Reaches(up, chat.row.id, writes[k].id)
  }

  /** The whole frame of a list of writes: a row no write is at or above stays as it was, any other row
      differs from the old one by the time of the last such write, `k`. */
  lemma {:induction false} RowAfterExact(up: map<Id, Id>, chat: Member, writes: seq<Write>) returns (k: nat)
    ensures NoneAbove(up, chat, writes) ==> RowAfter(up, chat, writes) == chat
    ensures !NoneAbove(up, chat, writes) ==>
      LastAbove(up, chat, writes, k) && RowAfter(up, chat, writes) == Stamped(chat, writes[k].time)
    decreases |writes|
  {
    k := 0;
    if writes != [] {
      var last, before := |writes| - 1, writes[..|writes| - 1];
      if Reaches(up, chat.row.id, writes[last].id) {
        k := last;
      } else {
        k := RowAfterExact(up, chat, before);
        assert forall j :: 0 <= j < last ==> before[j] == writes[j];
        assert NoneAbove(up, chat, before) ==> NoneAbove(up, chat, writes);
      }
    }
  }

  lemma AfterKeepsParents(chats: seq<Member>, writes: seq<Write>)
    ensures ParentOf(Rows(AfterWrites(chats, writes))) == ParentOf(Rows(chats))
  {
    var after := AfterWrites(chats, writes);
    forall i | 0 <= i < |chats|
      ensures Rows(after)[i].id == Rows(chats)[i].id && Rows(after)[i].parentId == Rows(chats)[i].parentId
    {
      var k := RowAfterExact(ParentOf(Rows(chats)), chats[i], writes);
    }
    SameShapeSameParents(Rows(after), Rows(chats));
  }

  /** One more store write is one more write of the list. */
  lemma AfterOneMore(chats: seq<Member>, writes: seq<Write>, id: Id, time: Time)
    ensures Cascade(AfterWrites(chats, writes), id, time) == AfterWrites(chats, writes + [Write(id, time)])
  {
    var up, after, all := ParentOf(Rows(chats)), AfterWrites(chats, writes), writes + [Write(id, time)];
    AfterKeepsParents(chats, writes);
    assert all[..|all| - 1] == writes;
    forall i | 0 <= i < |chats| ensures Cascade(after, id, time)[i] == AfterWrites(chats, all)[i] {
      var k := RowAfterExact(up, chats[i], writes);
    }
  }

  lemma {:induction false} AfterWritesConcat(chats: seq<Member>, a: seq<Write>, b: seq<Write>)
    ensures AfterWrites(chats, a + b) == AfterWrites(AfterWrites(chats, a), b)
    decreases |b|
  {
    if b == [] {
      assert a + b == a;
      assert AfterWrites(AfterWrites(chats, a), b) == AfterWrites(chats, a);
    } else {
      var first, last := b[..|b| - 1], b[|b| - 1];
      assert a + b == (a + first) + [last] && b == first + [last];
      AfterWritesConcat(chats, a, first);
      AfterOneMore(chats, a + first, last.id, last.time);
      AfterOneMore(AfterWrites(chats, a), first, last.id, last.time);
    }
  }

  // ---- Archive times ------------------------------------------------------------------------

  /** Chats that had an archive time still have it. */
  ghost predicate TimesKept(was: seq<Member>, now: seq<Member>) {
    |was| == |now| && forall i :: 0 <= i < |was| && was[i].row.archivedAt != "" ==>
      now[i].row.archivedAt == was[i].row.archivedAt
  }

  /** A list of writes keeps the archive times if and only if the last write at or above each chat that has
      one carries the same time. */
  lemma TimesKeptExactly(chats: seq<Member>, writes: seq<Write>)
    ensures var up := ParentOf(Rows(chats));
      TimesKept(chats, AfterWrites(chats, writes))
      <==> forall c, k: nat :: c in chats && c.row.archivedAt != "" && LastAbove(up, c, writes, k) ==>
        writes[k].time.iso == c.row.archivedAt
  {
    var up, after := ParentOf(Rows(chats)), AfterWrites(chats, writes);
    forall i | 0 <= i < |chats| ensures
      after[i] == chats[i]
        || exists k: nat :: LastAbove(up, chats[i], writes, k) && after[i] == Stamped(chats[i], writes[k].time)
    {
      var k := RowAfterExact(up, chats[i], writes);
    }
    if TimesKept(chats, after) {
      forall c, k: nat | c in chats && c.row.archivedAt != "" && LastAbove(up, c, writes, k)
        ensures writes[k].time.iso == c.row.archivedAt
      {
        var i :| 0 <= i < |chats| && chats[i] == c;
        LastIsTime(up, c, writes, k);
      }
    }
  }

  /** The times survive every one of the writes if and only if no write has a chat with another archive time at or
      below it. */
  lemma TimesKeptThroughout(chats: seq<Member>, writes: seq<Write>)
    ensures var up := ParentOf(Rows(chats));
      (forall n :: 0 <= n <= |writes| ==> TimesKept(chats, AfterWrites(chats, writes[..n])))
      <==> forall c, k :: c in chats && 0 <= k < |writes| && Reaches(up, c.row.id, writes[k].id) ==>
        c.row.archivedAt in {"", writes[k].time.iso}
  {
    var up := ParentOf(Rows(chats));
    forall c, k | c in chats && 0 <= k < |writes| && Reaches(up, c.row.id, writes[k].id)
      && c.row.archivedAt !in {"", writes[k].time.iso}
      ensures !TimesKept(chats, AfterWrites(chats, writes[..k + 1]))
    {
      TimesKeptExactly(chats, writes[..k + 1]);
      assert LastAbove(up, c, writes[..k + 1], k);
    }
    if forall c, k :: c in chats && 0 <= k < |writes| && Reaches(up, c.row.id, writes[k].id) ==>
      c.row.archivedAt in {"", writes[k].time.iso} {
      forall n | 0 <= n <= |writes| ensures TimesKept(chats, AfterWrites(chats, writes[..n])) {
        TimesKeptExactly(chats, writes[..n]);
      }
    }
  }

  lemma LastIsTime(up: map<Id, Id>, chat: Member, writes: seq<Write>, k: nat)
    requires LastAbove(up, chat, writes, k)
    ensures RowAfter(up, chat, writes) == Stamped(chat, writes[k].time)
  {
    var last := RowAfterExact(up, chat, writes);
    assert !NoneAbove(up, chat, writes);
  }

  // ---- The store ----------------------------------------------------------------------------

  class ChatStore {
    var chats: seq<Member>

    /** Nondeterministic failure stands for every way a write can throw. A missing chat is not an error. */
    method UpdateChat(id: Id) returns (ok: bool, ghost time: Time)
      requires UniqueIds(Rows(chats)) && id != NoId
      modifies this
      ensures time.iso != ""
      ensures !ok ==> chats == old(chats)
      ensures ok && id !in Ids(old(chats)) ==> chats == old(chats)
      ensures ok && id in Ids(old(chats)) ==> chats == Cascade(old(chats), id, time)
    {
      var now := ReadClock();
      time := now;
      if * {
        return false, time;
      }
      if FindMember(chats, id).None? {
        return true, time;
      }
      var ids := CollectForkSubtreeIds(Rows(chats), id);
      chats := StampSubtree(chats, id, ids, now);
      return true, time;
    }
  }

  /** Every write reads the clock anew. */
  method ReadClock() returns (time: Time)
    ensures time.iso != ""
  {
    var iso: string, ms: int := *, *;
    time := Time(if iso == "" then "0" else iso, ms);
  }

  method StampSubtree(chats: seq<Member>, ghost id: Id, ids: set<Id>, time: Time) returns (stamped: seq<Member>)
    requires forall y :: y in ids <==> Reaches(ParentOf(Rows(chats)), y, id)
    ensures stamped == Cascade(chats, id, time)
  {
    stamped := [];
    for i := 0 to |chats|
      invariant stamped == Cascade(chats, id, time)[..i]
    {
      stamped := stamped + [if chats[i].row.id in ids then Stamped(chats[i], time) else chats[i]];
    }
  }

  // ---- The family writer --------------------------------------------------------------------

  /** The store is the snapshot after the given writes, row by row. */
  ghost predicate Written(s: Snapshot, chats: seq<Member>, writes: seq<Write>) {
    chats == AfterWrites(s.chats, writes) && forall k :: 0 <= k < |writes| ==> writes[k].time.iso != ""
  }

  /** The chats archived beyond the snapshot's are exactly `done`. */
  ghost predicate Archives(s: Snapshot, chats: seq<Member>, done: set<Id>) {
    && UniqueIds(Rows(chats)) && ParentOf(Rows(chats)) == ParentOf(Rows(s.chats)) && Ids(chats) == Ids(s.chats)
    && ArchivedChats(chats) == ArchivedChats(s.chats) + done
  }

  /** The store differs from the snapshot by the given writes, and the chats they archive are exactly those
      written themselves. */
  ghost predicate OnlyWritten(s: Snapshot, chats: seq<Member>, writes: seq<Write>) {
    Written(s, chats, writes) && Archives(s, chats, Elements(IdsOf(writes)))
  }

  /** Every fork descendant of the given chats is archived. */
  ghost predicate SubtreesHidden(s: Snapshot, chats: seq<Member>, ids: set<Id>) {
    forall id, y | id in ids && y in Ids(s.chats) && y != NoId && Reaches(ParentOf(Rows(s.chats)), y, id) ::
      y in ArchivedChats(chats)
  }

  /** A list in which children come after their parents. */
  ghost predicate IsFamily(s: Snapshot, members: seq<Member>) {
    ChildrenFollow(s, members) && forall m :: m in members ==> m in s.chats && m.row.id != NoId
  }

  lemma IdsOfConcat(a: seq<Write>, b: seq<Write>)
    ensures IdsOf(a + b) == IdsOf(a) + IdsOf(b) && Elements(IdsOf(a + b)) == Elements(IdsOf(a)) + Elements(IdsOf(b))
  {
    assert IdsOf(a + b) == IdsOf(a) + IdsOf(b);
  }

  lemma OneMoreId(writes: seq<Write>, id: Id, time: Time)
    ensures IdsOf(writes + [Write(id, time)]) == IdsOf(writes) + [id]
    ensures Elements(IdsOf(writes + [Write(id, time)])) == Elements(IdsOf(writes)) + {id}
  {
    IdsOfConcat(writes, [Write(id, time)]);
    assert IdsOf([Write(id, time)]) == [id] && Elements([id]) == {id};
  }

  /** Writing a member whose later members are all archived adds that member alone. */
  lemma WriteAddsOne(s: Snapshot, members: seq<Member>, i: nat, chats: seq<Member>, done: set<Id>, time: Time)
    requires UniqueIds(Rows(s.chats)) && IsFamily(s, members) && i < |members| && time.iso != ""
    requires Archives(s, chats, done)
    requires forall k :: i < k < |members| ==> members[k].row.id in ArchivedChats(chats)
    ensures members[i].row.id in Ids(chats)
    ensures Archives(s, Cascade(chats, members[i].row.id, time), done + {members[i].row.id})
    ensures SubtreesHidden(s, Cascade(chats, members[i].row.id, time), {members[i].row.id})
    ensures members[i].row.id in ArchivedChats(Cascade(chats, members[i].row.id, time))
  {
    var id := members[i].row.id;
    CascadeArchives(chats, id, time);
    assert members[i] in members && id in Ids(s.chats);
    ReachesSelf(ParentOf(Rows(s.chats)), id);
    forall y | Reaches(ParentOf(Rows(s.chats)), y, id) ensures y == id || y in ArchivedChats(chats) {
      SubtreeFollows(s, members, i, y);
    }
  }

  lemma OneMoreWrite(s: Snapshot, chats: seq<Member>, writes: seq<Write>, id: Id, time: Time)
    requires Written(s, chats, writes) && time.iso != ""
    ensures Written(s, Cascade(chats, id, time), writes + [Write(id, time)])
  {
    AfterOneMore(s.chats, writes, id, time);
  }

  /** What a family write has achieved so far on top of the `earlier` writes: one write for each of the chats
      in `archived`. */
  ghost predicate WrittenSoFar(s: Snapshot, members: seq<Member>, chats: seq<Member>, earlier: seq<Write>,
                               writes: seq<Write>, archived: seq<Id>)
  {
    && OnlyWritten(s, chats, earlier + writes) && IdsOf(writes) == archived
    && NoRepeats(archived) && Elements(archived) !! Elements(IdsOf(earlier))
    && (forall id :: id in archived ==> exists m :: m in members && m.row.id == id && !m.AlreadyArchived())
    && SubtreesHidden(s, chats, Elements(archived))
  }

  /** The members from `i` on are archived. */
  ghost predicate WrittenFrom(s: Snapshot, members: seq<Member>, i: nat, chats: seq<Member>, earlier: seq<Write>,
                              writes: seq<Write>, archived: seq<Id>)
  {
    && WrittenSoFar(s, members, chats, earlier, writes, archived)
    && forall k :: i <= k < |members| ==> members[k].row.id in ArchivedChats(chats)
  }

  lemma SkipStep(s: Snapshot, members: seq<Member>, i: nat, chats: seq<Member>, earlier: seq<Write>, writes: seq<Write>,
                 archived: seq<Id>)
    requires IsFamily(s, members) && i < |members|
    requires WrittenFrom(s, members, i + 1, chats, earlier, writes, archived)
    requires members[i].row.id in Elements(IdsOf(earlier)) + Elements(archived) || members[i].AlreadyArchived()
    ensures WrittenFrom(s, members, i, chats, earlier, writes, archived)
  {
    IdsOfConcat(earlier, writes);
    assert members[i] in members;
  }

  lemma WriteStep(s: Snapshot, members: seq<Member>, i: nat, chats: seq<Member>, earlier: seq<Write>,
                  writes: seq<Write>, archived: seq<Id>, time: Time)
    requires UniqueIds(Rows(s.chats)) && IsFamily(s, members) && i < |members| && time.iso != ""
    requires WrittenFrom(s, members, i + 1, chats, earlier, writes, archived)
    requires members[i].row.id !in Elements(IdsOf(earlier)) + Elements(archived) && !members[i].AlreadyArchived()
    ensures var id := members[i].row.id;
      && id in Ids(chats)
      && WrittenFrom(s, members, i, Cascade(chats, id, time), earlier, writes + [Write(id, time)], archived + [id])
  {
    var id := members[i].row.id;
    WriteAddsOne(s, members, i, chats, Elements(IdsOf(earlier + writes)), time);
    OneMoreWrite(s, chats, earlier + writes, id, time);
    OneMoreId(earlier + writes, id, time);
    OneMoreId(writes, id, time);
    assert (earlier + writes) + [Write(id, time)] == earlier + (writes + [Write(id, time)]);
    IdsOfConcat(earlier, writes);
    assert members[i] in members;
    NoRepeatsSnoc(archived, id);
  }

  lemma NothingWritten(s: Snapshot, members: seq<Member>, chats: seq<Member>, earlier: seq<Write>)
    requires OnlyWritten(s, chats, earlier)
    ensures WrittenFrom(s, members, |members|, chats, earlier, [], [])
  {
    assert earlier + [] == earlier;
  }

  method WriteMember(ghost s: Snapshot, members: seq<Member>, i: nat, store: ChatStore, ghost earlier: seq<Write>,
                     ghost writes: seq<Write>, ghost archived: seq<Id>)
    returns (ok: bool, ghost time: Time)
    requires UniqueIds(Rows(s.chats)) && IsFamily(s, members) && i < |members|
    requires WrittenFrom(s, members, i + 1, store.chats, earlier, writes, archived)
    requires members[i].row.id !in Elements(IdsOf(earlier)) + Elements(archived) && !members[i].AlreadyArchived()
    modifies store
    ensures !ok ==> store.chats == old(store.chats)
    ensures ok ==>
      WrittenFrom(s, members, i, store.chats, earlier, writes + [Write(members[i].row.id, time)],
                  archived + [members[i].row.id])
  {
    assert members[i] in members && UniqueIds(Rows(store.chats));
    ghost var was := store.chats;
    ok, time := store.UpdateChat(members[i].row.id);
    WriteStep(s, members, i, was, earlier, writes, archived, time);
  }

  lemma DoneWith(before: set<Id>, archived: seq<Id>, id: Id)
    ensures before + Elements(archived) + {id} == before + Elements(archived + [id])
    ensures before + Elements([]) == before
  {
  }

  /** Writes a family children-first and stops at the first failure. Whatever fails, the chats hidden are
      exactly the ones written, each with its whole fork subtree already archived; the members from `reached`
      on are archived. */
  method ArchiveFamilyMembers(ghost s: Snapshot, members: seq<Member>, store: ChatStore, before: set<Id>,
                              ghost earlier: seq<Write>)
    returns (archived: seq<Id>, skipped: nat, done: set<Id>, ghost writes: seq<Write>, ghost reached: nat)
    requires UniqueIds(Rows(s.chats)) && IsFamily(s, members)
    requires OnlyWritten(s, store.chats, earlier) && before == Elements(IdsOf(earlier))
    modifies store
    ensures WrittenFrom(s, members, reached, store.chats, earlier, writes, archived)
    ensures done == before + Elements(archived)
    ensures skipped <= 1 && (skipped == 0 ==> reached == 0)
  {
    archived, skipped, done, writes, reached := [], 0, before, [], |members|;
    NothingWritten(s, members, store.chats, earlier);
    DoneWith(before, [], NoId);
    var i := |members|;
    while i > 0
      invariant 0 <= i <= |members| && reached == i
      invariant WrittenFrom(s, members, i, store.chats, earlier, writes, archived)
      invariant done == before + Elements(archived)
    {
      i := i - 1;
      var member := members[i];
      if member.row.id in done || member.AlreadyArchived() {
        SkipStep(s, members, i, store.chats, earlier, writes, archived);
      } else {
        var ok;
        ghost var time;
        ok, time := WriteMember(s, members, i, store, earlier, writes, archived);
        if !ok {
          skipped := 1;
          return;
        }
        DoneWith(before, archived, member.row.id);
        writes := writes + [Write(member.row.id, time)];
        done := done + {member.row.id};
        archived := archived + [member.row.id];
      }
      reached := i;
    }
  }

  lemma WrittenOrArchived(s: Snapshot, chats: seq<Member>, writes: seq<Write>, m: Member)
    requires UniqueIds(Rows(s.chats)) && m in s.chats && m.row.id != NoId
    requires OnlyWritten(s, chats, writes) && m.row.id in ArchivedChats(chats)
    ensures m.row.id in Elements(IdsOf(writes)) || m.AlreadyArchived()
  {
    if m.row.id !in Elements(IdsOf(writes)) {
      var c :| c in s.chats && c.row.id == m.row.id && c.AlreadyArchived();
      SameMember(s.chats, c, m);
    }
  }

  // ---- Archive times of a family ------------------------------------------------------------

  /** A chat the family write did not archive itself keeps out of `earlier` only if it was archived before. */
  lemma WholeFamilyWritten(s: Snapshot, members: seq<Member>, chats: seq<Member>, earlier: seq<Write>,
                           writes: seq<Write>, archived: seq<Id>, m: Member)
    requires UniqueIds(Rows(s.chats)) && IsFamily(s, members)
    requires WrittenFrom(s, members, 0, chats, earlier, writes, archived) && m in members
    ensures m.row.id in archived <==> m.row.id !in Elements(IdsOf(earlier)) && !m.AlreadyArchived()
  {
    IdsOfConcat(earlier, writes);
    WrittenOrArchived(s, chats, earlier + writes, m);
    if m.row.id in archived {
      assert m.row.id in Elements(archived);
      var n :| n in members && n.row.id == m.row.id && !n.AlreadyArchived();
      SameMember(s.chats, m, n);
    }
  }

  /** The clock never shows a time that is stored already. */
  ghost predicate FreshTimes(chats: seq<Member>, writes: seq<Write>) {
    forall c, k :: c in chats && 0 <= k < |writes| ==> writes[k].time.iso != c.row.archivedAt
  }

  /** Chats that have an archive time already, at or below a chat. */
  ghost predicate HasTimeBelow(chats: seq<Member>, id: Id) {
    exists c :: c in chats && c.row.archivedAt != "" && Reaches(ParentOf(Rows(chats)), c.row.id, id)
  }

  /** Under fresh times a list of writes keeps the archive times if and only if nothing written has a time
      at or below it. */
  lemma FreshTimesKept(chats: seq<Member>, writes: seq<Write>)
    requires FreshTimes(chats, writes)
    ensures TimesKept(chats, AfterWrites(chats, writes))
      <==> forall k :: 0 <= k < |writes| ==> !HasTimeBelow(chats, writes[k].id)
  {
    TimesKeptExactly(chats, writes);
    var up := ParentOf(Rows(chats));
    forall k | 0 <= k < |writes| && HasTimeBelow(chats, writes[k].id)
      ensures !TimesKept(chats, AfterWrites(chats, writes))
    {
      var c :| c in chats && c.row.archivedAt != "" && Reaches(up, c.row.id, writes[k].id);
      var last := RowAfterExact(up, c, writes);
      assert LastAbove(up, c, writes, last);
    }
  }

  /** A finished family write keeps the archive times the store had before it if and only if none of the members it has
      to write, those neither archived in the snapshot nor written earlier in the sweep, has a fork descendant with
      an archive time. */
  lemma FamilyKeepsTimes(s: Snapshot, members: seq<Member>, chats: seq<Member>, earlier: seq<Write>, writes: seq<Write>,
                         archived: seq<Id>)
    requires UniqueIds(Rows(s.chats)) && IsFamily(s, members)
    requires WrittenFrom(s, members, 0, chats, earlier, writes, archived)
    requires FreshTimes(AfterWrites(s.chats, earlier), writes)
    ensures var was := AfterWrites(s.chats, earlier);
      TimesKept(was, chats)
      <==> forall m :: m in members && m.row.id !in Elements(IdsOf(earlier)) && !m.AlreadyArchived() ==>
        !HasTimeBelow(was, m.row.id)
  {
    var was := AfterWrites(s.chats, earlier);
    AfterWritesConcat(s.chats, earlier, writes);
    FreshTimesKept(was, writes);
    forall k | 0 <= k < |writes|
      ensures exists m ::
        m in members && m.row.id == writes[k].id && m.row.id !in Elements(IdsOf(earlier)) && !m.AlreadyArchived()
    {
      var m := WrittenMember(s, members, chats, earlier, writes, archived, k);
    }
    forall m | m in members && m.row.id !in Elements(IdsOf(earlier)) && !m.AlreadyArchived()
      ensures exists k :: 0 <= k < |writes| && writes[k].id == m.row.id
    {
      WholeFamilyWritten(s, members, chats, earlier, writes, archived, m);
      var k :| 0 <= k < |archived| && archived[k] == m.row.id;
      assert writes[k].id == IdsOf(writes)[k];
    }
  }

  lemma WrittenMember(s: Snapshot, members: seq<Member>, chats: seq<Member>, earlier: seq<Write>, writes: seq<Write>,
                      archived: seq<Id>, k: nat)
    returns (m: Member)
    requires WrittenSoFar(s, members, chats, earlier, writes, archived) && k < |writes|
    ensures m in members && m.row.id == writes[k].id && m.row.id !in Elements(IdsOf(earlier)) && !m.AlreadyArchived()
  {
    assert IdsOf(writes)[k] == writes[k].id && archived[k] in archived;
    m :| m in members && m.row.id == archived[k] && !m.AlreadyArchived();
    assert archived[k] in Elements(archived);
  }

  const ROOT := Member(Chat(Named("root"), NoId, ""), false, false, Some(0))
  const FORK := Member(Chat(Named("fork"), Named("root"), "2026-01-01"), false, false, Some(0))
  const ARCHIVED_FORK := Snapshot([ROOT, FORK], (_: Member) => true, (_: Id) => Some([]))

  lemma ForksOfTwo(a: Member, b: Member, id: Id)
    ensures Forks([a, b], id) == (if a.row.parentId == id then [a] else []) + if b.row.parentId == id then [b] else []
  {
    assert [a, b][..1] == [a] && [a][..0] == [];
    assert Forks([a], id) == if a.row.parentId == id then [a] else [];
  }

  lemma LeafFamily(s: Snapshot, chat: Member, visiting: set<Id>)
    requires chat in s.chats && Passes(s, chat) && chat.row.id !in visiting && Children(s, chat.row.id) == []
    ensures Family(s, chat, visiting) == Some([chat])
  {
    assert [chat] + [] == [chat];
  }

  lemma PairFamily(s: Snapshot, chat: Member, child: Member, visiting: set<Id>)
    requires chat in s.chats && child in s.chats && Passes(s, chat) && chat.row.id !in visiting
      && Children(s, chat.row.id) == [child]
    requires Family(s, child, visiting + {chat.row.id}) == Some([child])
    ensures Family(s, chat, visiting) == Some([chat, child])
  {
    var below := visiting + {chat.row.id};
    assert [child][..0] == [] && Families(s, [], below) == Some([]);
    assert [] + [child] == [child] && Families(s, [child], below) == Some([child]);
    assert [chat] + [child] == [chat, child];
  }

  lemma ArchivedForkChildren()
    ensures Children(ARCHIVED_FORK, ROOT.row.id) == [FORK] && Children(ARCHIVED_FORK, FORK.row.id) == []
    ensures Passes(ARCHIVED_FORK, ROOT) && Passes(ARCHIVED_FORK, FORK)
  {
    ForksOfTwo(ROOT, FORK, ROOT.row.id);
    ForksOfTwo(ROOT, FORK, FORK.row.id);
  }

  lemma ArchivedForkFamily()
    ensures Family(ARCHIVED_FORK, ROOT, {}) == Some([ROOT, FORK])
  {
    ArchivedForkChildren();
    LeafFamily(ARCHIVED_FORK, FORK, {} + {ROOT.row.id});
    PairFamily(ARCHIVED_FORK, ROOT, FORK, {});
  }

  lemma ArchivedForkBelow()
    ensures UniqueIds(Rows(ARCHIVED_FORK.chats)) && HasTimeBelow(ARCHIVED_FORK.chats, ROOT.row.id)
  {
    var rows := Rows(ARCHIVED_FORK.chats);
    assert rows == [ROOT.row, FORK.row];
    RowHasEdge(rows, FORK.row);
    ReachesSelf(ParentOf(rows), ROOT.row.id);
    ReachesUnfold(ParentOf(rows), FORK.row.id, ROOT.row.id);
    assert FORK in ARCHIVED_FORK.chats;
  }

  /** An idle chat with an archived fork: the collector takes both, and every finished write of the family loses
      the archive time of the fork. */
  lemma ArchivedForkLosesTime(chats: seq<Member>, writes: seq<Write>, archived: seq<Id>)
    requires WrittenFrom(ARCHIVED_FORK, [ROOT, FORK], 0, chats, [], writes, archived)
    requires FreshTimes(ARCHIVED_FORK.chats, writes)
    ensures Family(ARCHIVED_FORK, ROOT, {}) == Some([ROOT, FORK])
    ensures |chats| == 2 && chats[1].row.archivedAt != FORK.row.archivedAt
  {
    ArchivedForkIsFamily();
    FamilyLosesTime(ARCHIVED_FORK, [ROOT, FORK], chats, writes, archived, ROOT);
  }

  lemma ArchivedForkIsFamily()
    ensures Family(ARCHIVED_FORK, ROOT, {}) == Some([ROOT, FORK]) && IsFamily(ARCHIVED_FORK, [ROOT, FORK])
    ensures UniqueIds(Rows(ARCHIVED_FORK.chats)) && HasTimeBelow(ARCHIVED_FORK.chats, ROOT.row.id)
  {
    ArchivedForkFamily();
    ArchivedForkBelow();
    CollectedIsFamily(ARCHIVED_FORK, ROOT);
  }

  /** One member that has to be written, with a time below it, costs that time. */
  lemma FamilyLosesTime(s: Snapshot, members: seq<Member>, chats: seq<Member>, writes: seq<Write>, archived: seq<Id>,
                        m: Member)
    requires UniqueIds(Rows(s.chats)) && IsFamily(s, members)
    requires WrittenFrom(s, members, 0, chats, [], writes, archived) && FreshTimes(s.chats, writes)
    requires m in members && !m.AlreadyArchived() && HasTimeBelow(s.chats, m.row.id)
    ensures !TimesKept(s.chats, chats) && |chats| == |s.chats|
  {
    NoWrites(s.chats);
    FamilyKeepsTimes(s, members, chats, [], writes, archived);
  }

  /** And such a write exists, at every time the clock may show: the fork is skipped, and the root is written. */
  lemma ArchivedForkWritten(time: Time)
    requires time.iso !in {"", FORK.row.archivedAt}
    ensures var chats, writes := Cascade(ARCHIVED_FORK.chats, ROOT.row.id, time), [Write(ROOT.row.id, time)];
      && WrittenFrom(ARCHIVED_FORK, [ROOT, FORK], 0, chats, [], writes, [ROOT.row.id])
      && FreshTimes(ARCHIVED_FORK.chats, writes)
  {
    ArchivedForkIsFamily();
    RootAloneWritten(ARCHIVED_FORK, ROOT, FORK, time);
  }

  lemma RootAloneWritten(s: Snapshot, root: Member, fork: Member, time: Time)
    requires UniqueIds(Rows(s.chats)) && IsFamily(s, [root, fork])
    requires !root.AlreadyArchived() && fork.AlreadyArchived() && time.iso != ""
    ensures var chats, writes := Cascade(s.chats, root.row.id, time), [Write(root.row.id, time)];
      WrittenFrom(s, [root, fork], 0, chats, [], writes, [root.row.id])
  {
    NothingWrittenYet(s);
    NothingWritten(s, [root, fork], s.chats, []);
    SkipStep(s, [root, fork], 1, s.chats, [], [], []);
    WriteStep(s, [root, fork], 0, s.chats, [], [], [], time);
    assert [] + [Write(root.row.id, time)] == [Write(root.row.id, time)] && [] + [root.row.id] == [root.row.id];
  }

  lemma NothingWrittenYet(s: Snapshot)
    requires UniqueIds(Rows(s.chats))
    ensures OnlyWritten(s, s.chats, [])
  {
    NoWrites(s.chats);
  }

  // ---- The sweep ----------------------------------------------------------------------------

  datatype Settings = Settings(enabled: bool, skipFavorites: bool, idleMs: int)

  datatype Reason = NothingIdle | Disabled | FavoritesLoadFailed | LoadFailed | SomeArchived

  datatype Summary = Summary(considered: nat, archived: seq<Id>, skipped: nat, reason: Reason)

  /** The parent's registry is unreadable, or holds an unsettled row for this chat. */
  ghost predicate ActiveParentDelegation(s: Snapshot, chat: Member) {
    && chat.row.parentId != NoId && chat.row.id != NoId
    && (s.delegationsOf(chat.row.parentId).None? || HasUnsettled(s.delegationsOf(chat.row.parentId).value, chat.row.id))
  }

  ghost predicate HasUnsettled(rows: seq<Delegation>, id: Id) {
    exists row :: row in rows && row.childChatId == id && !row.Settled()
  }

  method HasActiveParentDelegation(s: Snapshot, chat: Member) returns (active: bool)
    ensures active == ActiveParentDelegation(s, chat)
  {
    if chat.row.parentId == NoId || chat.row.id == NoId {
      return false;
    }
    var rows := s.delegationsOf(chat.row.parentId);
    if rows.None? {
      return true;
    }
    for i := 0 to |rows.value|
      invariant forall k :: 0 <= k < i && rows.value[k].childChatId == chat.row.id ==> rows.value[k].Settled()
    {
      var row := rows.value[i];
      if row.childChatId == chat.row.id && (!row.terminal || row.slotOccupied) {
        assert row in rows.value;
        return true;
      }
    }
    return false;
  }

  /** Delegation children are fork children of their controller. */
  ghost predicate DelegationsAreForks(s: Snapshot) {
    forall controller, c :: c in s.chats && c.row.id != NoId && Delegates(s, controller, c.row.id) ==>
      c.row.parentId == controller
  }

  /** What the sweep owes for every chat it hides. */
  ghost predicate MayHide(s: Snapshot, protected: set<Id>, id: Id) {
    exists m :: m in s.chats && m.row.id == id && !m.AlreadyArchived() && Passes(s, m) && id !in protected
      && (DelegationsAreForks(s) ==> !ActiveParentDelegation(s, m))
  }

  /** An idle live chat whose whole family may be archived. */
  ghost predicate Sweepable(s: Snapshot, protected: set<Id>, c: Member) {
    && c in s.chats && c.row.id != NoId && !c.AlreadyArchived() && s.gate(c) && !ActiveParentDelegation(s, c)
    && Family(s, c, {}).Some? && forall d :: d in Family(s, c, {}).value ==> d.row.id !in protected
  }

  /** What a sweep is for: the live members of the families of sweepable chats. */
  ghost predicate Target(s: Snapshot, protected: set<Id>, id: Id) {
    exists c, m :: Sweepable(s, protected, c) && m in Family(s, c, {}).value && m.row.id == id && !m.AlreadyArchived()
  }

  ghost predicate AllTargets(s: Snapshot, protected: set<Id>, ids: seq<Id>) {
    forall id :: id in ids ==> Target(s, protected, id)
  }

  ghost predicate ExactlyTargets(s: Snapshot, protected: set<Id>, ids: seq<Id>) {
    forall id :: id in ids <==> Target(s, protected, id)
  }

  ghost predicate FamilyHidden(s: Snapshot, c: Member, hidden: set<Id>)
    requires c in s.chats && Family(s, c, {}).Some?
  {
    forall m :: m in Family(s, c, {}).value ==> m.row.id in hidden || m.AlreadyArchived()
  }

  /** Everything below a hidden chat is hidden or archived. */
  ghost predicate ReachClosed(s: Snapshot, hidden: set<Id>) {
    forall m, d :: m in s.chats && m.row.id in hidden && Reachable(s, m, d) ==>
      d.row.id in hidden || d.AlreadyArchived()
  }

  /** The families of the sweepable chats before `n` are hidden. */
  ghost predicate SweptFamilies(s: Snapshot, protected: set<Id>, hidden: set<Id>, n: nat)
    requires n <= |s.chats|
  {
    ReachClosed(s, hidden) && forall k :: 0 <= k < n && Sweepable(s, protected, s.chats[k]) ==>
      FamilyHidden(s, s.chats[k], hidden)
  }

  lemma ReachableOn(s: Snapshot, a: Member, b: Member, c: Member)
    requires Reachable(s, a, b) && Reachable(s, b, c)
    ensures Reachable(s, a, c)
  {
    var n: nat :| Walk(s, a, b, n);
    WalkThrough(s, a, b, c, n);
  }

  lemma {:induction false} WalkThrough(s: Snapshot, a: Member, b: Member, c: Member, n: nat)
    requires Walk(s, a, b, n) && Reachable(s, b, c)
    ensures Reachable(s, a, c)
    decreases n
  {
    if n > 0 {
      var next := WalkFirst(s, a, b, n);
      WalkThrough(s, next, b, c, n - 1);
      WalkOn(s, a, next, c);
    }
  }

  lemma FamilyCloses(s: Snapshot, c: Member, done: set<Id>, more: set<Id>)
    requires UniqueIds(Rows(s.chats)) && c in s.chats && Family(s, c, {}).Some? && ReachClosed(s, done)
    requires FamilyHidden(s, c, done + more)
    requires forall id :: id in more ==> exists m :: m in Family(s, c, {}).value && m.row.id == id
    ensures ReachClosed(s, done + more)
  {
    CollectExact(s, c);
    forall m, d | m in s.chats && m.row.id in done + more && Reachable(s, m, d)
      ensures d.row.id in done + more || d.AlreadyArchived()
    {
      if m.row.id !in done {
        var f :| f in Family(s, c, {}).value && f.row.id == m.row.id;
        ReachableIsRow(s, c, f);
        assert Passes(s, f);
        SameMember(s.chats, f, m);
        ReachableOn(s, c, m, d);
      }
    }
  }

  lemma DoneIsHidden(s: Snapshot, c: Member, done: set<Id>)
    requires UniqueIds(Rows(s.chats)) && c in s.chats && Family(s, c, {}).Some? && ReachClosed(s, done)
      && c.row.id in done
    ensures FamilyHidden(s, c, done)
  {
    CollectExact(s, c);
  }

  /** One more candidate: its family is hidden now, was hidden before, or may not be. */
  lemma SweptOneMore(s: Snapshot, protected: set<Id>, done: set<Id>, more: set<Id>, n: nat)
    requires UniqueIds(Rows(s.chats)) && n < |s.chats| && SweptFamilies(s, protected, done, n)
    requires more == {} || (Sweepable(s, protected, s.chats[n]) && FamilyHidden(s, s.chats[n], done + more))
    requires Sweepable(s, protected, s.chats[n]) ==>
      FamilyHidden(s, s.chats[n], done + more) || s.chats[n].row.id in done
    requires forall id :: id in more ==> exists m :: m in Family(s, s.chats[n], {}).value && m.row.id == id
    ensures SweptFamilies(s, protected, done + more, n + 1)
  {
    var c := s.chats[n];
    if more == {} {
      assert done + more == done;
    } else {
      FamilyCloses(s, c, done, more);
    }
    if Sweepable(s, protected, c) && c.row.id in done {
      DoneIsHidden(s, c, done);
    }
    forall k | 0 <= k < n && Sweepable(s, protected, s.chats[k]) ensures FamilyHidden(s, s.chats[k], done + more) {
      assert FamilyHidden(s, s.chats[k], done);
    }
  }

  lemma SweptIsTargets(s: Snapshot, protected: set<Id>, archived: seq<Id>)
    requires AllTargets(s, protected, archived) && SweptFamilies(s, protected, Elements(archived), |s.chats|)
    ensures ExactlyTargets(s, protected, archived)
  {
    forall id | Target(s, protected, id) ensures id in archived {
      var c, m :| Sweepable(s, protected, c) && m in Family(s, c, {}).value && m.row.id == id && !m.AlreadyArchived();
      var k :| 0 <= k < |s.chats| && s.chats[k] == c;
      assert FamilyHidden(s, s.chats[k], Elements(archived));
    }
  }

  // ---- What the sweep promises of the chats themselves --------------------------------------

  predicate IsLive(m: Member) {
    !m.archivedFlag && m.row.archivedAt == ""
  }

  /** Nobody has pinned the chat, its activity is readable and long enough ago, and the probe confirms that no run
      is going on. */
  predicate IsIdle(m: Member, now: int, idleMs: int, probe: Member -> Option<bool>) {
    !m.watcherPinned && m.updatedMs.Some? && m.updatedMs.value + idleMs <= now && probe(m) == Some(true)
  }

  lemma GateIsIdle(m: Member, now: int, idleMs: int, probe: Member -> Option<bool>)
    ensures ChatArchivable(m, now, idleMs, true, probe) <==> IsIdle(m, now, idleMs, probe)
    ensures ChatArchivable(m, now, idleMs, false, probe) <==> IsLive(m) && IsIdle(m, now, idleMs, probe)
  {
  }

  /** A live chat below which everything is idle and settled, nothing cycles and nothing is a favorite. */
  ghost predicate MayGo(s: Snapshot, protected: set<Id>, idle: Member -> bool, c: Member) {
    && c in s.chats && c.row.id != NoId && IsLive(c) && !ActiveParentDelegation(s, c)
    && forall d :: Reachable(s, c, d) ==>
         d.row.id != NoId && idle(d) && RowsSettled(s, d.row.id) && !OnCycle(s, d) && d.row.id !in protected
  }

  /** The chat is live and at or below a chat that may go. */
  ghost predicate Goes(s: Snapshot, protected: set<Id>, idle: Member -> bool, id: Id) {
    exists c, m :: MayGo(s, protected, idle, c) && Reachable(s, c, m) && m.row.id == id && IsLive(m)
  }

  lemma SweepableMayGo(s: Snapshot, protected: set<Id>, idle: Member -> bool, c: Member)
    requires UniqueIds(Rows(s.chats)) && forall m :: s.gate(m) <==> idle(m)
    ensures Sweepable(s, protected, c) <==> MayGo(s, protected, idle, c)
  {
    if c in s.chats {
      CollectExact(s, c);
      assert Walk(s, c, c, 0);
      assert Reachable(s, c, c);
    }
  }

  lemma TargetGoes(s: Snapshot, protected: set<Id>, idle: Member -> bool, id: Id)
    requires UniqueIds(Rows(s.chats)) && (forall m :: s.gate(m) <==> idle(m)) && Target(s, protected, id)
    ensures Goes(s, protected, idle, id)
  {
    var c, m :| Sweepable(s, protected, c) && m in Family(s, c, {}).value && m.row.id == id && !m.AlreadyArchived();
    SweepableMayGo(s, protected, idle, c);
    CollectExact(s, c);
    assert MayGo(s, protected, idle, c) && Reachable(s, c, m) && IsLive(m);
  }

  lemma GoesIsTarget(s: Snapshot, protected: set<Id>, idle: Member -> bool, id: Id)
    requires UniqueIds(Rows(s.chats)) && (forall m :: s.gate(m) <==> idle(m)) && Goes(s, protected, idle, id)
    ensures Target(s, protected, id)
  {
    var c, m :| MayGo(s, protected, idle, c) && Reachable(s, c, m) && m.row.id == id && IsLive(m);
    SweepableMayGo(s, protected, idle, c);
    CollectExact(s, c);
    assert Sweepable(s, protected, c) && m in Family(s, c, {}).value && !m.AlreadyArchived();
  }

  /** A lone idle chat goes: live, with nothing forked or delegated from it, of no active parent, and no favorite. */
  lemma LoneChatGoes(s: Snapshot, protected: set<Id>, idle: Member -> bool, c: Member)
    requires c in s.chats && c.row.id != NoId && IsLive(c) && idle(c) && c.row.id !in protected
    requires c.row.parentId == NoId && s.delegationsOf(c.row.id) == Some([])
    requires forall d :: d in s.chats ==> d.row.parentId != c.row.id
    ensures Goes(s, protected, idle, c.row.id)
  {
    forall d ensures !Edge(s, c, d) {
    }
    forall d, n: nat | Walk(s, c, d, n) ensures d == c {
      if n > 0 {
        var e := WalkFirst(s, c, d, n);
      }
    }
    assert Walk(s, c, c, 0) && Reachable(s, c, c);
    assert MayGo(s, protected, idle, c);
  }

  /** Rows differ in their archive and update times alone, and a row that differs is archived. */
  ghost predicate OnlyTimesDiffer(was: seq<Member>, now: seq<Member>) {
    && |was| == |now|
    && forall i :: 0 <= i < |was| ==>
         && now[i].row.id == was[i].row.id && now[i].row.parentId == was[i].row.parentId
         && now[i].archivedFlag == was[i].archivedFlag && now[i].watcherPinned == was[i].watcherPinned
         && (now[i] != was[i] ==> now[i].row.archivedAt != "" && now[i].updatedMs.Some?)
  }

  lemma WrittenDiffers(s: Snapshot, chats: seq<Member>, writes: seq<Write>)
    requires Written(s, chats, writes)
    ensures OnlyTimesDiffer(s.chats, chats)
  {
    var up := ParentOf(Rows(s.chats));
    forall i | 0 <= i < |chats| ensures chats[i] == s.chats[i]
      || exists k :: 0 <= k < |writes| && chats[i] == Stamped(s.chats[i], writes[k].time)
    {
      var k := RowAfterExact(up, s.chats[i], writes);
    }
  }

  /** What a sweep keeps at every moment. */
  ghost predicate SweptSafely(s: Snapshot, protected: set<Id>, chats: seq<Member>, archived: seq<Id>,
                              writes: seq<Write>)
  {
    && OnlyWritten(s, chats, writes) && IdsOf(writes) == archived && NoRepeats(archived)
    && (forall id :: id in archived ==> MayHide(s, protected, id)) && AllTargets(s, protected, archived)
    && SubtreesHidden(s, chats, Elements(archived))
  }

  lemma SweepStep(s: Snapshot, protected: set<Id>, was: seq<Member>, archived: seq<Id>, writes: seq<Write>,
                  now: seq<Member>, more: seq<Id>, moreWrites: seq<Write>)
    requires SweptSafely(s, protected, was, archived, writes)
    requires OnlyWritten(s, now, writes + moreWrites) && IdsOf(moreWrites) == more && NoRepeats(more)
      && Elements(more) !! Elements(archived)
    requires forall id :: id in more ==> MayHide(s, protected, id) && Target(s, protected, id)
    requires SubtreesHidden(s, now, Elements(more))
    ensures SweptSafely(s, protected, now, archived + more, writes + moreWrites)
  {
    NoRepeatsConcat(archived, more);
    IdsOfConcat(writes, moreWrites);
    assert ArchivedChats(was) <= ArchivedChats(now);
    forall id | id in archived + more ensures MayHide(s, protected, id) && Target(s, protected, id) {
      assert id in archived || id in more;
    }
  }

  /** Why a chat is left in the sidebar by a sweep without write failures. */
  ghost predicate Left(s: Snapshot, protected: set<Id>, hidden: set<Id>, m: Member) {
    || m.row.id == NoId || m.row.id in hidden || m.AlreadyArchived() || !s.gate(m)
    || ActiveParentDelegation(s, m)
    || m !in s.chats || Family(s, m, {}).None?
    || exists d :: d in Family(s, m, {}).value && d.row.id in protected
  }

  ghost predicate LeftBefore(s: Snapshot, protected: set<Id>, hidden: set<Id>, n: nat)
    requires n <= |s.chats|
  {
    forall k :: 0 <= k < n ==> Left(s, protected, hidden, s.chats[k])
  }

  lemma LeftGrows(s: Snapshot, protected: set<Id>, hidden: set<Id>, more: set<Id>, n: nat)
    requires n < |s.chats| && hidden <= more
    requires LeftBefore(s, protected, hidden, n) && Left(s, protected, more, s.chats[n])
    ensures LeftBefore(s, protected, more, n + 1)
  {
    forall k | 0 <= k < n ensures Left(s, protected, more, s.chats[k]) {
      assert Left(s, protected, hidden, s.chats[k]);
    }
  }

  lemma {:induction false} WalkLast(s: Snapshot, a: Member, b: Member, n: nat) returns (p: Member)
    requires n > 0 && Walk(s, a, b, n)
    ensures Walk(s, a, p, n - 1) && Edge(s, p, b)
    decreases n
  {
    var c := WalkFirst(s, a, b, n);
    if n == 1 {
      p := a;
    } else {
      p := WalkLast(s, c, b, n - 1);
    }
  }

  /** The guard on the candidate protects its whole family, as long as delegation children are forks. */
  lemma FamilyGuarded(s: Snapshot, root: Member, m: Member)
    requires UniqueIds(Rows(s.chats)) && root in s.chats
    requires Family(s, root, {}).Some? && m in Family(s, root, {}).value
    requires !ActiveParentDelegation(s, root) && DelegationsAreForks(s)
    ensures !ActiveParentDelegation(s, m)
  {
    MemberReachable(s, root, {}, m);
    var n: nat :| Walk(s, root, m, n);
    if n > 0 {
      var p := WalkLast(s, root, m, n);
      FamilySound(s, root, {}, p, n - 1);
      assert m.row.id != NoId ==> m.row.parentId == p.row.id;
    }
  }

  /** A chat with a delegation row of a family member that is a fork of a chat outside the family. */
  ghost predicate SharedChild(s: Snapshot, family: seq<Member>, controller: Member, m: Member) {
    && controller in family && m in s.chats && m.row.id != NoId && Delegates(s, controller.row.id, m.row.id)
    && m.row.parentId != NoId && forall p :: p in family ==> p.row.id != m.row.parentId
  }

  /** The fork parent's registry is readable, and all its rows for the chat are settled. */
  ghost predicate SettledElsewhere(s: Snapshot, m: Member) {
    && s.delegationsOf(m.row.parentId).Some?
    && forall row :: row in s.delegationsOf(m.row.parentId).value && row.childChatId == m.row.id ==> row.Settled()
  }

  lemma MemberGuarded(s: Snapshot, root: Member, m: Member)
    requires UniqueIds(Rows(s.chats)) && root in s.chats
    requires Family(s, root, {}).Some? && !ActiveParentDelegation(s, root) && m in Family(s, root, {}).value
    ensures !ActiveParentDelegation(s, m)
      || exists controller :: SharedChild(s, Family(s, root, {}).value, controller, m)
  {
    var family := Family(s, root, {}).value;
    CollectExact(s, root);
    if ActiveParentDelegation(s, m) {
      var n: nat :| Walk(s, root, m, n);
      assert n > 0;
      var c := WalkLast(s, root, m, n);
      assert Reachable(s, root, c) && c in family;
      forall p | p in family ensures p.row.id != m.row.parentId {
        assert Passes(s, p);
      }
      assert SharedChild(s, family, c, m);
    }
  }

  /** Exactly which rows the guard leaves open: a collected family has no active parent delegation if and only if
      for every delegation row of a member whose child is a fork of a chat outside the family, that chat's own rows
      for the child are readable and settled. */
  lemma GuardExact(s: Snapshot, root: Member)
    requires UniqueIds(Rows(s.chats)) && root in s.chats
    requires Family(s, root, {}).Some? && !ActiveParentDelegation(s, root)
    ensures var family := Family(s, root, {}).value;
      (forall m :: m in family ==> !ActiveParentDelegation(s, m))
      <==> forall controller, m :: SharedChild(s, family, controller, m) ==> SettledElsewhere(s, m)
  {
    var family := Family(s, root, {}).value;
    CollectExact(s, root);
    forall controller, m | SharedChild(s, family, controller, m)
      ensures m in family && (SettledElsewhere(s, m) <==> !ActiveParentDelegation(s, m))
    {
      assert Passes(s, controller);
      FamilyStep(s, root, controller, m);
    }
    forall m | m in family
      ensures !ActiveParentDelegation(s, m) || exists controller :: SharedChild(s, family, controller, m)
    {
      MemberGuarded(s, root, m);
    }
  }

  /** A child of a member is a member. */
  lemma FamilyStep(s: Snapshot, root: Member, a: Member, b: Member)
    requires UniqueIds(Rows(s.chats)) && root in s.chats && Family(s, root, {}).Some?
    requires a in Family(s, root, {}).value && Edge(s, a, b)
    ensures b in Family(s, root, {}).value
  {
    FamilyFollows(s, root, {});
    var family := Family(s, root, {}).value;
    var i :| 0 <= i < |family| && family[i] == a;
    assert Edge(s, family[i], b) && b in family[i + 1..];
  }

  lemma CollectedMayHide(s: Snapshot, root: Member, protected: set<Id>, id: Id, m: Member)
    requires UniqueIds(Rows(s.chats)) && root in s.chats
    requires Family(s, root, {}).Some? && m in Family(s, root, {}).value
    requires m.row.id == id && !m.AlreadyArchived() && id !in protected && !ActiveParentDelegation(s, root)
    ensures MayHide(s, protected, id)
  {
    CollectExact(s, root);
    ReachableIsRow(s, root, m);
    if DelegationsAreForks(s) {
      FamilyGuarded(s, root, m);
    }
  }

  lemma CollectedIsFamily(s: Snapshot, root: Member)
    requires UniqueIds(Rows(s.chats)) && root in s.chats && Family(s, root, {}).Some?
    ensures IsFamily(s, Family(s, root, {}).value) && root in Family(s, root, {}).value
  {
    FamilyFollows(s, root, {});
    CollectExact(s, root);
    assert Family(s, root, {}).value[0] == root;
    forall m | m in Family(s, root, {}).value ensures m in s.chats && m.row.id != NoId {
      ReachableIsRow(s, root, m);
    }
  }

  method HasFavorite(family: seq<Member>, favorites: set<Id>) returns (found: bool)
    ensures found <==> exists d :: d in family && d.row.id in favorites
  {
    for i := 0 to |family|
      invariant forall k :: 0 <= k < i ==> family[k].row.id !in favorites
    {
      if family[i].row.id in favorites {
        assert family[i] in family;
        return true;
      }
    }
    return false;
  }

  datatype Step = Ignored | Refused | Archiving(archived: seq<Id>, failures: nat)

  /** One candidate of the sweep loop. */
  method SweepChat(s: Snapshot, chat: Member, protected: set<Id>, store: ChatStore, done: set<Id>,
                   ghost earlier: seq<Write>)
    returns (step: Step, all: set<Id>, ghost writes: seq<Write>)
    requires UniqueIds(Rows(s.chats)) && chat in s.chats
    requires OnlyWritten(s, store.chats, earlier) && done == Elements(IdsOf(earlier))
    modifies store
    ensures !step.Archiving? ==> store.chats == old(store.chats) && all == done && writes == []
    ensures step.Archiving? ==>
      && OnlyWritten(s, store.chats, earlier + writes) && IdsOf(writes) == step.archived
      && all == done + Elements(step.archived)
      && NoRepeats(step.archived) && Elements(step.archived) !! done && step.failures <= 1
      && (forall id :: id in step.archived ==> MayHide(s, protected, id) && Target(s, protected, id))
      && SubtreesHidden(s, store.chats, Elements(step.archived))
    ensures !step.Archiving? ==> !Sweepable(s, protected, chat) || chat.row.id in done
    ensures step.Archiving? ==> Sweepable(s, protected, chat) && FromFamily(s, chat, step.archived)
    ensures step.Archiving? && step.failures == 0 ==> FamilyHidden(s, chat, all)
    ensures (step.Archiving? ==> step.failures == 0) ==> Left(s, protected, all, chat)
  {
    step, all, writes := Ignored, done, [];
    if chat.row.id == NoId || chat.row.id in done || chat.AlreadyArchived() || !s.gate(chat) {
      return;
    }
    step := Refused;
    var active := HasActiveParentDelegation(s, chat);
    if active {
      return;
    }
    var collector := new FamilyCollector(s);
    var family := collector.Collect(chat);
    if family.None? {
      return;
    }
    var favorite := HasFavorite(family.value, protected);
    if favorite {
      return;
    }
    CollectedIsFamily(s, chat);
    var archived, failures;
    ghost var reached;
    archived, failures, all, writes, reached := ArchiveFamilyMembers(s, family.value, store, done, earlier);
    forall id | id in archived ensures MayHide(s, protected, id) && Target(s, protected, id) {
      var m :| m in family.value && m.row.id == id && !m.AlreadyArchived();
      CollectedMayHide(s, chat, protected, id, m);
    }
    step := Archiving(archived, failures);
    if failures == 0 {
      WholeFamilyHidden(s, chat, store.chats, earlier, writes, archived);
    }
  }

  ghost predicate FromFamily(s: Snapshot, c: Member, ids: seq<Id>)
    requires c in s.chats && Family(s, c, {}).Some?
  {
    forall id :: id in ids ==> exists m :: m in Family(s, c, {}).value && m.row.id == id
  }

  lemma WholeFamilyHidden(s: Snapshot, c: Member, chats: seq<Member>, earlier: seq<Write>, writes: seq<Write>,
                          archived: seq<Id>)
    requires UniqueIds(Rows(s.chats)) && c in s.chats && Family(s, c, {}).Some? && IsFamily(s, Family(s, c, {}).value)
    requires WrittenFrom(s, Family(s, c, {}).value, 0, chats, earlier, writes, archived)
    ensures FamilyHidden(s, c, Elements(IdsOf(earlier)) + Elements(archived))
  {
    IdsOfConcat(earlier, writes);
    var members := Family(s, c, {}).value;
    forall m | m in members ensures m.row.id in Elements(IdsOf(earlier)) + Elements(archived) || m.AlreadyArchived() {
      WrittenOrArchived(s, chats, earlier + writes, m);
    }
  }

  /** A whole sweep, under every pattern of write failures. Every chat it hides passed the gate, is not a
      protected favorite, was written itself and has its whole fork subtree archived; nothing else
      changes, and without write failures every chat left behind has a reason. */
  method SweepIdleChats(settings: Settings, favorites: Option<set<Id>>, readable: bool, store: ChatStore,
                        delegationsOf: Id -> Option<seq<Delegation>>, probe: Member -> Option<bool>, now: int)
    returns (summary: Summary, ghost failed: bool, ghost writes: seq<Write>)
    requires UniqueIds(Rows(store.chats))
    modifies store
    ensures !settings.enabled ==> summary == Summary(0, [], 0, Disabled)
    ensures settings.enabled && settings.skipFavorites && favorites.None? ==>
      summary == Summary(0, [], 0, FavoritesLoadFailed)
    ensures settings.enabled && (settings.skipFavorites ==> favorites.Some?) && !readable ==>
      summary == Summary(0, [], 0, LoadFailed)
    ensures summary.reason in {Disabled, FavoritesLoadFailed, LoadFailed} ==> store.chats == old(store.chats)
    ensures var s :=
      Snapshot(old(store.chats), (m: Member) => ChatArchivable(m, now, settings.idleMs, true, probe), delegationsOf);
      var protected := if settings.skipFavorites && favorites.Some? then favorites.value else {};
      && SweptSafely(s, protected, store.chats, summary.archived, writes)
      && (summary.reason in {NothingIdle, SomeArchived} && !failed ==>
        && (forall m :: m in s.chats ==> Left(s, protected, Elements(summary.archived), m))
        && ExactlyTargets(s, protected, summary.archived))
    ensures var s := Snapshot(old(store.chats), (m: Member) => false, delegationsOf);
      var protected := if settings.skipFavorites && favorites.Some? then favorites.value else {};
      var idle := (m: Member) => IsIdle(m, now, settings.idleMs, probe);
      && (forall id :: id in summary.archived ==> Goes(s, protected, idle, id))
      && (summary.reason in {NothingIdle, SomeArchived} && !failed ==>
        forall id :: Goes(s, protected, idle, id) ==> id in summary.archived)
    ensures OnlyTimesDiffer(old(store.chats), store.chats)
    ensures summary.reason == SomeArchived <==> summary.archived != []
    ensures summary.skipped <= summary.considered
  {
    failed, writes := false, [];
    NoWrites(store.chats);
    summary := Summary(0, [], 0, Disabled);
    if !settings.enabled {
      return;
    }
    var protected: set<Id> := {};
    if settings.skipFavorites {
      if favorites.None? {
        summary := Summary(0, [], 0, FavoritesLoadFailed);
        return;
      }
      protected := favorites.value;
    }
    if !readable {
      summary := Summary(0, [], 0, LoadFailed);
      return;
    }
    var s := Snapshot(store.chats, (m: Member) => ChatArchivable(m, now, settings.idleMs, true, probe), delegationsOf);
    ghost var ungated := Snapshot(store.chats, (m: Member) => false, delegationsOf);
    summary, failed, writes := SweepAll(s, protected, store);
    SweptGoes(s, ungated, protected, now, settings.idleMs, probe);
    WrittenDiffers(s, store.chats, writes);
    if summary.archived != [] {
      summary := summary.(reason := SomeArchived);
    }
  }

  /** The targets of a sweep, in terms of the chats and of a graph that knows no gate. */
  lemma SweptGoes(s: Snapshot, ungated: Snapshot, protected: set<Id>, now: int, idleMs: int,
                  probe: Member -> Option<bool>)
    requires UniqueIds(Rows(s.chats)) && ungated.chats == s.chats && ungated.delegationsOf == s.delegationsOf
    requires s.gate == ((m: Member) => ChatArchivable(m, now, idleMs, true, probe))
    ensures var idle := (m: Member) => IsIdle(m, now, idleMs, probe);
      forall id :: Target(s, protected, id) <==> Goes(ungated, protected, idle, id)
  {
    var idle := (m: Member) => IsIdle(m, now, idleMs, probe);
    forall m ensures s.gate(m) <==> idle(m) {
      GateIsIdle(m, now, idleMs, probe);
    }
    forall id ensures Target(s, protected, id) <==> Goes(ungated, protected, idle, id) {
      if Target(s, protected, id) {
        TargetGoes(s, protected, idle, id);
      }
      if Goes(s, protected, idle, id) {
        GoesIsTarget(s, protected, idle, id);
      }
      GateIsNoEdge(s, ungated, protected, idle, id);
    }
  }

  lemma {:induction false} SameWalk(s: Snapshot, t: Snapshot, a: Member, b: Member, n: nat)
    requires t.chats == s.chats && t.delegationsOf == s.delegationsOf && Walk(s, a, b, n)
    ensures Walk(t, a, b, n)
    decreases n
  {
    if n > 0 {
      var c := WalkFirst(s, a, b, n);
      SameWalk(s, t, c, b, n - 1);
      assert Edge(t, a, c);
    }
  }

  lemma SameReach(s: Snapshot, t: Snapshot, a: Member, b: Member)
    requires t.chats == s.chats && t.delegationsOf == s.delegationsOf && Reachable(s, a, b)
    ensures Reachable(t, a, b)
  {
    var n: nat :| Walk(s, a, b, n);
    SameWalk(s, t, a, b, n);
  }

  lemma SameMayGo(s: Snapshot, t: Snapshot, protected: set<Id>, idle: Member -> bool, c: Member)
    requires t.chats == s.chats && t.delegationsOf == s.delegationsOf && MayGo(s, protected, idle, c)
    ensures MayGo(t, protected, idle, c)
  {
    forall d | Reachable(t, c, d)
      ensures d.row.id != NoId && idle(d) && RowsSettled(t, d.row.id) && !OnCycle(t, d) && d.row.id !in protected
    {
      SameReach(t, s, c, d);
      if OnCycle(t, d) {
        var e :| Edge(t, d, e) && Reachable(t, e, d);
        SameReach(t, s, e, d);
        assert Edge(s, d, e);
      }
    }
  }

  lemma GateIsNoEdge(s: Snapshot, t: Snapshot, protected: set<Id>, idle: Member -> bool, id: Id)
    requires t.chats == s.chats && t.delegationsOf == s.delegationsOf
    ensures Goes(s, protected, idle, id) <==> Goes(t, protected, idle, id)
  {
    if Goes(s, protected, idle, id) {
      var c, m :| MayGo(s, protected, idle, c) && Reachable(s, c, m) && m.row.id == id && IsLive(m);
      SameMayGo(s, t, protected, idle, c);
      SameReach(s, t, c, m);
    }
    if Goes(t, protected, idle, id) {
      var c, m :| MayGo(t, protected, idle, c) && Reachable(t, c, m) && m.row.id == id && IsLive(m);
      SameMayGo(t, s, protected, idle, c);
      SameReach(t, s, c, m);
    }
  }

  lemma NoWrites(chats: seq<Member>)
    ensures AfterWrites(chats, []) == chats
  {
  }

  method SweepAll(s: Snapshot, protected: set<Id>, store: ChatStore)
    returns (summary: Summary, ghost failed: bool, ghost writes: seq<Write>)
    requires store.chats == s.chats && UniqueIds(Rows(s.chats))
    modifies store
    ensures SweptSafely(s, protected, store.chats, summary.archived, writes)
    ensures !failed ==> forall m :: m in s.chats ==> Left(s, protected, Elements(summary.archived), m)
    ensures !failed ==> ExactlyTargets(s, protected, summary.archived)
    ensures summary.skipped <= summary.considered && summary.reason == NothingIdle
  {
    failed, writes := false, [];
    NoWrites(s.chats);
    var considered: nat, archived: seq<Id>, skipped: nat := 0, [], 0;
    var done: set<Id> := {};
    for i := 0 to |s.chats|
      invariant SweptSafely(s, protected, store.chats, archived, writes) && done == Elements(archived)
      invariant !failed ==> LeftBefore(s, protected, done, i) && SweptFamilies(s, protected, done, i)
      invariant skipped <= considered
    {
      ghost var was := store.chats;
      var step, all;
      ghost var moreWrites;
      step, all, moreWrites := SweepChat(s, s.chats[i], protected, store, done, writes);
      match step {
        case Ignored =>
        case Refused =>
          considered, skipped := considered + 1, skipped + 1;
        case Archiving(more, failures) =>
          considered, skipped := considered + 1, skipped + failures;
          SweepStep(s, protected, was, archived, writes, store.chats, more, moreWrites);
          archived := archived + more;
          writes := writes + moreWrites;
          failed := failed || failures > 0;
      }
      if !failed {
        LeftGrows(s, protected, done, all, i);
        SweptOneMore(s, protected, done, if step.Archiving? then Elements(step.archived) else {}, i);
      }
      done := all;
    }
    if !failed {
      SweptIsTargets(s, protected, archived);
    }
    summary := Summary(considered, archived, skipped, NothingIdle);
  }

  /** A sweep keeps the archive times the store had if and only if no chat it archives has a fork descendant
      with an archive time. */
  lemma SweepKeepsTimes(s: Snapshot, protected: set<Id>, chats: seq<Member>, archived: seq<Id>, writes: seq<Write>)
    requires SweptSafely(s, protected, chats, archived, writes) && FreshTimes(s.chats, writes)
    ensures TimesKept(s.chats, chats) <==> forall id :: id in archived ==> !HasTimeBelow(s.chats, id)
  {
    FreshTimesKept(s.chats, writes);
    forall k | 0 <= k < |writes| ensures writes[k].id in archived {
      assert IdsOf(writes)[k] == writes[k].id;
    }
    forall id | id in archived ensures exists k :: 0 <= k < |writes| && writes[k].id == id {
      var k :| 0 <= k < |archived| && archived[k] == id;
      assert IdsOf(writes)[k] == writes[k].id;
    }
  }

  /** Before the call: a sweep without write failures keeps the archive times if and only if no live member of the
      family of a sweepable chat has a fork descendant with an archive time. */
  lemma WholeSweepKeepsTimes(s: Snapshot, protected: set<Id>, chats: seq<Member>, archived: seq<Id>, writes: seq<Write>)
    requires SweptSafely(s, protected, chats, archived, writes) && FreshTimes(s.chats, writes)
    requires ExactlyTargets(s, protected, archived)
    ensures TimesKept(s.chats, chats) <==> forall id :: Target(s, protected, id) ==> !HasTimeBelow(s.chats, id)
  {
    SweepKeepsTimes(s, protected, chats, archived, writes);
  }

  // ---- Where the parent guard misses --------------------------------------------------------

  /** The guard looks at the candidate's own fork parent only. A chat that an idle controller reaches by a
      settled delegation row, but that is a fork of another chat whose row for it is still active, is
      collected with the controller. */
  lemma GuardMissesSharedChild(controller: Member, parent: Member, child: Member, s: Snapshot)
    requires s.chats == [controller, parent, child] && UniqueIds(Rows(s.chats))
    requires controller.row.id != NoId && parent.row.id != NoId && child.row.id != NoId
    requires controller.row.parentId == NoId && parent.row.parentId == NoId && child.row.parentId == parent.row.id
    requires s.gate(controller) && s.gate(child)
    requires s.delegationsOf(controller.row.id) == Some([Delegation(child.row.id, true, false)])
    requires s.delegationsOf(child.row.id) == Some([])
    requires s.delegationsOf(parent.row.id) == Some([Delegation(child.row.id, false, true)])
    ensures !ActiveParentDelegation(s, controller) && ActiveParentDelegation(s, child)
    ensures Family(s, controller, {}).Some? && child in Family(s, controller, {}).value
  {
    var none: set<Id> := {};
    assert Rows(s.chats)[0].id != Rows(s.chats)[1].id && Rows(s.chats)[0].id != Rows(s.chats)[2].id
      && Rows(s.chats)[1].id != Rows(s.chats)[2].id;
    assert Delegation(child.row.id, false, true) in s.delegationsOf(parent.row.id).value;
    assert Delegation(child.row.id, true, false) in s.delegationsOf(controller.row.id).value;
    forall d ensures !Edge(s, child, d) {
    }
    forall d | Edge(s, controller, d) ensures d == child {
    }
    assert Walk(s, child, child, 0) && Edge(s, controller, child);
    WalkOn(s, controller, child, child);
    forall d, n: nat | Walk(s, controller, d, n) ensures d in {controller, child} {
      if n > 0 {
        var c := WalkFirst(s, controller, d, n);
        assert n == 1;
      }
    }
    assert !OnCycle(s, child);
    forall c | Edge(s, controller, c) ensures !Reachable(s, c, controller) {
      forall n: nat ensures !Walk(s, child, controller, n) {
        if n > 0 && Walk(s, child, controller, n) {
          var e := WalkFirst(s, child, controller, n);
        }
      }
    }
    CollectExact(s, controller);
  }
}
