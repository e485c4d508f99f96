/** Presence fan-out to chat-list sockets: coalesced refreshes, one sequence number per change, and debt
    for sockets whose last frame could not be sent. */
module AgentPresenceBus {
  import opened Wrappers

  datatype ChatId = ChatId(name: string)

  /** A WebSocket connection. */
  datatype Socket = Socket(number: nat)

  datatype Scope = Scope(key: string)

  /** A delivered frame; a snapshot is self-contained. */
  datatype Frame = Frame(position: nat, snapshot: bool)

  // ---- The client's gap test ----------------------------------------------------------------

  /** `None` is a client that has no sequence number yet. */
  predicate HasAgentPresenceSeqGap(last: Option<nat>, next: nat, snapshot: bool) {
    if snapshot then false
    else if next < 1 then true
    else if last.None? || last.value < 1 then false
    else next > last.value + 1
  }

  predicate LiesBetween(a: nat, p: nat, b: nat) {
    a < p < b
  }

  /** The test is true exactly when the client has missed a frame: the frame has no valid number, or some position
      lies between the last one and this one. A snapshot needs none of them. */
  lemma GapIsMissedFrame(last: Option<nat>, next: nat, snapshot: bool)
    ensures HasAgentPresenceSeqGap(last, next, snapshot)
       <==> !snapshot && (next == 0 || (last.Some? && last.value > 0 && exists p :: LiesBetween(last.value, p, next)))
  {
    if last.Some? && next > last.value + 1 {
      assert LiesBetween(last.value, last.value + 1, next);
    }
  }

  function LastPosition(inbox: seq<Frame>): Option<nat> {
    if inbox == [] then None else Some(inbox[|inbox| - 1].position)
  }

  /** No frame of an inbox was a gap when it arrived. */
  ghost predicate NoGaps(inbox: seq<Frame>) {
    forall k :: 0 <= k < |inbox| ==>
      !HasAgentPresenceSeqGap(LastPosition(inbox[..k]), inbox[k].position, inbox[k].snapshot)
  }

  /** Every delta continues with the very next position after the frame before it, the first one with position 1. */
  ghost predicate InLine(inbox: seq<Frame>) {
    forall k :: 0 <= k < |inbox| ==> InLineAt(inbox, k)
  }

  predicate InLineAt(inbox: seq<Frame>, k: nat)
    requires k < |inbox|
  {
    inbox[k].snapshot || (if k == 0 then inbox[k].position == 1 else inbox[k].position == inbox[k - 1].position + 1)
  }

  // ---- Presence differences -----------------------------------------------------------------

  /** The fingerprint of a chat in a map; an idle or unknown chat has the empty one. */
  function PrintOf(m: map<ChatId, string>, id: ChatId): string {
    if id in m then m[id] else ""
  }

  /** The chats a refresh looks at: the requested and summarized ones, or every chat known so far. */
  function Considered(ids: Option<set<ChatId>>, next: map<ChatId, string>, known: map<ChatId, string>): set<ChatId> {
    next.Keys + if ids.Some? then ids.value else known.Keys
  }

  /** The exact difference over the chats considered. */
  ghost predicate IsDiff(before: map<ChatId, string>, next: map<ChatId, string>, considered: set<ChatId>,
                         states: map<ChatId, string>, cleared: set<ChatId>) {
    && (forall id ::
        id in states <==> id in considered && PrintOf(next, id) != "" && PrintOf(next, id) != PrintOf(before, id))
    && (forall id :: id in states ==> states[id] == next[id])
    && (forall id :: id in cleared <==> id in considered && PrintOf(next, id) == "" && PrintOf(before, id) != "")
  }

  /** What the fingerprints are after a refresh: new for the chats considered, unchanged for the others. */
  ghost predicate Refreshed(before: map<ChatId, string>, next: map<ChatId, string>, considered: set<ChatId>,
                            after: map<ChatId, string>)
  {
    && (forall id :: id in considered ==> PrintOf(after, id) == PrintOf(next, id))
    && (forall id :: id !in considered ==> PrintOf(after, id) == PrintOf(before, id))
  }

  /** Both maps say the same about a chat; an empty fingerprint is as good as none. */
  predicate SaysSame(a: map<ChatId, string>, b: map<ChatId, string>, id: ChatId) {
    if id in a && a[id] != "" then id in b && b[id] == a[id] else !(id in b && b[id] != "")
  }

  /** What a refresh promises: the chats asked for, or all of them, and those the summary names are as the summary
      says, and all others are as before. */
  ghost predicate RefreshedAs(before: map<ChatId, string>, next: map<ChatId, string>, ids: Option<set<ChatId>>,
                              after: map<ChatId, string>)
  {
    forall id ::
      if ids.None? || id in ids.value || id in next then SaysSame(after, next, id) else SaysSame(after, before, id)
  }

  lemma RefreshedIsAs(before: map<ChatId, string>, next: map<ChatId, string>, ids: Option<set<ChatId>>,
                      after: map<ChatId, string>)
    requires Refreshed(before, next, Considered(ids, next, before), after)
    ensures RefreshedAs(before, next, ids, after)
  {
    forall id
      ensures if ids.None? || id in ids.value || id in next then SaysSame(after, next, id)
        else SaysSame(after, before, id)
    {
      assert PrintOf(after, id) == if id in Considered(ids, next, before) then PrintOf(next, id)
        else PrintOf(before, id);
    }
  }

  /** A delta carries a mirror of the fingerprints from before to after. */
  lemma DeltaCarriesMirror(before: map<ChatId, string>, next: map<ChatId, string>, considered: set<ChatId>,
                           after: map<ChatId, string>, states: map<ChatId, string>, cleared: set<ChatId>)
    requires "" !in before.Values && "" !in after.Values
    requires IsDiff(before, next, considered, states, cleared) && Refreshed(before, next, considered, after)
    ensures before + states - cleared == after
  {
    var mirror := before + states - cleared;
    forall id ensures PrintOf(mirror, id) == PrintOf(after, id) && (id in mirror <==> id in after) {
      assert id in before ==> before[id] in before.Values;
      assert id in after ==> after[id] in after.Values;
    }
    assert forall id :: id in mirror ==> mirror[id] == PrintOf(mirror, id) && after[id] == PrintOf(after, id);
  }

  // ---- Inboxes ------------------------------------------------------------------------------

  type Inboxes = map<Socket, seq<Frame>>

  ghost predicate AllNoGaps(inbox: Inboxes) {
    forall ws :: ws in inbox ==> NoGaps(inbox[ws]) && InLine(inbox[ws])
  }

  ghost predicate AllEmpty(inbox: Inboxes) {
    forall ws :: ws in inbox ==> inbox[ws] == []
  }

  /** The socket is in debt, or its last frame carries position `at`. A socket that was subscribed before the
      bus started has no frame yet, which is position 0. */
  ghost predicate UpToDate(inbox: Inboxes, owed: set<Socket>, ws: Socket, at: nat) {
    ws in owed || (ws in inbox && ((inbox[ws] == [] && at == 0) || LastPosition(inbox[ws]) == Some(at)))
  }

  ghost predicate AllUpToDate(inbox: Inboxes, owed: set<Socket>, sockets: set<Socket>, at: nat) {
    forall ws :: ws in sockets ==> UpToDate(inbox, owed, ws, at)
  }

  /** Between two states every socket received at most one frame, at position `at`: a snapshot if it was in
      debt, else a delta. */
  ghost predicate OneFrameEach(before: Inboxes, debtors: set<Socket>, after: Inboxes, at: nat) {
    before.Keys == after.Keys
    && forall ws :: ws in before ==> after[ws] == before[ws] || after[ws] == before[ws] + [Frame(at, ws in debtors)]
  }

  /** What one attempt to deliver does to the inboxes and the debt. */
  ghost predicate Attempted(inbox: Inboxes, owed: set<Socket>, inbox': Inboxes, owed': set<Socket>, ws: Socket,
                            frame: Frame, isOpen: bool)
  {
    || (isOpen && ws in inbox && inbox' == inbox[ws := inbox[ws] + [frame]] && owed' == owed - {ws})
    || (isOpen && inbox' == inbox && owed' == owed + {ws})
    || (!isOpen && inbox' == inbox && owed' == owed)
  }

  lemma AttemptKeeps(inbox: Inboxes, owed: set<Socket>, inbox': Inboxes, owed': set<Socket>, ws: Socket, frame: Frame,
                     isOpen: bool, others: set<Socket>, at: nat)
    requires Attempted(inbox, owed, inbox', owed', ws, frame, isOpen)
    requires ws !in others && AllUpToDate(inbox, owed, others, at)
    ensures AllUpToDate(inbox', owed', others, at)
    ensures inbox'.Keys == inbox.Keys
  {
  }

  lemma AttemptOneFrame(start: Inboxes, debtors: set<Socket>, inbox: Inboxes, owed: set<Socket>, inbox': Inboxes,
                        owed': set<Socket>, ws: Socket, at: nat, isOpen: bool)
    requires Attempted(inbox, owed, inbox', owed', ws, Frame(at, ws in debtors), isOpen)
    requires OneFrameEach(start, debtors, inbox, at) && ws in start && inbox[ws] == start[ws]
    ensures OneFrameEach(start, debtors, inbox', at)
  {
  }

  /** A refresh found a difference exactly when it changed the fingerprints. */
  lemma DiffIffChanged(before: map<ChatId, string>, next: map<ChatId, string>, considered: set<ChatId>,
                       after: map<ChatId, string>, states: map<ChatId, string>, cleared: set<ChatId>)
    requires "" !in before.Values && "" !in after.Values
    requires IsDiff(before, next, considered, states, cleared) && Refreshed(before, next, considered, after)
    ensures states != map[] || cleared != {} <==> after != before
  {
    DeltaCarriesMirror(before, next, considered, after, states, cleared);
    if states != map[] {
      var id :| id in states;
      assert PrintOf(after, id) != PrintOf(before, id);
    } else if cleared != {} {
      var id :| id in cleared;
      assert PrintOf(after, id) != PrintOf(before, id);
    } else {
      assert before + states - cleared == before;
    }
  }

  // ---- The bus ------------------------------------------------------------------------------

  class PresenceBus {
    var position: nat
    var fingerprints: map<ChatId, string>
    var pendingIds: set<ChatId>
    var pendingAll: bool
    var timerArmed: bool
    var lastWatcherKey: string
    var initialized: bool
    var clients: map<Socket, Scope>
    var owed: set<Socket>
    var retryArmed: bool
    /** Sockets whose ready state is open. */
    var open: set<Socket>
    /** The frames every connection has received. */
    ghost var inbox: Inboxes

    ghost predicate Sound()
      reads this
    {
      && "" !in fingerprints.Values
      && AllNoGaps(inbox) && clients.Keys <= inbox.Keys && open <= inbox.Keys
      && (!initialized ==> AllEmpty(inbox) && owed == {} && position == 0)
    }

    /** Every open subscribed socket is up to date or in debt, and while one is in debt the retry is armed. */
    ghost predicate Valid()
      reads this
    {
      && Sound()
      && AllUpToDate(inbox, owed, clients.Keys * open, position)
      && (owed * clients.Keys * open != {} ==> retryArmed)
    }

    constructor ()
      ensures Valid() && clients == map[] && open == {} && position == 0 && inbox == map[]
    {
      position, fingerprints, pendingIds, pendingAll := 0, map[], {}, false;
      timerArmed, lastWatcherKey, initialized := false, "", false;
      clients, owed, retryArmed, open, inbox := map[], {}, false, {}, map[];
    }

    // ---- Connections ------------------------------------------------------------------------

    method Connect(ws: Socket)
      requires Valid() && ws !in inbox
      modifies this
      ensures Valid() && open == old(open) + {ws} && clients == old(clients) && position == old(position)
      ensures inbox == old(inbox)[ws := []]
    {
      assert clients.Keys * (open + {ws}) == clients.Keys * open;
      ghost var was := inbox;
      open := open + {ws};
      inbox := inbox[ws := []];
      forall other | other in clients.Keys * open ensures UpToDate(inbox, owed, other, position) {
        assert UpToDate(was, owed, other, position);
      }
    }

    /** The socket stops being open before its close event arrives. */
    method StartClosing(ws: Socket)
      requires Valid()
      modifies this
      ensures Valid() && open == old(open) - {ws} && clients == old(clients) && owed == old(owed) && inbox == old(inbox)
    {
      open := open - {ws};
    }

    /** The close event drops the subscription and the debt. */
    method Closed(ws: Socket)
      requires Valid()
      modifies this
      ensures Valid() && ws !in open && ws !in clients && ws !in owed && inbox == old(inbox)
        && position == old(position)
    {
      ghost var before, debts, wasOpen := clients.Keys, owed, open;
      open := open - {ws};
      clients := clients - {ws};
      owed := owed - {ws};
      forall other | other in clients.Keys * open ensures UpToDate(inbox, owed, other, position) {
        assert other in before * wasOpen && UpToDate(inbox, debts, other, position);
      }
      assert owed * clients.Keys * open <= debts * before * wasOpen;
    }

    /** A new subscription is answered with a snapshot once the bus has started; a known socket only
        changes its scope. */
    method Subscribe(ws: Socket, scope: Scope)
      requires Valid() && ws in inbox
      modifies this
      ensures Valid() && clients == old(clients)[ws := scope] && position == old(position) && open == old(open)
      ensures ws in old(clients) || !initialized ==> inbox == old(inbox) && owed == old(owed)
      ensures ws !in old(clients) && initialized && ws in open ==>
        ws in owed || (ws in inbox && inbox[ws] == old(inbox)[ws] + [Frame(position, true)])
    {
      if ws in clients {
        clients := clients[ws := scope];
        return;
      }
      ghost var others := clients.Keys * open;
      clients := clients[ws := scope];
      if initialized {
        ghost var wasInbox, wasOwed := inbox, owed;
        Deliver(ws, Frame(position, true));
        AttemptKeeps(wasInbox, wasOwed, inbox, owed, ws, Frame(position, true), ws in open, others, position);
      }
    }

    // ---- Delivery ---------------------------------------------------------------------------

    /** A send fails on a socket that is not open, under backpressure and when it throws. */
    method Send(ws: Socket, frame: Frame) returns (sent: bool)
      requires ws in inbox
      modifies this`inbox
      ensures ws !in open ==> !sent
      ensures inbox == if sent then old(inbox)[ws := old(inbox)[ws] + [frame]] else old(inbox)
    {
      if ws !in open {
        return false;
      }
      if * {
        return false;
      }
      inbox := inbox[ws := inbox[ws] + [frame]];
      return true;
    }

    method MarkDebt(ws: Socket)
      modifies this`owed, this`retryArmed
      ensures owed == if ws in open then old(owed) + {ws} else old(owed)
      ensures retryArmed == (old(retryArmed) || ws in open)
    {
      if ws !in open {
        return;
      }
      owed := owed + {ws};
      if !retryArmed {
        retryArmed := true;
      }
    }

    /** A frame is delivered, which pays the debt, or leaves an open socket in debt with the retry armed. */
    method Deliver(ws: Socket, frame: Frame)
      requires AllNoGaps(inbox) && ws in inbox
      requires ws in open ==> !HasAgentPresenceSeqGap(LastPosition(inbox[ws]), frame.position, frame.snapshot)
      requires ws in open && !frame.snapshot ==>
        frame.position == 1 + if inbox[ws] == [] then 0 else LastPosition(inbox[ws]).value
      modifies this`owed, this`retryArmed, this`inbox
      ensures AllNoGaps(inbox)
      ensures Attempted(old(inbox), old(owed), inbox, owed, ws, frame, ws in open)
      ensures old(retryArmed) || (ws in open && ws in owed) ==> retryArmed
    {
      ghost var was := inbox[ws];
      var sent := Send(ws, frame);
      if sent {
        NoGapsSnoc(was, frame);
        InLineSnoc(was, frame);
        owed := owed - {ws};
      } else {
        MarkDebt(ws);
      }
    }

    // ---- Refreshes --------------------------------------------------------------------------

    method ScheduleRefresh(ids: set<ChatId>)
      requires Valid()
      modifies this`initialized, this`pendingAll, this`pendingIds, this`timerArmed
      ensures Valid() && timerArmed && initialized
      ensures pendingAll == (old(pendingAll) || ids == {}) && pendingIds == old(pendingIds) + ids
    {
      initialized := true;
      if ids == {} {
        pendingAll := true;
      } else {
        pendingIds := pendingIds + ids;
      }
      timerArmed := true;
    }

    /** Takes the pending chats and computes what changed for them. `summary` gives the presence of the
        requested chats, or of all. */
    method DiffPresence(summary: Option<set<ChatId>> -> map<ChatId, string>)
      returns (states: map<ChatId, string>, cleared: set<ChatId>)
      requires "" !in fingerprints.Values
      modifies this`pendingIds, this`pendingAll, this`fingerprints
      ensures pendingIds == {} && !pendingAll && "" !in fingerprints.Values
      ensures var ids := if old(pendingAll) then None else Some(old(pendingIds));
        var considered := Considered(ids, summary(ids), old(fingerprints));
        && IsDiff(old(fingerprints), summary(ids), considered, states, cleared)
        && Refreshed(old(fingerprints), summary(ids), considered, fingerprints)
    {
      var ids := if pendingAll then None else Some(pendingIds);
      pendingAll, pendingIds := false, {};
      var next := summary(ids);
      states, cleared, fingerprints := DiffMaps(fingerprints, next, Considered(ids, next, fingerprints));
    }

    /** The coalescing timer has fired. */
    method TimerFired(summary: Option<set<ChatId>> -> map<ChatId, string>, watcherKey: string)
      requires Valid() && timerArmed && initialized
      modifies this
      ensures Valid() && clients == old(clients) && open == old(open) && !timerArmed
      ensures position == old(position)
        + if fingerprints != old(fingerprints) || watcherKey != old(lastWatcherKey) then 1 else 0
      ensures lastWatcherKey == watcherKey && OneFrameEach(old(inbox), old(owed), inbox, position)
      ensures var ids := if old(pendingAll) then None else Some(old(pendingIds));
        Refreshed(old(fingerprints), summary(ids), Considered(ids, summary(ids), old(fingerprints)), fingerprints)
        && RefreshedAs(old(fingerprints), summary(ids), ids, fingerprints)
    {
      timerArmed := false;
      Flush(summary, watcherKey);
    }

    /** The retry timer has fired. */
    method RetryFired(summary: Option<set<ChatId>> -> map<ChatId, string>, watcherKey: string)
      requires Valid() && retryArmed && initialized
      modifies this
      ensures Valid() && clients == old(clients) && open == old(open)
      ensures position == old(position)
        + if fingerprints != old(fingerprints) || watcherKey != old(lastWatcherKey) then 1 else 0
      ensures lastWatcherKey == watcherKey && OneFrameEach(old(inbox), old(owed), inbox, position)
      ensures var ids := if old(pendingAll) then None else Some(old(pendingIds));
        Refreshed(old(fingerprints), summary(ids), Considered(ids, summary(ids), old(fingerprints)), fingerprints)
        && RefreshedAs(old(fingerprints), summary(ids), ids, fingerprints)
    {
      retryArmed := false;
      Flush(summary, watcherKey);
    }

    /** One flush: at most one new position, a delta to every socket that is up to date and a snapshot to
        every socket in debt. Whatever sends fail, no delivered frame is a gap, every open subscribed
        socket ends up to date or in debt, and a remaining debt arms the retry. */
    method Flush(summary: Option<set<ChatId>> -> map<ChatId, string>, watcherKey: string)
      requires Sound() && initialized && AllUpToDate(inbox, owed, clients.Keys * open, position)
      modifies this`pendingIds, this`pendingAll, this`fingerprints, this`lastWatcherKey, this`position, this`owed,
        this`retryArmed, this`inbox
      ensures Valid()
      ensures position == old(position)
        + if fingerprints != old(fingerprints) || watcherKey != old(lastWatcherKey) then 1 else 0
      ensures lastWatcherKey == watcherKey && OneFrameEach(old(inbox), old(owed), inbox, position)
      ensures var ids := if old(pendingAll) then None else Some(old(pendingIds));
        Refreshed(old(fingerprints), summary(ids), Considered(ids, summary(ids), old(fingerprints)), fingerprints)
        && RefreshedAs(old(fingerprints), summary(ids), ids, fingerprints)
    {
      var states, cleared := DiffPresence(summary);
      ghost var ids := if old(pendingAll) then None else Some(old(pendingIds));
      RefreshedIsAs(old(fingerprints), summary(ids), ids, fingerprints);
      DiffIffChanged(old(fingerprints), summary(ids), Considered(ids, summary(ids), old(fingerprints)), fingerprints,
                     states, cleared);
      var changed := states != map[] || cleared != {} || watcherKey != lastWatcherKey;
      if changed {
        lastWatcherKey := watcherKey;
        position := position + 1;
      }
      if !changed && owed == {} {
        return;
      }
      FanOut(changed, old(position));
    }

    /** The delivery loop of a flush. */
    method FanOut(changed: bool, ghost before: nat)
      requires Sound() && initialized && position == before + if changed then 1 else 0
      requires AllUpToDate(inbox, owed, clients.Keys * open, before)
      modifies this`owed, this`retryArmed, this`inbox
      ensures Valid() && OneFrameEach(old(inbox), old(owed), inbox, position)
    {
      var todo := clients.Keys;
      while todo != {}
        invariant AllNoGaps(inbox) && inbox.Keys == old(inbox).Keys && todo <= clients.Keys
        invariant AllUpToDate(inbox, owed, todo * open, before)
        invariant AllUpToDate(inbox, owed, (clients.Keys - todo) * open, position)
        invariant owed * (clients.Keys - todo) * open != {} ==> retryArmed
        invariant forall ws :: ws in todo ==> inbox[ws] == old(inbox)[ws] && (ws in owed <==> ws in old(owed))
        invariant OneFrameEach(old(inbox), old(owed), inbox, position)
        decreases todo
      {
        var ws :| ws in todo;
        Serve(ws, changed, before, todo - {ws}, clients.Keys - todo, old(inbox), old(owed));
        todo := todo - {ws};
      }
    }

    /** One socket of the delivery loop: a snapshot if it is in debt, else the delta if there is one. */
    method Serve(ws: Socket, changed: bool, ghost before: nat, ghost later: set<Socket>, ghost served: set<Socket>,
                 ghost start: Inboxes, ghost debtors: set<Socket>)
      requires AllNoGaps(inbox) && ws in inbox && position == before + if changed then 1 else 0
      requires ws !in later && ws !in served
      requires ws in open ==> UpToDate(inbox, owed, ws, before)
      requires AllUpToDate(inbox, owed, later * open, before) && AllUpToDate(inbox, owed, served * open, position)
      requires owed * served * open != {} ==> retryArmed
      requires OneFrameEach(start, debtors, inbox, position) && inbox[ws] == start[ws]
        && (ws in owed <==> ws in debtors)
      requires forall other :: other in later ==> other in inbox
      modifies this`owed, this`retryArmed, this`inbox
      ensures AllNoGaps(inbox) && inbox.Keys == old(inbox).Keys
      ensures ws in open ==> UpToDate(inbox, owed, ws, position)
      ensures AllUpToDate(inbox, owed, later * open, before) && AllUpToDate(inbox, owed, served * open, position)
      ensures owed * (served + {ws}) * open != {} ==> retryArmed
      ensures OneFrameEach(start, debtors, inbox, position)
      ensures forall other :: other in later ==>
        inbox[other] == old(inbox)[other] && (other in owed <==> other in old(owed))
    {
      if ws !in owed && !changed {
        return;
      }
      ghost var wasInbox, wasOwed := inbox, owed;
      var frame := Frame(position, ws in owed);
      Deliver(ws, frame);
      AttemptKeeps(wasInbox, wasOwed, inbox, owed, ws, frame, ws in open, later * open, before);
      AttemptKeeps(wasInbox, wasOwed, inbox, owed, ws, frame, ws in open, served * open, position);
      AttemptOneFrame(start, debtors, wasInbox, wasOwed, inbox, owed, ws, position, ws in open);
    }
  }

  lemma InLineSnoc(inbox: seq<Frame>, frame: Frame)
    requires InLine(inbox)
    requires !frame.snapshot ==> frame.position == 1 + if inbox == [] then 0 else LastPosition(inbox).value
    ensures InLine(inbox + [frame])
  {
    var longer := inbox + [frame];
    forall k | 0 <= k < |longer| ensures InLineAt(longer, k) {
      if k < |inbox| {
        assert InLineAt(inbox, k);
      }
    }
  }

  lemma NoGapsSnoc(inbox: seq<Frame>, frame: Frame)
    requires NoGaps(inbox) && !HasAgentPresenceSeqGap(LastPosition(inbox), frame.position, frame.snapshot)
    ensures NoGaps(inbox + [frame])
  {
    var longer := inbox + [frame];
    forall k | 0 <= k < |longer|
      ensures !HasAgentPresenceSeqGap(LastPosition(longer[..k]), longer[k].position, longer[k].snapshot)
    {
      if k < |inbox| {
        assert longer[..k] == inbox[..k];
      } else {
        assert longer[..k] == inbox;
      }
    }
  }

  method DiffMaps(before: map<ChatId, string>, next: map<ChatId, string>, considered: set<ChatId>)
    returns (states: map<ChatId, string>, cleared: set<ChatId>, after: map<ChatId, string>)
    requires "" !in before.Values
    ensures IsDiff(before, next, considered, states, cleared) && Refreshed(before, next, considered, after)
    ensures "" !in after.Values
  {
    states, cleared, after := map[], {}, before;
    var todo := considered;
    while todo != {}
      invariant todo <= considered && "" !in after.Values
      invariant IsDiff(before, next, considered - todo, states, cleared)
        && Refreshed(before, next, considered - todo, after)
      decreases todo
    {
      var id :| id in todo;
      var nextPrint, prevPrint := PrintOf(next, id), PrintOf(after, id);
      assert considered - (todo - {id}) == considered - todo + {id};
      todo := todo - {id};
      if nextPrint != prevPrint {
        if nextPrint == "" {
          after, cleared := after - {id}, cleared + {id};
        } else {
          after, states := after[id := nextPrint], states[id := nextPrint];
        }
      }
    }
    assert considered - todo == considered;
  }
}
