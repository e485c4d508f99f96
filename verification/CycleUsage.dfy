/** Usage of a cohort of cycles: a reader that reads the ledger once and selects through indexes, and the
    tally, which must be the same as over a full scan. */
module CycleUsage {
  import opened Wrappers
  import opened Sets

  datatype Billing = Priced | Subscription | UnknownBilling

  /** A usage event; `None` is a price that is not a finite number. An empty string is an absent id. */
  datatype Event = Event(isRun: bool, delegationId: string, chatId: string, usd: Option<int>, billing: Billing)

  datatype Span = Span(from: string, to: string)

  /** The jobs and child chats of one cycle. */
  datatype CycleIds = CycleIds(jobIds: seq<string>, childChatIds: seq<string>)

  datatype Tally = Tally(cost: int, priced: nat, total: nat, unknown: nat, subscription: nat, pricedCycles: set<nat>)

  const EMPTY_TALLY := Tally(0, 0, 0, 0, 0, {})

  // ---- The ids of a cohort ------------------------------------------------------------------

  datatype Cohort = Cohort(delegationIds: set<string>, chatIds: set<string>, cycleOfJob: map<string, nat>,
                           cycleOfChat: map<string, nat>)

  function LastHolder(lists: seq<seq<string>>, id: string): Option<nat> {
    if lists == [] then None
    else if id in lists[|lists| - 1] then Some(|lists| - 1)
    else LastHolder(lists[..|lists| - 1], id)
  }

  function JobLists(cycles: seq<CycleIds>): seq<seq<string>> {
    seq(|cycles|, i requires 0 <= i < |cycles| => cycles[i].jobIds)
  }

  function ChatLists(cycles: seq<CycleIds>): seq<seq<string>> {
    seq(|cycles|, i requires 0 <= i < |cycles| => cycles[i].childChatIds)
  }

  /** An index of ids: the set of all ids and, for each, the last cycle that has it. */
  ghost predicate Indexes(ids: set<string>, holder: map<string, nat>, lists: seq<seq<string>>) {
    && ids == holder.Keys
    && forall id :: LastHolder(lists, id) == if id in holder then Some(holder[id]) else None
  }

  ghost predicate IsCohort(c: Cohort, cycles: seq<CycleIds>) {
    Indexes(c.delegationIds, c.cycleOfJob, JobLists(cycles)) && Indexes(c.chatIds, c.cycleOfChat, ChatLists(cycles))
  }

  method IndexIds(lists: seq<seq<string>>) returns (ids: set<string>, holder: map<string, nat>)
    ensures Indexes(ids, holder, lists)
  {
    ids, holder := {}, map[];
    for i := 0 to |lists|
      invariant Indexes(ids, holder, lists[..i])
    {
      ghost var before := holder;
      assert lists[..i + 1][..i] == lists[..i];
      for j := 0 to |lists[i]|
        invariant ids == holder.Keys
        invariant forall id :: id in holder <==> id in before || id in lists[i][..j]
        invariant forall id :: id in holder ==> holder[id] == if id in lists[i][..j] then i else before[id]
      {
        assert lists[i][..j + 1] == lists[i][..j] + [lists[i][j]];
        ids := ids + {lists[i][j]};
        holder := holder[lists[i][j] := i];
      }
      assert lists[i][..|lists[i]|] == lists[i];
    }
    assert lists[..|lists|] == lists;
  }

  // ---- Matching and tallying ----------------------------------------------------------------

  predicate Matches(c: Cohort, e: Event) {
    (e.delegationId != "" && e.delegationId in c.delegationIds) || (e.chatId != "" && e.chatId in c.chatIds)
  }

  /** The cycle an event is priced to: by its job first, else by its chat. */
  function CycleOf(c: Cohort, e: Event): Option<nat> {
    if e.delegationId != "" && e.delegationId in c.delegationIds
    then (if e.delegationId in c.cycleOfJob then Some(c.cycleOfJob[e.delegationId]) else None)
    else if e.chatId != "" && e.chatId in c.chatIds && e.chatId in c.cycleOfChat then Some(c.cycleOfChat[e.chatId])
    else None
  }

  /** The tally after one more event. */
  function Count(c: Cohort, t: Tally, e: Event): Tally {
    if e.isRun || !Matches(c, e) then t
    else
      var counted := t.(total := t.total + 1);
      match e.billing
      case UnknownBilling => counted.(unknown := t.unknown + 1)
      case Subscription => counted.(subscription := t.subscription + 1)
      case Priced =>
        if e.usd.None? || e.usd.value <= 0 then counted
        else counted.(priced := t.priced + 1, cost := t.cost + e.usd.value,
                      pricedCycles := t.pricedCycles + if CycleOf(c, e).Some? then {CycleOf(c, e).value} else {})
  }

  function TallyOf(c: Cohort, events: seq<Event>): Tally {
    if events == [] then EMPTY_TALLY else Count(c, TallyOf(c, events[..|events| - 1]), events[|events| - 1])
  }

  lemma TallySnoc(c: Cohort, events: seq<Event>, e: Event)
    ensures TallyOf(c, events + [e]) == Count(c, TallyOf(c, events), e)
  {
    assert (events + [e])[..|events|] == events;
  }

  lemma CountCommutes(c: Cohort, t: Tally, d: Event, e: Event)
    ensures Count(c, Count(c, t, d), e) == Count(c, Count(c, t, e), d)
  {
  }

  /** An event can be counted last wherever it stands. */
  lemma {:induction false} TallyMoveLast(c: Cohort, events: seq<Event>, k: nat)
    requires k < |events|
    ensures TallyOf(c, events) == Count(c, TallyOf(c, events[..k] + events[k + 1..]), events[k])
    decreases |events|
  {
    var rest, last := events[..|events| - 1], events[|events| - 1];
    if k == |events| - 1 {
      assert events[..k] + events[k + 1..] == rest;
    } else {
      TallyMoveLast(c, rest, k);
      var short := rest[..k] + rest[k + 1..];
      assert events[..k] + events[k + 1..] == short + [last];
      TallySnoc(c, short, last);
      CountCommutes(c, TallyOf(c, short), rest[k], last);
    }
  }

  lemma WithoutOne<T>(s: seq<T>, k: nat)
    requires k < |s|
    ensures multiset(s) == multiset(s[..k] + s[k + 1..]) + multiset{s[k]}
  {
    assert s == s[..k] + [s[k]] + s[k + 1..];
  }

  lemma Cancel<T>(x: multiset<T>, y: multiset<T>, e: T)
    requires x + multiset{e} == y + multiset{e}
    ensures x == y
  {
    forall z ensures x[z] == y[z] {
      assert (x + multiset{e})[z] == (y + multiset{e})[z];
    }
  }

  /** The tally does not depend on the order of the events. */
  lemma {:induction false} TallyPermutes(c: Cohort, a: seq<Event>, b: seq<Event>)
    requires multiset(a) == multiset(b)
    ensures TallyOf(c, a) == TallyOf(c, b)
    decreases |a|
  {
    if a == [] {
      assert |b| == |multiset(b)| == |multiset(a)| == 0;
    } else {
      var rest, last := a[..|a| - 1], a[|a| - 1];
      assert a == rest + [last];
      assert last in multiset(b);
      var k :| 0 <= k < |b| && b[k] == last;
      WithoutOne(a, |a| - 1);
      WithoutOne(b, k);
      assert a[..|a| - 1] + a[|a|..] == rest;
      var others := b[..k] + b[k + 1..];
      Cancel(multiset(rest), multiset(others), last);
      TallyPermutes(c, rest, b[..k] + b[k + 1..]);
      TallyMoveLast(c, b, k);
    }
  }

  function Matching(c: Cohort, events: seq<Event>): seq<Event> {
    if events == [] then []
    else
      var last := events[|events| - 1];
      Matching(c, events[..|events| - 1]) + if Matches(c, last) then [last] else []
  }

  /** Events that match nothing do not count. */
  lemma {:induction false} TallyOfMatching(c: Cohort, events: seq<Event>)
    ensures TallyOf(c, Matching(c, events)) == TallyOf(c, events)
  {
    if events != [] {
      var rest, last := events[..|events| - 1], events[|events| - 1];
      TallyOfMatching(c, rest);
      if Matches(c, last) {
        TallySnoc(c, Matching(c, rest), last);
      } else {
        assert Matching(c, rest) + [] == Matching(c, rest);
      }
    }
  }

  // ---- What a tally counts ------------------------------------------------------------------

  predicate Counts(c: Cohort, e: Event) {
    !e.isRun && Matches(c, e)
  }

  predicate CountsPriced(c: Cohort, e: Event) {
    Counts(c, e) && e.billing == Priced && e.usd.Some? && e.usd.value > 0
  }

  ghost function Positions(events: seq<Event>, want: Event -> bool): set<int> {
    set p | 0 <= p < |events| && want(events[p])
  }

  function Dollars(c: Cohort, events: seq<Event>): int {
    if events == [] then 0
    else
      var last := events[|events| - 1];
      Dollars(c, events[..|events| - 1]) + if CountsPriced(c, last) then last.usd.value else 0
  }

  lemma PositionsSnoc(events: seq<Event>, e: Event, want: Event -> bool)
    ensures |Positions(events + [e], want)| == |Positions(events, want)| + if want(e) then 1 else 0
  {
    var all, before, last := events + [e], Positions(events, want), if want(e) then {|events|} else {};
    forall p ensures p in Positions(all, want) <==> p in before || p in last {
      assert 0 <= p < |events| ==> all[p] == events[p];
    }
    DisjointUnion(before, last, Positions(all, want));
  }

  /** Every figure of a tally is a count of events: matching ones that are not runs, those of unknown and of
      subscription billing, and those with a positive price, whose prices add up to the cost. */
  lemma {:induction false} TallyExact(c: Cohort, events: seq<Event>)
    ensures var t := TallyOf(c, events);
      && t.total == |Positions(events, (e: Event) => Counts(c, e))|
      && t.unknown == |Positions(events, (e: Event) => Counts(c, e) && e.billing == UnknownBilling)|
      && t.subscription == |Positions(events, (e: Event) => Counts(c, e) && e.billing == Subscription)|
      && t.priced == |Positions(events, (e: Event) => CountsPriced(c, e))|
      && t.cost == Dollars(c, events) >= t.priced
      && t.unknown + t.subscription + t.priced <= t.total
  {
    if events != [] {
      var rest, last := events[..|events| - 1], events[|events| - 1];
      assert events == rest + [last];
      TallyExact(c, rest);
      PositionsSnoc(rest, last, (e: Event) => Counts(c, e));
      PositionsSnoc(rest, last, (e: Event) => Counts(c, e) && e.billing == UnknownBilling);
      PositionsSnoc(rest, last, (e: Event) => Counts(c, e) && e.billing == Subscription);
      PositionsSnoc(rest, last, (e: Event) => CountsPriced(c, e));
    }
  }

  /** The priced cycles are exactly those of the events with a positive price. */
  lemma {:induction false} PricedCyclesExact(c: Cohort, events: seq<Event>, k: nat)
    ensures k in TallyOf(c, events).pricedCycles
      <==> exists e :: e in events && CountsPriced(c, e) && CycleOf(c, e) == Some(k)
  {
    if events != [] {
      var rest, last := events[..|events| - 1], events[|events| - 1];
      assert events == rest + [last];
      PricedCyclesExact(c, rest, k);
    }
  }

  // ---- Selecting through indexes ------------------------------------------------------------

  /** Positions of the events with an id, by id. */
  datatype EventIndex = EventIndex(byDelegation: map<string, seq<nat>>, byChat: map<string, seq<nat>>)

  ghost predicate IndexOk(index: map<string, seq<nat>>, events: seq<Event>, idOf: Event -> string) {
    && "" !in index
    && (forall id, k :: id in index && 0 <= k < |index[id]| ==>
        index[id][k] < |events| && idOf(events[index[id][k]]) == id)
    && (forall p :: 0 <= p < |events| && idOf(events[p]) != "" ==>
        idOf(events[p]) in index && p in index[idOf(events[p])])
  }

  function DelegationIdOf(e: Event): string {
    e.delegationId
  }

  function ChatIdOf(e: Event): string {
    e.chatId
  }

  ghost predicate BothIndexesOk(index: EventIndex, events: seq<Event>) {
    IndexOk(index.byDelegation, events, DelegationIdOf) && IndexOk(index.byChat, events, ChatIdOf)
  }

  /** One more event goes to the end of the list of its id. */
  lemma IndexStep(index: map<string, seq<nat>>, events: seq<Event>, e: Event, idOf: Event -> string, list: seq<nat>)
    requires IndexOk(index, events, idOf) && idOf(e) != ""
    requires list == if idOf(e) in index then index[idOf(e)] else []
    ensures IndexOk(index[idOf(e) := list + [|events|]], events + [e], idOf)
  {
    var own, longer, all := idOf(e), list + [|events|], events + [e];
    assert forall k :: 0 <= k < |list| ==> longer[k] == list[k];
    forall p | 0 <= p < |all| && idOf(all[p]) == own ensures p in longer {
      if p == |events| {
        assert longer[|list|] == p;
      } else {
        assert all[p] == events[p] && p in list;
      }
    }
  }

  method BuildIndex(events: seq<Event>, idOf: Event -> string) returns (index: map<string, seq<nat>>)
    ensures IndexOk(index, events, idOf)
  {
    index := map[];
    for i := 0 to |events|
      invariant IndexOk(index, events[..i], idOf)
    {
      var id := idOf(events[i]);
      assert events[..i + 1] == events[..i] + [events[i]];
      if id != "" {
        var list := if id in index then index[id] else [];
        IndexStep(index, events[..i], events[i], idOf, list);
        index := index[id := list + [i]];
      }
    }
    assert events[..|events|] == events;
  }

  /** The positions in a list are those already selected or listed under one of the ids. */
  ghost predicate Holds(selected: seq<nat>, before: seq<nat>, index: map<string, seq<nat>>, ids: set<string>) {
    && NoRepeats(selected)
    && (forall p :: p in selected <==> p in before || exists id :: id in ids && id in index && p in index[id])
  }

  /** Adds the positions listed under each id, each once, as a `Set` of events does. */
  method AddListed(before: seq<nat>, index: map<string, seq<nat>>, ids: set<string>) returns (selected: seq<nat>)
    requires NoRepeats(before)
    ensures Holds(selected, before, index, ids)
  {
    selected := before;
    var todo := ids;
    while todo != {}
      invariant todo <= ids && Holds(selected, before, index, ids - todo)
      decreases todo
    {
      var id :| id in todo;
      if id in index {
        var more := AddPositions(selected, index[id]);
        HoldsMore(selected, before, index, ids - todo, id, more);
        selected := more;
      }
      assert ids - (todo - {id}) == ids - todo + {id};
      todo := todo - {id};
    }
    assert ids - todo == ids;
  }

  lemma HoldsMore(selected: seq<nat>, before: seq<nat>, index: map<string, seq<nat>>, ids: set<string>, id: string,
                  more: seq<nat>)
    requires Holds(selected, before, index, ids) && id in index
    requires NoRepeats(more)
    requires forall p :: p in more <==> p in selected || p in index[id]
    ensures Holds(more, before, index, ids + {id})
  {
  }

  method AddPositions(selected: seq<nat>, list: seq<nat>) returns (more: seq<nat>)
    requires NoRepeats(selected)
    ensures NoRepeats(more)
    ensures forall p :: p in more <==> p in selected || p in list
  {
    more := selected;
    for k := 0 to |list|
      invariant NoRepeats(more)
      invariant forall p :: p in more <==> p in selected || p in list[..k]
    {
      assert list[..k + 1] == list[..k] + [list[k]];
      if list[k] !in more {
        more := more + [list[k]];
      }
    }
    assert list[..|list|] == list;
  }

  function At(events: seq<Event>, positions: seq<nat>): seq<Event>
    requires forall p :: p in positions ==> p < |events|
  {
    seq(|positions|, k requires 0 <= k < |positions| => assert positions[k] in positions; events[positions[k]])
  }

  /** The positions are exactly those of the matching events, each once. */
  ghost predicate PicksMatching(c: Cohort, events: seq<Event>, positions: seq<nat>) {
    && NoRepeats(positions)
    && (forall p :: p in positions ==> p < |events| && Matches(c, events[p]))
    && (forall p :: 0 <= p < |events| && Matches(c, events[p]) ==> p in positions)
  }

  lemma AtPrefix(events: seq<Event>, n: nat, positions: seq<nat>)
    requires n <= |events| && forall p :: p in positions ==> p < n
    ensures At(events[..n], positions) == At(events, positions)
  {
    forall k | 0 <= k < |positions| ensures At(events[..n], positions)[k] == At(events, positions)[k] {
      assert positions[k] in positions;
    }
  }

  lemma AtWithout(events: seq<Event>, positions: seq<nat>, k: nat, others: seq<nat>)
    requires k < |positions| && others == positions[..k] + positions[k + 1..]
    requires forall p :: p in positions ==> p < |events|
    requires forall p :: p in others ==> p < |events|
    requires positions[k] < |events|
    ensures multiset(At(events, positions)) == multiset(At(events, others)) + multiset{events[positions[k]]}
  {
    var picked := At(events, positions);
    assert At(events, others) == picked[..k] + picked[k + 1..];
    WithoutOne(picked, k);
  }

  /** Such positions pick a permutation of the matching events. */
  lemma {:induction false} PickedMatching(c: Cohort, events: seq<Event>, positions: seq<nat>)
    requires PicksMatching(c, events, positions)
    ensures multiset(At(events, positions)) == multiset(Matching(c, events))
    decreases |events|
  {
    if events == [] {
      assert forall p :: p in multiset(positions) ==> p in positions;
      assert |positions| == |multiset(positions)|;
    } else if Matches(c, events[|events| - 1]) {
      var n := |events| - 1;
      assert n in positions;
      var k :| 0 <= k < |positions| && positions[k] == n;
      Without(positions, k);
      var others := positions[..k] + positions[k + 1..];
      assert forall p :: p in others ==> p < n;
      PickedMatching(c, events[..n], others);
      AtPrefix(events, n, others);
      AtWithout(events, positions, k, others);
      assert multiset(Matching(c, events)) == multiset(Matching(c, events[..n])) + multiset{events[n]};
    } else {
      var n := |events| - 1;
      assert n !in positions;
      PickedMatching(c, events[..n], positions);
      AtPrefix(events, n, positions);
    }
  }

  lemma Without(positions: seq<nat>, k: nat)
    requires k < |positions| && NoRepeats(positions)
    ensures var others := positions[..k] + positions[k + 1..];
      && NoRepeats(others)
      && (forall p :: p in others <==> p in positions && p != positions[k])
  {
    var others := positions[..k] + positions[k + 1..];
    forall p ensures p in others <==> p in positions && p != positions[k] {
      if p in positions && p != positions[k] {
        var i :| 0 <= i < |positions| && positions[i] == p;
        assert others[if i < k then i else i - 1] == p;
      }
    }
  }

  // ---- The shared reader --------------------------------------------------------------------

  /** The usage ledger: what a read of a span gives now. `None` is a failed read. */
  class UsageLedger {
    const content: Span -> Option<seq<Event>>
    var calls: nat

    constructor (content: Span -> Option<seq<Event>>)
      ensures this.content == content && calls == 0
    {
      this.content := content;
      calls := 0;
    }

    method Read(span: Span) returns (events: Option<seq<Event>>)
      modifies this
      ensures events == content(span) && calls == old(calls) + 1
    {
      calls := calls + 1;
      events := content(span);
    }
  }

  datatype Cached = Cached(span: Span, events: Option<seq<Event>>)

  class SharedUsageReader {
    const source: UsageLedger
    var cached: Option<Cached>
    var index: Option<EventIndex>

    ghost predicate Valid()
      reads this
    {
      && (cached.Some? ==> cached.value.events == source.content(cached.value.span))
      && (index.Some? ==>
          cached.Some? && cached.value.events.Some? && BothIndexesOk(index.value, cached.value.events.value))
    }

    constructor (source: UsageLedger)
      ensures Valid() && this.source == source && cached == None
    {
      this.source := source;
      cached, index := None, None;
    }

    /** One ledger read per span; a failed read is remembered as well. */
    method Read(span: Span) returns (events: Option<seq<Event>>)
      requires Valid()
      modifies this, source
      ensures Valid() && events == source.content(span)
      ensures cached == Some(Cached(span, events))
      ensures source.calls == old(source.calls) + if old(cached).Some? && old(cached).value.span == span then 0 else 1
      ensures old(cached).Some? && old(cached).value.span == span ==> index == old(index)
    {
      if cached.None? || cached.value.span != span {
        var fetched := source.Read(span);
        cached, index := Some(Cached(span, fetched)), None;
      }
      events := cached.value.events;
    }

    /** Every event of the span that matches the cohort, each once. */
    method Select(span: Span, c: Cohort) returns (picked: Option<seq<Event>>)
      requires Valid()
      modifies this, source
      ensures Valid() && (picked.None? <==> source.content(span).None?)
      ensures picked.Some? ==> multiset(picked.value) == multiset(Matching(c, source.content(span).value))
      ensures cached.Some? && cached.value.span == span
      ensures source.calls == old(source.calls) + if old(cached).Some? && old(cached).value.span == span then 0 else 1
    {
      var events := Read(span);
      if events.None? {
        return None;
      }
      if index.None? {
        var byDelegation := BuildIndex(events.value, DelegationIdOf);
        var byChat := BuildIndex(events.value, ChatIdOf);
        index := Some(EventIndex(byDelegation, byChat));
      }
      var positions := SelectPositions(index.value, events.value, c);
      PickedMatching(c, events.value, positions);
      return Some(At(events.value, positions));
    }
  }

  method SelectPositions(index: EventIndex, ghost events: seq<Event>, c: Cohort) returns (positions: seq<nat>)
    requires BothIndexesOk(index, events)
    ensures PicksMatching(c, events, positions)
  {
    var byJob := AddListed([], index.byDelegation, c.delegationIds);
    positions := AddListed(byJob, index.byChat, c.chatIds);
    forall p: nat ensures p in positions <==> p < |events| && Matches(c, events[p]) {
      Listed(index.byDelegation, events, DelegationIdOf, c.delegationIds, p);
      Listed(index.byChat, events, ChatIdOf, c.chatIds, p);
    }
  }

  lemma Listed(index: map<string, seq<nat>>, events: seq<Event>, idOf: Event -> string, ids: set<string>, p: nat)
    requires IndexOk(index, events, idOf)
    ensures (exists id :: id in ids && id in index && p in index[id])
      <==> p < |events| && idOf(events[p]) != "" && idOf(events[p]) in ids
  {
    if id :| id in ids && id in index && p in index[id] {
      var k :| 0 <= k < |index[id]| && index[id][k] == p;
    }
  }

  // ---- The sum ------------------------------------------------------------------------------

  method CountAll(c: Cohort, events: seq<Event>) returns (t: Tally)
    ensures t == TallyOf(c, events)
  {
    t := EMPTY_TALLY;
    for i := 0 to |events|
      invariant t == TallyOf(c, events[..i])
    {
      assert events[..i + 1] == events[..i] + [events[i]];
      TallySnoc(c, events[..i], events[i]);
      t := Count(c, t, events[i]);
    }
    assert events[..|events|] == events;
  }

  /** The usage of a cohort. Whether the reader can select or only read, the tally is that of a full scan of
      the span, and a failed read or a cohort without ids gives the empty tally. */
  method SumCycleCohortUsage(cycles: seq<CycleIds>, span: Span, reader: SharedUsageReader, selects: bool)
    returns (t: Tally, ghost c: Cohort)
    requires reader.Valid()
    modifies reader, reader.source
    ensures reader.Valid() && IsCohort(c, cycles)
    ensures (c.delegationIds == {} && c.chatIds == {}) || reader.source.content(span).None? ==> t == EMPTY_TALLY
    ensures reader.source.content(span).Some? ==> t == TallyOf(c, reader.source.content(span).value)
  {
    var delegationIds, cycleOfJob := IndexIds(JobLists(cycles));
    var chatIds, cycleOfChat := IndexIds(ChatLists(cycles));
    var cohort := Cohort(delegationIds, chatIds, cycleOfJob, cycleOfChat);
    c := cohort;
    if delegationIds == {} && chatIds == {} {
      if reader.source.content(span).Some? {
        NothingMatches(cohort, reader.source.content(span).value);
      }
      return EMPTY_TALLY, c;
    }
    var events: Option<seq<Event>>;
    if selects {
      events := reader.Select(span, cohort);
    } else {
      events := reader.Read(span);
    }
    if events.None? {
      return EMPTY_TALLY, c;
    }
    t := CountAll(cohort, events.value);
    if selects {
      var all := reader.source.content(span).value;
      TallyPermutes(cohort, events.value, Matching(cohort, all));
      TallyOfMatching(cohort, all);
    }
  }

  /** The event has a positive price that counts. */
  predicate IsPriced(e: Event) {
    !e.isRun && e.billing == Priced && e.usd.Some? && e.usd.value > 0
  }

  /** The cycle an event is priced to, in terms of the cycles: the last one with its job, and for an event of no job
      of the cohort the last one with its chat. An event without an id has none. */
  ghost predicate PricedTo(cycles: seq<CycleIds>, e: Event, k: nat) {
    if e.delegationId != "" && LastHolder(JobLists(cycles), e.delegationId).Some?
    then LastHolder(JobLists(cycles), e.delegationId) == Some(k)
    else e.chatId != "" && LastHolder(ChatLists(cycles), e.chatId) == Some(k)
  }

  /** The priced cycles of a tally are those some priced event belongs to. */
  lemma PricedCyclesOf(cycles: seq<CycleIds>, c: Cohort, events: seq<Event>, k: nat)
    requires IsCohort(c, cycles)
    ensures k in TallyOf(c, events).pricedCycles <==> exists e :: e in events && IsPriced(e) && PricedTo(cycles, e, k)
  {
    PricedCyclesExact(c, events, k);
    forall e ensures CountsPriced(c, e) && CycleOf(c, e) == Some(k) <==> IsPriced(e) && PricedTo(cycles, e, k) {
      assert LastHolder(JobLists(cycles), e.delegationId).Some? <==> e.delegationId in c.delegationIds;
      assert LastHolder(ChatLists(cycles), e.chatId).Some? <==> e.chatId in c.chatIds;
    }
  }

  /** The event belongs to a job or a chat of some cycle. */
  ghost predicate Belongs(cycles: seq<CycleIds>, e: Event) {
    || (e.delegationId != "" && exists i :: 0 <= i < |cycles| && e.delegationId in cycles[i].jobIds)
    || (e.chatId != "" && exists i :: 0 <= i < |cycles| && e.chatId in cycles[i].childChatIds)
  }

  lemma {:induction false} HolderExists(lists: seq<seq<string>>, id: string)
    ensures LastHolder(lists, id).Some? <==> exists i :: 0 <= i < |lists| && id in lists[i]
    ensures LastHolder(lists, id).Some? ==>
      var last := LastHolder(lists, id).value;
      last < |lists| && id in lists[last] && forall i :: last < i < |lists| ==> id !in lists[i]
  {
    if lists != [] && id !in lists[|lists| - 1] {
      HolderExists(lists[..|lists| - 1], id);
    }
  }

  /** The events of a cohort are those of its jobs and chats. */
  lemma MatchesBelongs(cycles: seq<CycleIds>, c: Cohort, e: Event)
    requires IsCohort(c, cycles)
    ensures Matches(c, e) <==> Belongs(cycles, e)
  {
    HolderExists(JobLists(cycles), e.delegationId);
    HolderExists(ChatLists(cycles), e.chatId);
    var jobs, chats := JobLists(cycles), ChatLists(cycles);
    assert LastHolder(jobs, e.delegationId).Some? <==> e.delegationId in c.delegationIds;
    assert LastHolder(chats, e.chatId).Some? <==> e.chatId in c.chatIds;
    assert forall i :: 0 <= i < |cycles| ==> jobs[i] == cycles[i].jobIds && chats[i] == cycles[i].childChatIds;
  }

  lemma {:induction false} NothingMatches(c: Cohort, events: seq<Event>)
    requires c.delegationIds == {} && c.chatIds == {}
    ensures TallyOf(c, events) == EMPTY_TALLY
  {
    if events != [] {
      NothingMatches(c, events[..|events| - 1]);
    }
  }
}
