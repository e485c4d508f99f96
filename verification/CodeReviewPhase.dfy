/** The two-phase code review of a leaf: one audit, then closure rounds, with an optional pool of two
    reviewers. Starts and finishes return a patched workflow row, or `None` for no patch. */
module CodeReviewPhase {
  import opened Wrappers
  import opened Sets

  datatype JobId = NoJob | Job(name: string)

  datatype Mode = Audit | Closure

  /** A credible verdict; `Other` is any verdict that is neither PASS nor FAIL. */
  datatype Verdict = Pass | Fail | Other

  datatype Membership = Unrecorded | PoolMember | Learning | OutsidePool

  datatype Resolution = Pending | ResolvedPass | ResolvedFail | ResolvedDegraded

  datatype Stop = Running | ClosureRoundsExhausted | ReviewerPoolDegraded

  /** A closure round key: a slot `0::n` when round and material are both absent, else round and material. */
  datatype Key = NoKey | Slot(slot: nat) | AtMaterial(round: nat, material: string) | AtRound(round: nat)

  datatype PoolRound = PoolRound(
    key: Key, epoch: nat, mode: Mode, started: seq<JobId>, results: map<JobId, Verdict>, reviewers: map<JobId, string>,
    memberships: map<JobId, Membership>, superseded: seq<JobId>, resolved: Resolution)

  datatype Workflow = Workflow(
    auditDone: bool, closureCount: nat, auditReviewer: Option<string>, epoch: nat, lastKey: Key,
    poolRound: Option<PoolRound>, stop: Stop, round: nat, material: string, maxClosures: nat)

  /** A review about to start. `poolExpected` is the resolved pool policy. */
  datatype Start = Start(id: JobId, mode: Mode, poolExpected: bool, reviewer: Option<string>)

  /** A finished review: `identity` is the canonical reviewer, `display` the raw executor key. */
  datatype Finish = Finish(
    id: JobId, mode: Mode, verdict: Verdict, material: string, identity: Option<string>, display: Option<string>,
    membership: Membership)

  const EXPECTED_MEMBERS := 2
  const MAX_IDS := 8

  // ---- Keys ---------------------------------------------------------------------------------

  function DegenerateKey(wf: Workflow): Key {
    if wf.lastKey.Slot? && wf.closureCount > wf.lastKey.slot then wf.lastKey else Slot(wf.closureCount)
  }

  function BuildKey(wf: Workflow, reviewMaterial: string): Key {
    var material := if reviewMaterial != "" then reviewMaterial else wf.material;
    if material != "" then AtMaterial(wf.round, material)
    else if wf.round == 0 then DegenerateKey(wf)
    else AtRound(wf.round)
  }

  function FindPoolRound(wf: Workflow, id: JobId): Option<PoolRound> {
    if id != NoJob && wf.poolRound.Some? && wf.poolRound.value.epoch == wf.epoch && id in wf.poolRound.value.started
    then wf.poolRound else None
  }

  /** The idempotency key of a finish. */
  datatype PatchKey = PoolKey(id: JobId) | AuditKey(id: JobId) | ClosureKey(epoch: nat, key: Key)

  function FinishKey(wf: Workflow, f: Finish): PatchKey {
    if FindPoolRound(wf, f.id).Some? then PoolKey(f.id)
    else if f.mode == Audit then AuditKey(f.id)
    else ClosureKey(wf.epoch, BuildKey(wf, f.material))
  }

  // ---- Starts -------------------------------------------------------------------------------

  /** The start gate without a resume. */
  predicate MayStart(wf: Workflow, mode: Mode) {
    && wf.stop == Running
    && (mode == Closure ==> wf.closureCount < wf.maxClosures)
  }

  function ModeOf(wf: Workflow): Mode {
    if wf.auditDone then Closure else Audit
  }

  function LastIds(ids: seq<JobId>): seq<JobId> {
    if |ids| <= MAX_IDS then ids else ids[|ids| - MAX_IDS..]
  }

  function OnClosureStart(wf: Workflow): Option<Workflow> {
    if wf.lastKey == NoKey then None else Some(wf.(lastKey := NoKey))
  }

  /** The start extends the current record instead of opening another one. */
  predicate Joins(wf: Workflow, s: Start) {
    && wf.poolRound.Some? && wf.poolRound.value.epoch == wf.epoch && wf.poolRound.value.key == BuildKey(wf, "")
    && (wf.poolRound.value.resolved == Pending
        || (!wf.poolRound.value.key.Slot? && |wf.poolRound.value.started| < EXPECTED_MEMBERS))
  }

  function WithReviewer(reviewers: map<JobId, string>, id: JobId, reviewer: Option<string>): map<JobId, string> {
    if reviewer.Some? then reviewers[id := reviewer.value] else reviewers
  }

  function OnStart(wf: Workflow, s: Start): Option<Workflow> {
    var legacy := if s.mode == Closure then OnClosureStart(wf) else None;
    if s.id == NoJob then legacy
    else if wf.poolRound.Some? && wf.poolRound.value.epoch == wf.epoch && wf.poolRound.value.key == BuildKey(wf, "")
      && s.id in wf.poolRound.value.started then None
    else if Joins(wf, s) then
      var record := wf.poolRound.value;
      Some(wf.(poolRound := Some(record.(started := LastIds(record.started + [s.id]),
                                         reviewers := WithReviewer(record.reviewers, s.id, s.reviewer)))))
    else
      var base := if legacy.Some? then legacy.value else wf;
      if !s.poolExpected then (if wf.poolRound.None? then legacy else Some(base.(poolRound := None)))
      else
        var superseded :=
          if wf.poolRound.Some? then LastIds(wf.poolRound.value.superseded + wf.poolRound.value.started) else [];
        Some(base.(poolRound := Some(PoolRound(
          BuildKey(wf, ""), wf.epoch, s.mode, [s.id], map[], WithReviewer(map[], s.id, s.reviewer), map[],
          superseded, Pending))))
  }

  // ---- Finishes -----------------------------------------------------------------------------

  predicate Eligible(r: PoolRound, id: JobId) {
    id in r.results && r.results[id] == Pass && !(id in r.memberships && r.memberships[id] == OutsidePool)
  }

  function PassIds(r: PoolRound): set<JobId> {
    set id | id in r.results && Eligible(r, id)
  }

  function PassIdentities(r: PoolRound): set<string> {
    set id | id in r.results && Eligible(r, id) && id in r.reviewers :: r.reviewers[id]
  }

  predicate HasNonPass(r: PoolRound) {
    exists id :: id in r.results && r.results[id] != Pass
  }

  predicate HasFail(r: PoolRound) {
    exists id :: id in r.results && r.results[id] == Fail
  }

  /** The record with one more result. */
  function Recorded(r: PoolRound, f: Finish): PoolRound {
    r.(results := r.results[f.id := f.verdict],
       reviewers := WithReviewer(r.reviewers, f.id, if f.identity.Some? then f.identity else f.display),
       memberships := if f.membership == Unrecorded then r.memberships else r.memberships[f.id := f.membership])
  }

  function PoolFinish(wf: Workflow, before: PoolRound, f: Finish): Option<Workflow> {
    var r := Recorded(before, f);
    if before.resolved != Pending then None
    else if !HasNonPass(r) && |PassIdentities(r)| < EXPECTED_MEMBERS then
      if |PassIds(r)| >= EXPECTED_MEMBERS
      then Some(wf.(stop := ReviewerPoolDegraded, poolRound := Some(r.(resolved := ResolvedDegraded))))
      else Some(wf.(poolRound := Some(r)))
    else if !HasNonPass(r) then
      Some(wf.(auditDone := false, closureCount := 0, auditReviewer := None, lastKey := NoKey, epoch := wf.epoch + 1,
               poolRound := Some(r.(resolved := ResolvedPass, epoch := wf.epoch + 1))))
    else if r.mode == Audit then
      Some(wf.(auditDone := true, closureCount := 0, lastKey := NoKey, epoch := wf.epoch + 1,
               auditReviewer := if f.display.Some? then f.display else wf.auditReviewer,
               poolRound := Some(r.(resolved := ResolvedFail, epoch := wf.epoch + 1))))
    else
      Some(wf.(closureCount := wf.closureCount + 1, lastKey := r.key, poolRound := Some(r.(resolved := ResolvedFail)),
               stop := if HasFail(r) && wf.closureCount + 1 >= wf.maxClosures then ClosureRoundsExhausted else wf.stop))
  }

  function OnFinish(wf: Workflow, f: Finish): Option<Workflow> {
    var record := FindPoolRound(wf, f.id);
    var key := BuildKey(wf, f.material);
    if record.Some? then PoolFinish(wf, record.value, f)
    else if f.verdict == Pass then
      Some(wf.(auditDone := false, closureCount := 0, auditReviewer := None, lastKey := NoKey, epoch := wf.epoch + 1))
    else if f.mode == Audit then
      Some(wf.(auditDone := true, closureCount := 0, lastKey := NoKey, epoch := wf.epoch + 1,
               auditReviewer := if f.display.Some? then f.display else wf.auditReviewer))
    else if wf.lastKey == key && key != NoKey then None
    else
      Some(wf.(closureCount := wf.closureCount + 1, lastKey := key,
               stop := if f.verdict == Fail && wf.closureCount + 1 >= wf.maxClosures then ClosureRoundsExhausted
                 else wf.stop))
  }

  // ---- One pool round -----------------------------------------------------------------------

  /** Two eligible PASS results from distinct reviewers. */
  ghost predicate TwoReviewersPassed(r: PoolRound) {
    exists a, b ::
      Eligible(r, a) && Eligible(r, b) && a in r.reviewers && b in r.reviewers && r.reviewers[a] != r.reviewers[b]
  }

  lemma AtLeastTwo<T>(s: set<T>)
    ensures |s| >= 2 <==> exists x, y :: x in s && y in s && x != y
  {
    if |s| >= 2 {
      var x :| x in s;
      assert |s - {x}| >= 1;
      var y :| y in s - {x};
    }
    if x, y :| x in s && y in s && x != y {
      assert {x, y} <= s;
      SubsetSize({x, y}, s);
    }
  }

  lemma CountsReviewers(r: PoolRound)
    ensures |PassIdentities(r)| >= EXPECTED_MEMBERS <==> TwoReviewersPassed(r)
  {
    AtLeastTwo(PassIdentities(r));
    if TwoReviewersPassed(r) {
      var a, b :| Eligible(r, a) && Eligible(r, b) && a in r.reviewers && b in r.reviewers
        && r.reviewers[a] != r.reviewers[b];
      assert r.reviewers[a] in PassIdentities(r) && r.reviewers[b] in PassIdentities(r);
    }
  }

  /** What happens to a record between its opening and its replacement: siblings join, members finish. */
  datatype Event = Joined(start: Start) | Finished(finish: Finish)

  function Next(wf: Workflow, e: Event): Workflow {
    var after := if e.Joined? then OnStart(wf, e.start) else OnFinish(wf, e.finish);
    if after.Some? then after.value else wf
  }

  /** A fresh sibling that joins a record with room, or any finish of a member, also repeated or late. */
  ghost predicate Belongs(wf: Workflow, e: Event)
    requires wf.poolRound.Some?
  {
    var r := wf.poolRound.value;
    match e
    case Joined(s) => s.id != NoJob && s.id !in r.started && s.id !in r.results && Joins(wf, s) && |r.started| < MAX_IDS
    case Finished(f) => f.id != NoJob && f.id in r.started
  }

  function Run(wf: Workflow, events: seq<Event>): Workflow {
    if events == [] then wf else Next(Run(wf, events[..|events| - 1]), events[|events| - 1])
  }

  ghost predicate IsRound(wf: Workflow, events: seq<Event>) {
    events != [] ==>
      var before := Run(wf, events[..|events| - 1]);
      IsRound(wf, events[..|events| - 1]) && before.poolRound.Some? && Belongs(before, events[|events| - 1])
  }

  /** The row right after a start has opened a record. */
  ghost predicate JustOpened(wf: Workflow) {
    && wf.poolRound.Some? && wf.poolRound.value.epoch == wf.epoch && wf.poolRound.value.key != NoKey
    && wf.poolRound.value.resolved == Pending && wf.poolRound.value.results == map[]
    && |wf.poolRound.value.started| == 1
  }

  /** Starts that do not join open a record in this shape. */
  lemma StartOpens(wf: Workflow, s: Start)
    requires s.id != NoJob && s.poolExpected && !Joins(wf, s)
    requires wf.poolRound.Some? ==> s.id !in wf.poolRound.value.started
    ensures OnStart(wf, s).Some? && JustOpened(OnStart(wf, s).value)
    ensures OnStart(wf, s).value.poolRound.value.started == [s.id]
  {
  }

  ghost predicate SameCounters(a: Workflow, b: Workflow) {
    a.auditDone == b.auditDone && a.closureCount == b.closureCount && a.auditReviewer == b.auditReviewer
    && a.epoch == b.epoch && a.lastKey == b.lastKey
  }

  /** The single effect a resolution has on the counters the round was opened with. */
  ghost predicate OneEffect(opening: Workflow, now: Workflow, mode: Mode, resolved: Resolution, key: Key) {
    match resolved
    case Pending => SameCounters(opening, now)
    case ResolvedDegraded => SameCounters(opening, now)
    case ResolvedPass => !now.auditDone && now.closureCount == 0 && now.auditReviewer == None && now.lastKey == NoKey
      && now.epoch == opening.epoch + 1
    case ResolvedFail =>
      && (mode == Audit ==>
          now.auditDone && now.closureCount == 0 && now.lastKey == NoKey && now.epoch == opening.epoch + 1)
      && (mode == Closure ==> now.auditDone == opening.auditDone && now.closureCount == opening.closureCount + 1
                              && now.lastKey == key && now.epoch == opening.epoch)
  }

  /** The stop a round leaves: a degraded round blocks, and a failed closure blocks at the cap. */
  ghost function StopAfter(opening: Workflow, r: PoolRound): Stop {
    if r.resolved == ResolvedDegraded then ReviewerPoolDegraded
    else if r.resolved == ResolvedFail && r.mode == Closure && HasFail(r)
      && opening.closureCount + 1 >= opening.maxClosures
    then ClosureRoundsExhausted
    else opening.stop
  }

  /** What the results of a record say about its resolution. */
  ghost predicate Justified(r: PoolRound) {
    match r.resolved
    case Pending => !HasNonPass(r) && !TwoReviewersPassed(r) && |PassIds(r)| < EXPECTED_MEMBERS
    case ResolvedPass => !HasNonPass(r) && TwoReviewersPassed(r)
    case ResolvedFail => HasNonPass(r)
    case ResolvedDegraded => !HasNonPass(r) && !TwoReviewersPassed(r) && |PassIds(r)| >= EXPECTED_MEMBERS
  }

  ghost predicate RoundOk(opening: Workflow, now: Workflow)
    requires opening.poolRound.Some?
  {
    && now.poolRound.Some? && now.poolRound.value.epoch == now.epoch
    && now.poolRound.value.key == opening.poolRound.value.key
    && now.poolRound.value.mode == opening.poolRound.value.mode
    && now.maxClosures == opening.maxClosures
    && Justified(now.poolRound.value) && now.stop == StopAfter(opening, now.poolRound.value)
    && OneEffect(opening, now, opening.poolRound.value.mode, now.poolRound.value.resolved, opening.poolRound.value.key)
  }

  lemma JoinKeepsRound(opening: Workflow, now: Workflow, s: Start)
    requires opening.poolRound.Some? && RoundOk(opening, now) && Belongs(now, Joined(s))
    ensures RoundOk(opening, Next(now, Joined(s)))
    ensures Next(now, Joined(s)).poolRound.value.resolved == now.poolRound.value.resolved
  {
    var r, r' := now.poolRound.value, Next(now, Joined(s)).poolRound.value;
    assert forall id :: Eligible(r', id) <==> Eligible(r, id);
    assert PassIds(r') == PassIds(r);
    assert TwoReviewersPassed(r') <==> TwoReviewersPassed(r) by {
      assert forall id ::
        Eligible(r, id) ==>
          (id in r'.reviewers <==> id in r.reviewers) && (id in r.reviewers ==> r'.reviewers[id] == r.reviewers[id]);
    }
  }

  /** The results of a record decide how a finish resolves it. */
  lemma FinishJustified(now: Workflow, f: Finish)
    requires now.poolRound.Some? && now.poolRound.value.epoch == now.epoch && now.poolRound.value.resolved == Pending
    requires Belongs(now, Finished(f))
    ensures Next(now, Finished(f)).poolRound.Some? && Justified(Next(now, Finished(f)).poolRound.value)
  {
    var r, r' := Recorded(now.poolRound.value, f), Next(now, Finished(f)).poolRound.value;
    CountsReviewers(r);
    assert r' == r.(resolved := r'.resolved, epoch := r'.epoch);
    assert PassIds(r') == PassIds(r);
    assert forall id :: Eligible(r', id) <==> Eligible(r, id);
  }

  /** And the row takes the effect of that resolution. */
  lemma FinishEffect(now: Workflow, f: Finish)
    requires now.poolRound.Some? && now.poolRound.value.epoch == now.epoch && now.poolRound.value.resolved == Pending
    requires now.stop == StopAfter(now, now.poolRound.value)
    requires Belongs(now, Finished(f))
    ensures var after := Next(now, Finished(f));
      && after.poolRound.Some? && after.poolRound.value.epoch == after.epoch
      && after.poolRound.value.key == now.poolRound.value.key && after.poolRound.value.mode == now.poolRound.value.mode
      && after.maxClosures == now.maxClosures && after.stop == StopAfter(now, after.poolRound.value)
      && OneEffect(now, after, now.poolRound.value.mode, after.poolRound.value.resolved, now.poolRound.value.key)
  {
    var r, r' := Recorded(now.poolRound.value, f), Next(now, Finished(f)).poolRound.value;
    assert r' == r.(resolved := r'.resolved, epoch := r'.epoch);
    assert HasFail(r') <==> HasFail(r);
  }

  lemma FinishKeepsRound(opening: Workflow, now: Workflow, f: Finish)
    requires opening.poolRound.Some? && RoundOk(opening, now) && Belongs(now, Finished(f))
    ensures RoundOk(opening, Next(now, Finished(f)))
    ensures now.poolRound.value.resolved != Pending ==>
      Next(now, Finished(f)).poolRound.value.resolved == now.poolRound.value.resolved
  {
    if now.poolRound.value.resolved == Pending {
      FinishJustified(now, f);
      FinishEffect(now, f);
      assert SameCounters(opening, now);
    }
  }

  /** Over every interleaving of sibling starts and member finishes, a round resolves PASS only with no
      other verdict and two distinct eligible reviewers, and its effect on the audit flag, the closure
      counter and the epoch is applied exactly once, by the finish that resolves it. */
  lemma {:induction false} PoolRoundSafe(opening: Workflow, events: seq<Event>)
    requires JustOpened(opening) && IsRound(opening, events)
    ensures RoundOk(opening, Run(opening, events))
  {
    if events == [] {
      assert PassIds(opening.poolRound.value) == {};
    } else {
      PoolRoundSafe(opening, events[..|events| - 1]);
      var before := Run(opening, events[..|events| - 1]);
      match events[|events| - 1]
      case Joined(s) => JoinKeepsRound(opening, before, s);
      case Finished(f) => FinishKeepsRound(opening, before, f);
    }
  }

  /** Once set, the resolution of a round never changes. */
  lemma {:induction false} ResolutionIsFinal(opening: Workflow, events: seq<Event>, i: nat)
    requires JustOpened(opening) && IsRound(opening, events) && i <= |events|
    ensures Run(opening, events[..i]).poolRound.Some? && Run(opening, events).poolRound.Some?
    ensures var then' := Run(opening, events[..i]).poolRound.value.resolved;
      then' != Pending ==> Run(opening, events).poolRound.value.resolved == then'
    decreases |events|
  {
    PoolRoundSafe(opening, events);
    if i == |events| {
      assert events[..i] == events;
    } else {
      var earlier := events[..|events| - 1];
      assert earlier[..i] == events[..i];
      ResolutionIsFinal(opening, earlier, i);
      PoolRoundSafe(opening, earlier);
      var before := Run(opening, earlier);
      match events[|events| - 1]
      case Joined(s) => JoinKeepsRound(opening, before, s);
      case Finished(f) => FinishKeepsRound(opening, before, f);
    }
  }

  /** A round that the gate let start stays within the closure cap. */
  lemma PoolRoundWithinCap(opening: Workflow, events: seq<Event>)
    requires JustOpened(opening) && IsRound(opening, events)
    requires opening.closureCount <= opening.maxClosures
    requires opening.poolRound.value.mode == Closure ==> opening.closureCount < opening.maxClosures
    ensures Run(opening, events).closureCount <= opening.maxClosures
  {
    PoolRoundSafe(opening, events);
  }

  // ---- From the events to the resolution ----------------------------------------------------

  function IdentityOf(f: Finish): Option<string> {
    if f.identity.Some? then f.identity else f.display
  }

  /** A recorded result is the verdict of a finish of that member, which was not outside the pool if the
      result counts. */
  ghost predicate ResultFrom(events: seq<Event>, r: PoolRound, id: JobId)
    requires id in r.results
  {
    exists f ::
      Finished(f) in events && f.id == id && f.verdict == r.results[id]
        && (Eligible(r, id) ==> f.membership != OutsidePool)
  }

  /** A recorded identity was given when the member started or finished. */
  ghost predicate ReviewerFrom(opening: PoolRound, events: seq<Event>, id: JobId, key: string) {
    || (id in opening.reviewers && opening.reviewers[id] == key)
    || (exists f :: Finished(f) in events && f.id == id && IdentityOf(f) == Some(key))
    || (exists s :: Joined(s) in events && s.id == id && s.reviewer == Some(key))
  }

  ghost predicate RecordFrom(opening: PoolRound, events: seq<Event>, r: PoolRound) {
    && (forall id :: id in r.results ==> ResultFrom(events, r, id))
    && (forall id :: id in r.reviewers ==> ReviewerFrom(opening, events, id, r.reviewers[id]))
    && (r.resolved == Pending ==> forall f :: Finished(f) in events ==> f.verdict == Pass)
  }

  lemma RecordGrows(opening: PoolRound, events: seq<Event>, e: Event, r: PoolRound, id: JobId)
    ensures id in r.results && ResultFrom(events, r, id) ==> ResultFrom(events + [e], r, id)
    ensures forall key :: ReviewerFrom(opening, events, id, key) ==> ReviewerFrom(opening, events + [e], id, key)
  {
    assert forall x :: x in events ==> x in events + [e];
  }

  lemma JoinRecordFrom(opening: PoolRound, events: seq<Event>, wf: Workflow, s: Start)
    requires wf.poolRound.Some? && Belongs(wf, Joined(s)) && RecordFrom(opening, events, wf.poolRound.value)
    ensures RecordFrom(opening, events + [Joined(s)], Next(wf, Joined(s)).poolRound.value)
  {
    var r, r', all := wf.poolRound.value, Next(wf, Joined(s)).poolRound.value, events + [Joined(s)];
    assert Joined(s) in all;
    forall id | id in r'.results ensures ResultFrom(all, r', id) {
      RecordGrows(opening, events, Joined(s), r, id);
      assert ResultFrom(all, r, id);
    }
    forall id | id in r'.reviewers ensures ReviewerFrom(opening, all, id, r'.reviewers[id]) {
      RecordGrows(opening, events, Joined(s), r, id);
    }
  }

  /** A finish leaves the record alone or writes its own result into it. */
  lemma FinishWrites(wf: Workflow, f: Finish)
    requires wf.poolRound.Some? && wf.poolRound.value.epoch == wf.epoch && Belongs(wf, Finished(f))
    ensures Next(wf, Finished(f)).poolRound.Some?
    ensures var r, r' := wf.poolRound.value, Next(wf, Finished(f)).poolRound.value;
      if r.resolved != Pending then r' == r
      else SameRecord(r', Recorded(r, f))
  {
  }

  predicate SameRecord(a: PoolRound, b: PoolRound) {
    a.results == b.results && a.reviewers == b.reviewers && a.memberships == b.memberships
  }

  lemma WrittenFrom(opening: PoolRound, events: seq<Event>, r: PoolRound, r': PoolRound, f: Finish)
    requires forall id :: id in r.results ==> ResultFrom(events, r, id)
    requires forall id :: id in r.reviewers ==> ReviewerFrom(opening, events, id, r.reviewers[id])
    requires SameRecord(r', Recorded(r, f))
    ensures forall id :: id in r'.results ==> ResultFrom(events + [Finished(f)], r', id)
    ensures forall id :: id in r'.reviewers ==> ReviewerFrom(opening, events + [Finished(f)], id, r'.reviewers[id])
  {
    var all := events + [Finished(f)];
    assert Finished(f) in all;
    forall id | id in r'.results ensures ResultFrom(all, r', id) {
      if id == f.id {
        assert Finished(f) in all && f.verdict == r'.results[id];
      } else {
        RecordGrows(opening, events, Finished(f), r, id);
        assert ResultFrom(all, r, id);
      }
    }
    forall id | id in r'.reviewers ensures ReviewerFrom(opening, all, id, r'.reviewers[id]) {
      RecordGrows(opening, events, Finished(f), r, id);
    }
  }

  lemma FinishRecordFrom(opening: PoolRound, events: seq<Event>, wf: Workflow, f: Finish)
    requires wf.poolRound.Some? && wf.poolRound.value.epoch == wf.epoch && Belongs(wf, Finished(f))
    requires RecordFrom(opening, events, wf.poolRound.value)
    ensures Next(wf, Finished(f)).poolRound.Some?
    ensures RecordFrom(opening, events + [Finished(f)], Next(wf, Finished(f)).poolRound.value)
  {
    var r, r', all := wf.poolRound.value, Next(wf, Finished(f)).poolRound.value, events + [Finished(f)];
    FinishWrites(wf, f);
    if r.resolved == Pending {
      WrittenFrom(opening, events, r, r', f);
      if r'.resolved == Pending {
        PendingMeansPass(wf, f);
      }
    } else {
      forall id ensures id in r.results ==> ResultFrom(all, r, id)
        ensures id in r.reviewers ==> ReviewerFrom(opening, all, id, r.reviewers[id])
      {
        RecordGrows(opening, events, Finished(f), r, id);
      }
    }
  }

  /** A finish that leaves its round pending was a PASS. */
  lemma PendingMeansPass(wf: Workflow, f: Finish)
    requires wf.poolRound.Some? && wf.poolRound.value.epoch == wf.epoch && f.id != NoJob
      && f.id in wf.poolRound.value.started
    requires Next(wf, Finished(f)).poolRound.value.resolved == Pending
    ensures f.verdict == Pass
  {
    var r := Recorded(wf.poolRound.value, f);
    assert r.results[f.id] == f.verdict;
  }

  lemma {:induction false} RoundRecordFrom(opening: Workflow, events: seq<Event>)
    requires JustOpened(opening) && IsRound(opening, events)
    ensures Run(opening, events).poolRound.Some?
    ensures RecordFrom(opening.poolRound.value, events, Run(opening, events).poolRound.value)
  {
    if events != [] {
      var rest, e := events[..|events| - 1], events[|events| - 1];
      assert events == rest + [e];
      RoundRecordFrom(opening, rest);
      PoolRoundSafe(opening, rest);
      match e
      case Joined(s) => JoinRecordFrom(opening.poolRound.value, rest, Run(opening, rest), s);
      case Finished(f) => FinishRecordFrom(opening.poolRound.value, rest, Run(opening, rest), f);
    }
  }

  /** Seen from outside: a round is approved only after two members finished with PASS, neither outside the
      pool, under two distinct identities; it fails only after a finish with another verdict; and while it
      is pending every finish was a PASS. */
  lemma ApprovalNeedsTwoFinishes(opening: Workflow, events: seq<Event>)
    requires JustOpened(opening) && IsRound(opening, events)
    ensures Run(opening, events).poolRound.Some?
    ensures var resolved := Run(opening, events).poolRound.value.resolved;
      && (resolved == ResolvedPass ==> TwoFinishes(opening.poolRound.value, events))
      && (resolved == ResolvedFail ==> exists f :: Finished(f) in events && f.verdict != Pass)
      && (resolved == Pending ==> forall f :: Finished(f) in events ==> f.verdict == Pass)
  {
    RoundRecordFrom(opening, events);
    PoolRoundSafe(opening, events);
    var r := Run(opening, events).poolRound.value;
    if r.resolved == ResolvedPass {
      var a, b :| Eligible(r, a) && Eligible(r, b) && a in r.reviewers && b in r.reviewers
        && r.reviewers[a] != r.reviewers[b];
      assert ResultFrom(events, r, a) && ResultFrom(events, r, b);
      var f :| Finished(f) in events && f.id == a && f.verdict == r.results[a] && f.membership != OutsidePool;
      var g :| Finished(g) in events && g.id == b && g.verdict == r.results[b] && g.membership != OutsidePool;
      assert PassAs(opening.poolRound.value, events, f, r.reviewers[a])
        && PassAs(opening.poolRound.value, events, g, r.reviewers[b]);
    } else if r.resolved == ResolvedFail {
      var id :| id in r.results && r.results[id] != Pass;
      assert ResultFrom(events, r, id);
    }
  }

  /** A member finished with a PASS that may count, under this identity. */
  ghost predicate PassAs(opening: PoolRound, events: seq<Event>, f: Finish, key: string) {
    Finished(f) in events && f.verdict == Pass && f.membership != OutsidePool
      && ReviewerFrom(opening, events, f.id, key)
  }

  ghost predicate TwoFinishes(opening: PoolRound, events: seq<Event>) {
    exists f, g, a, b :: PassAs(opening, events, f, a) && PassAs(opening, events, g, b) && f.id != g.id && a != b
  }

  // ---- When the sibling shares the round ----------------------------------------------------

  /** The branch of the degenerate key that replays the previous slot. */
  predicate ReplaysPriorSlot(wf: Workflow) {
    wf.material == "" && wf.round == 0 && wf.lastKey.Slot? && wf.closureCount > wf.lastKey.slot
  }

  /** The second start of a round joins the record the first one opened, unless the first was a closure
      start that still saw the previous slot: that start clears the slot, so the second computes another
      key and opens a record of its own. */
  lemma SiblingJoinsExactly(wf: Workflow, a: Start, b: Start)
    requires a.id != NoJob && b.id != NoJob && a.poolExpected && a.mode == b.mode && !Joins(wf, a)
    requires wf.poolRound.Some? ==> a.id !in wf.poolRound.value.started
    ensures OnStart(wf, a).Some?
    ensures Joins(OnStart(wf, a).value, b) <==> !(a.mode == Closure && ReplaysPriorSlot(wf))
  {
  }

  /** Two fresh reviewers of a pool start a closure round, and the first opens its record. */
  predicate OpensClosure(wf: Workflow, a: Start, b: Start) {
    && a.id != NoJob && b.id != NoJob && a.id != b.id
    && a.mode == Closure && b.mode == Closure && a.poolExpected && b.poolExpected && !Joins(wf, a)
    && (wf.poolRound.Some? ==> a.id !in wf.poolRound.value.started)
  }

  function Both(wf: Workflow, a: Start, b: Start): Workflow {
    Next(Next(wf, Joined(a)), Joined(b))
  }

  /** On a row that replays the previous slot, the second start supersedes the first. */
  lemma SplitRecords(wf: Workflow, a: Start, b: Start)
    requires OpensClosure(wf, a, b) && ReplaysPriorSlot(wf)
    ensures var both := Both(wf, a, b);
      && both == wf.(lastKey := NoKey, poolRound := both.poolRound) && both.poolRound.Some?
      && var r := both.poolRound.value;
         r.started == [b.id] && a.id in r.superseded && r.results == map[] && r.epoch == wf.epoch && r.mode == Closure
           && r.resolved == Pending
  {
    var first, second := Next(wf, Joined(a)), Both(wf, a, b);
    var superseded := first.poolRound.value.superseded;
    assert second.poolRound.value.superseded == LastIds(superseded + [a.id]);
    assert second.poolRound.value.superseded[|second.poolRound.value.superseded| - 1] == a.id;
  }

  /** Otherwise both are in one record. */
  lemma SharedRecord(wf: Workflow, a: Start, b: Start)
    requires OpensClosure(wf, a, b) && !ReplaysPriorSlot(wf)
    ensures var both := Both(wf, a, b);
      both.epoch == wf.epoch && both.poolRound.Some?
      && var r := both.poolRound.value;
         r.started == [a.id, b.id] && r.results == map[] && r.epoch == wf.epoch && r.resolved == Pending
  {
    SiblingJoinsExactly(wf, a, b);
  }

  /** After two reviewers have started a closure round, the PASS of the first alone closes the review as
      approved, although the pool expects two distinct reviewers, if and only if the row replayed the previous
      slot. */
  lemma LonePassApproves(wf: Workflow, a: Start, b: Start, f: Finish)
    requires OpensClosure(wf, a, b) && f.id == a.id && f.verdict == Pass && f.mode == Closure
    ensures var done := Next(Both(wf, a, b), Finished(f));
      if ReplaysPriorSlot(wf) then !done.auditDone && done.closureCount == 0 && done.epoch == wf.epoch + 1
      else done.epoch == wf.epoch && done.poolRound.Some? && done.poolRound.value.resolved == Pending
  {
    if ReplaysPriorSlot(wf) {
      SplitRecords(wf, a, b);
    } else {
      SharedRecord(wf, a, b);
      FirstPassWaits(Both(wf, a, b), f);
    }
  }

  /** The first PASS of a record leaves it pending. */
  lemma FirstPassWaits(wf: Workflow, f: Finish)
    requires wf.poolRound.Some? && wf.poolRound.value.resolved == Pending && wf.poolRound.value.epoch == wf.epoch
    requires f.id != NoJob && f.id in wf.poolRound.value.started && f.verdict == Pass
    requires wf.poolRound.value.results == map[]
    ensures var done := Next(wf, Finished(f));
      done.epoch == wf.epoch && done.poolRound.Some? && done.poolRound.value.resolved == Pending
  {
    var r := Recorded(wf.poolRound.value, f);
    OneResult(r, f.id);
    assert !HasNonPass(r);
  }

  lemma OneResult(r: PoolRound, id: JobId)
    requires r.results.Keys == {id}
    ensures |PassIds(r)| <= 1 && |PassIdentities(r)| <= 1
  {
    assert PassIds(r) <= {id};
    SubsetSize(PassIds(r), {id});
    if id in r.reviewers {
      assert PassIdentities(r) <= {r.reviewers[id]};
      SubsetSize(PassIdentities(r), {r.reviewers[id]});
    } else {
      assert PassIdentities(r) == {};
    }
  }

  /** And when both fail, both records count: with one closure round left the cap is exceeded. */
  lemma CapExceeded(wf: Workflow, a: Start, b: Start, fa: Finish, fb: Finish)
    requires OpensClosure(wf, a, b) && MayStart(wf, Closure) && wf.closureCount + 1 == wf.maxClosures
    requires fa.id == a.id && fb.id == b.id && fa.verdict == Fail && fb.verdict == Fail
    requires fa.mode == Closure && fb.mode == Closure && fa.material == "" && fb.material == ""
    ensures Next(Next(Both(wf, a, b), Finished(fa)), Finished(fb)).closureCount
         == if ReplaysPriorSlot(wf) then wf.maxClosures + 1 else wf.maxClosures
  {
    var second := Both(wf, a, b);
    if ReplaysPriorSlot(wf) {
      SplitRecords(wf, a, b);
      var third := Next(second, Finished(fa));
      assert third.closureCount == wf.maxClosures && third.poolRound == second.poolRound;
      assert Recorded(third.poolRound.value, fb).results[fb.id] == Fail;
    } else {
      SharedRecord(wf, a, b);
      SharedFails(second, fa);
    }
  }

  /** A failed member counts the round. */
  lemma SharedFails(wf: Workflow, f: Finish)
    requires wf.poolRound.Some? && wf.poolRound.value.resolved == Pending && wf.poolRound.value.epoch == wf.epoch
    requires f.id != NoJob && f.id in wf.poolRound.value.started && f.verdict == Fail
      && wf.poolRound.value.mode == Closure
    ensures var done := Next(wf, Finished(f));
      done.closureCount == wf.closureCount + 1 && done.epoch == wf.epoch && done.poolRound.Some?
      && done.poolRound.value.resolved == ResolvedFail && done.poolRound.value.started == wf.poolRound.value.started
      && done.poolRound.value.epoch == wf.epoch
  {
    assert Recorded(wf.poolRound.value, f).results[f.id] == Fail;
  }

  const NEW_ROW := Workflow(false, 0, None, 0, NoKey, None, Running, 0, "", 2)

  function PoolStart(name: string, mode: Mode): Start {
    Start(Job(name), mode, true, Some(name))
  }

  function PoolResult(name: string, mode: Mode, verdict: Verdict): Finish {
    Finish(Job(name), mode, verdict, "", Some(name), None, PoolMember)
  }

  /** A failed audit and a failed closure round, from a new row. */
  function TwoFailedRounds(): Workflow {
    var audited := Next(Next(NEW_ROW, Joined(PoolStart("a", Audit))), Finished(PoolResult("a", Audit, Fail)));
    Next(Next(audited, Joined(PoolStart("b", Closure))), Finished(PoolResult("b", Closure, Fail)))
  }

  lemma TwoFailedRoundsCount()
    ensures var wf := TwoFailedRounds();
      && wf == NEW_ROW.(auditDone := true, closureCount := 1, epoch := 1, lastKey := Slot(0), poolRound := wf.poolRound)
      && wf.poolRound.Some? && wf.poolRound.value.key == Slot(0) && wf.poolRound.value.started == [Job("b")]
      && wf.poolRound.value.resolved == ResolvedFail
  {
    var first, fa := Next(NEW_ROW, Joined(PoolStart("a", Audit))), PoolResult("a", Audit, Fail);
    assert Recorded(first.poolRound.value, fa).results[fa.id] == Fail;
    var audited := Next(first, Finished(fa));
    assert audited.auditDone && audited.epoch == 1 && audited.lastKey == NoKey;
    var second, fb := Next(audited, Joined(PoolStart("b", Closure))), PoolResult("b", Closure, Fail);
    SharedFails(second, fb);
  }

  /** Such a row exists: after a failed audit and one failed closure round the second closure round may start,
      and it splits; one PASS approves it, two FAILs exceed the cap of two. */
  lemma SecondClosureSplits()
    ensures var wf, a, b := TwoFailedRounds(), PoolStart("c", Closure), PoolStart("d", Closure);
      && MayStart(wf, Closure) && OpensClosure(wf, a, b) && ReplaysPriorSlot(wf)
      && Next(Both(wf, a, b), Finished(PoolResult("c", Closure, Pass))).epoch == wf.epoch + 1
      && Next(Next(Both(wf, a, b), Finished(PoolResult("c", Closure, Fail))),
              Finished(PoolResult("d", Closure, Fail))).closureCount == 3
  {
    var wf, a, b := TwoFailedRounds(), PoolStart("c", Closure), PoolStart("d", Closure);
    TwoFailedRoundsCount();
    assert "b"[0] != "c"[0];
    LonePassApproves(wf, a, b, PoolResult("c", Closure, Pass));
    CapExceeded(wf, a, b, PoolResult("c", Closure, Fail), PoolResult("d", Closure, Fail));
  }
}
