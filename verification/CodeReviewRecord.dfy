/** The life of a reviewer-pool record and of its idempotency keys: what a start and a finish do to it, whose PASS
    counts, and how it compares with a single review. */
module CodeReviewRecord {
  import opened Wrappers
  import opened Sets
  import opened CodeReviewPhase
  import opened CodeReviewClosure

  // ---- Keys ---------------------------------------------------------------------------------

  /** The material a review of the row judges. */
  function Judged(wf: Workflow, material: string): string {
    if material == "" then wf.material else material
  }

  /** Closure rounds with a known material or round number have the same key exactly when they are the same. */
  lemma KeysTellRoundsApart(wf: Workflow, other: Workflow, a: string, b: string)
    ensures Judged(wf, a) != "" || wf.round > 0 ==>
      (BuildKey(wf, a) == BuildKey(other, b) <==> wf.round == other.round && Judged(wf, a) == Judged(other, b))
  {
  }

  /** Finishes of pool members, and audits outside a pool, use one key per review and never share one. */
  lemma FinishKeysTellApart(wf: Workflow, other: Workflow, f: Finish, g: Finish)
    requires FindPoolRound(wf, f.id).Some? || f.mode == Audit
    requires FindPoolRound(other, g.id).Some? || g.mode == Audit
    ensures FinishKey(wf, f) == FinishKey(other, g)
       <==> f.id == g.id && (FindPoolRound(wf, f.id).Some? <==> FindPoolRound(other, g.id).Some?)
  {
  }

  /** After a closure finish outside a pool has counted, another one counts if and only if it judged another
      material. */
  lemma CountedOncePerMaterial(wf: Workflow, f: Finish, g: Finish)
    requires FindPoolRound(wf, f.id).None? && FindPoolRound(wf, g.id).None?
    requires f.mode == Closure && g.mode == Closure && f.verdict != Pass && g.verdict != Pass
    requires OnFinish(wf, f).Some?
    ensures OnFinish(OnFinish(wf, f).value, g).None? <==> Judged(wf, f.material) == Judged(wf, g.material)
  {
  }

  // ---- Starts -------------------------------------------------------------------------------

  /** The record of the row is the one the start belongs to, or will join. */
  predicate Continues(wf: Workflow, s: Start) {
    s.id != NoJob && (Joins(wf, s) || IsRepeated(wf, s))
  }

  predicate IsRepeated(wf: Workflow, s: Start) {
    wf.poolRound.Some? && wf.poolRound.value.epoch == wf.epoch && wf.poolRound.value.key == BuildKey(wf, "")
    && s.id in wf.poolRound.value.started
  }

  /** A start changes the record and the last closure key at most, and opens the closure window exactly when it is a
      closure start that does not continue the record. */
  lemma StartOpensWindow(wf: Workflow, s: Start)
    ensures var after := Next(wf, Joined(s));
      && after == wf.(lastKey := after.lastKey, poolRound := after.poolRound)
      && after.lastKey == (if s.mode == Closure && !Continues(wf, s) then NoKey else wf.lastKey)
      && (s.id == NoJob ==> after.poolRound == wf.poolRound)
  {
  }

  /** Every start that continues a record or opens one under a pool is in it with its reviewer, and the results so far
      are kept; an opened record has superseded the members before. Without a pool no record stays. */
  lemma StartIsRecorded(wf: Workflow, s: Start)
    requires s.id != NoJob
    ensures var after := Next(wf, Joined(s)).poolRound;
      && (after.Some? <==> Continues(wf, s) || s.poolExpected)
      && (after.Some? ==> s.id in after.value.started)
      && (after.Some? && !IsRepeated(wf, s) && s.reviewer.Some? ==>
            s.id in after.value.reviewers && after.value.reviewers[s.id] == s.reviewer.value)
      && (Continues(wf, s) ==>
            after.value.results == wf.poolRound.value.results && after.value.mode == wf.poolRound.value.mode
            && after.value.memberships == wf.poolRound.value.memberships
            && after.value.resolved == wf.poolRound.value.resolved)
      && (!Continues(wf, s) && s.poolExpected ==>
            after.value.mode == s.mode && after.value.results == map[]
            && forall id ::
              wf.poolRound.Some? && id in LastIds(wf.poolRound.value.started) ==> id in after.value.superseded)
  {
    if wf.poolRound.Some? && !Continues(wf, s) && s.poolExpected {
      var r := wf.poolRound.value;
      forall id | id in LastIds(r.started) ensures id in LastIds(r.superseded + r.started) {
        LastIdsKeepsLast(r.superseded, r.started, id);
      }
    } else if Continues(wf, s) && !IsRepeated(wf, s) {
      LastIdsKeepsLast(wf.poolRound.value.started, [s.id], s.id);
    }
  }

  /** The newest ids are kept. */
  lemma LastIdsKeepsLast(older: seq<JobId>, newer: seq<JobId>, id: JobId)
    requires id in LastIds(newer)
    ensures id in LastIds(older + newer)
  {
    var i :| 0 <= i < |newer| && newer[i] == id && i >= |newer| - MAX_IDS;
    var all := older + newer;
    var kept, at := LastIds(all), |older| + i;
    assert all[at] == id && at >= |all| - MAX_IDS;
    assert kept[at - (|all| - |kept|)] == all[at];
  }

  /** A start that is delivered twice changes nothing the second time, unless the first delivery was a closure start
      that opened a record while it still saw the previous slot. */
  lemma RepeatedStartExactly(wf: Workflow, s: Start)
    ensures OnStart(Next(wf, Joined(s)), s).None?
       <==> !(s.id != NoJob && s.poolExpected && !Continues(wf, s) && s.mode == Closure && ReplaysPriorSlot(wf))
  {
    if Continues(wf, s) && !IsRepeated(wf, s) {
      LastIdsKeepsLast(wf.poolRound.value.started, [s.id], s.id);
    }
  }

  /** The material or the round number of the row is known. */
  predicate KnownRound(wf: Workflow) {
    wf.material != "" || wf.round > 0
  }

  /** The only member so far has failed its closure round. */
  predicate JustFailed(wf: Workflow, id: JobId) {
    && wf.poolRound.Some? && wf.poolRound.value.epoch == wf.epoch && wf.poolRound.value.resolved == ResolvedFail
    && wf.poolRound.value.started == [id]
    && var key := wf.poolRound.value.key;
       if KnownRound(wf) then key == BuildKey(wf, "")
       else key.Slot? && key == wf.lastKey && key.slot < wf.closureCount
  }

  lemma FirstFails(wf: Workflow, a: Start, b: Start, fa: Finish)
    requires OpensClosure(wf, a, b) && fa.id == a.id && fa.verdict == Fail
    ensures var first := Next(Next(wf, Joined(a)), Finished(fa));
      && JustFailed(first, a.id) && first.closureCount == wf.closureCount + 1
      && (KnownRound(first) <==> KnownRound(wf))
  {
    SharedFails(Next(wf, Joined(a)), fa);
  }

  /** The sibling joins the failed record if the round is known, and opens its own otherwise. */
  lemma LateSiblingStarts(first: Workflow, id: JobId, b: Start)
    requires JustFailed(first, id) && b.id != NoJob && b.id != id && b.poolExpected && b.mode == Closure
    ensures var second := Next(first, Joined(b));
      && second.closureCount == first.closureCount && second.epoch == first.epoch && second.poolRound.Some?
      && var r := second.poolRound.value;
         r.epoch == second.epoch && b.id in r.started
         && (if KnownRound(first) then r.resolved == ResolvedFail else r.resolved == Pending && r.mode == Closure)
  {
  }

  /** A sibling that starts only after the first member has failed the closure round. If the round is known, it joins
      the resolved record and its failure does not count again; otherwise it counts as a round of its own. */
  lemma LateSiblingCounts(wf: Workflow, a: Start, b: Start, fa: Finish, fb: Finish)
    requires OpensClosure(wf, a, b) && fa.id == a.id && fb.id == b.id && fa.verdict == Fail && fb.verdict == Fail
    ensures var first := Next(Next(wf, Joined(a)), Finished(fa));
      var done := Next(Next(first, Joined(b)), Finished(fb));
      && first.closureCount == wf.closureCount + 1
      && done.closureCount == wf.closureCount + if KnownRound(wf) then 1 else 2
  {
    FirstFails(wf, a, b, fa);
    var first := Next(Next(wf, Joined(a)), Finished(fa));
    LateSiblingStarts(first, a.id, b);
    var second := Next(first, Joined(b));
    if !KnownRound(wf) {
      SharedFails(second, fb);
    }
  }

  // ---- Whose PASS counts --------------------------------------------------------------------

  /** The reviewer a finish is recorded under: its own identity, else the one its start named. */
  function NameOf(r: PoolRound, f: Finish): Option<string> {
    if IdentityOf(f).Some? then IdentityOf(f)
    else if f.id in r.reviewers then Some(r.reviewers[f.id])
    else None
  }

  /** The finish says so, or says nothing and an earlier record does. */
  predicate IsOutside(r: PoolRound, f: Finish) {
    f.membership == OutsidePool
    || (f.membership == Unrecorded && f.id in r.memberships && r.memberships[f.id] == OutsidePool)
  }

  /** A pending record with no result yet, of which both are members. */
  predicate AwaitsBoth(wf: Workflow, f: Finish, g: Finish) {
    && wf.poolRound.Some? && wf.poolRound.value.epoch == wf.epoch && wf.poolRound.value.resolved == Pending
    && wf.poolRound.value.results == map[] && f.id != NoJob && g.id != NoJob && f.id != g.id
    && f.id in wf.poolRound.value.started && g.id in wf.poolRound.value.started
  }

  lemma BothRecorded(r: PoolRound, f: Finish, g: Finish)
    requires r.results == map[] && f.id != g.id && f.verdict == Pass && g.verdict == Pass
    ensures var both := Recorded(Recorded(r, f), g);
      && !HasNonPass(both)
      && (Eligible(both, f.id) <==> !IsOutside(r, f)) && (Eligible(both, g.id) <==> !IsOutside(r, g))
      && (forall id :: Eligible(both, id) ==> id == f.id || id == g.id)
      && (f.id in both.reviewers <==> NameOf(r, f).Some?) && (g.id in both.reviewers <==> NameOf(r, g).Some?)
      && (NameOf(r, f).Some? ==> both.reviewers[f.id] == NameOf(r, f).value)
      && (NameOf(r, g).Some? ==> both.reviewers[g.id] == NameOf(r, g).value)
  {
  }

  /** When both members of a pool pass, the round is approved if and only if neither is outside the pool and both are
      known as two different reviewers. If neither is outside but they are not known to differ the leaf is stopped, and
      otherwise the round stays pending. */
  lemma TwoPassesDecide(wf: Workflow, f: Finish, g: Finish)
    requires AwaitsBoth(wf, f, g) && f.verdict == Pass && g.verdict == Pass
    ensures var r, done := wf.poolRound.value, Next(Next(wf, Finished(f)), Finished(g));
      var inside, a, b := !IsOutside(r, f) && !IsOutside(r, g), NameOf(r, f), NameOf(r, g);
      && done.poolRound.Some?
      && done.poolRound.value.resolved
         == (if !inside then Pending else if a.Some? && b.Some? && a != b then ResolvedPass else ResolvedDegraded)
  {
    FirstPassWaits(wf, f);
    var r, first := wf.poolRound.value, Next(wf, Finished(f));
    assert first.poolRound.value == Recorded(r, f);
    BothRecorded(r, f, g);
    var both := Recorded(Recorded(r, f), g);
    CountsReviewers(both);
    AtLeastTwo(PassIds(both));
    assert TwoReviewersPassed(both) ==> Eligible(both, f.id) && Eligible(both, g.id);
    assert Eligible(both, f.id) ==> f.id in PassIds(both);
    assert Eligible(both, g.id) ==> g.id in PassIds(both);
  }

  // ---- Pool and single reviews --------------------------------------------------------------

  /** A finish that resolves a pool round changes the row as the same finish outside a pool does, but for the record
      and for the key under which a failed closure round is counted. */
  lemma ResolvesLikeSingle(wf: Workflow, f: Finish)
    requires wf.poolRound.Some? && wf.poolRound.value.resolved == Pending && Justified(wf.poolRound.value)
    requires FindPoolRound(wf, f.id).Some? && f.mode == wf.poolRound.value.mode
    requires f.mode == Closure ==> wf.lastKey != BuildKey(wf, f.material)
    ensures var done, single := Next(wf, Finished(f)), Next(wf.(poolRound := None), Finished(f));
      var resolved := done.poolRound.value.resolved;
      && (resolved in {ResolvedPass, ResolvedFail} ==>
            done == single.(poolRound := done.poolRound, lastKey := done.lastKey)
            && done.lastKey == if resolved == ResolvedFail && f.mode == Closure then wf.poolRound.value.key else NoKey)
      && (resolved == ResolvedFail <==> f.verdict != Pass)
  {
    var r := Recorded(wf.poolRound.value, f);
    assert r.results[f.id] == f.verdict;
  }

  // ---- Records of an earlier epoch ----------------------------------------------------------

  ghost predicate LeftBehind(wf: Workflow, now: Workflow) {
    now.epoch >= wf.epoch
    && (now.poolRound == wf.poolRound || now.poolRound.None? || now.poolRound.value.epoch >= wf.epoch)
  }

  lemma StepLeavesBehind(wf: Workflow, now: Workflow, e: Event)
    requires wf.poolRound.Some? && wf.poolRound.value.epoch < wf.epoch && LeftBehind(wf, now)
    ensures LeftBehind(wf, Next(now, e))
  {
  }

  /** A record that the epoch of the row has passed is never joined and never takes a result, whatever starts and
      finishes follow: it stays as it is until it is dropped or replaced. */
  lemma {:induction false} PassedRecordStays(wf: Workflow, events: seq<Event>)
    requires wf.poolRound.Some? && wf.poolRound.value.epoch < wf.epoch
    ensures var now := Run(wf, events);
      now.epoch >= wf.epoch
      && (now.poolRound == wf.poolRound || now.poolRound.None? || now.poolRound.value.epoch >= wf.epoch)
  {
    if events != [] {
      PassedRecordStays(wf, events[..|events| - 1]);
      StepLeavesBehind(wf, Run(wf, events[..|events| - 1]), events[|events| - 1]);
    }
  }

  /** After a PASS of the parent nothing of a round is left: no finish belongs to it, and the next record supersedes
      nobody. */
  lemma ParentPassClosesRound(wf: Workflow, id: JobId, s: Start)
    ensures FindPoolRound(OnParentPass(wf), id).None?
    ensures s.id != NoJob && s.poolExpected ==>
      var after := Next(OnParentPass(wf), Joined(s)).poolRound;
      after.Some? && after.value.superseded == [] && after.value.started == [s.id]
  {
  }
}
