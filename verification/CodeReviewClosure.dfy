/** Closure rounds without a pool, on a workflow that has neither a round number nor a material revision:
    every run of starts, finishes and parent approvals, with the idempotency of workflow patches. */
module CodeReviewClosure {
  import opened Wrappers
  import opened CodeReviewPhase

  /** `applied` are the idempotency keys already used; `reviews` the started reviews; `counted` the closure
      rounds counted so far. */
  datatype System = System(
    wf: Workflow, applied: set<PatchKey>, reviews: map<JobId, Mode>, ghost counted: seq<(nat, nat)>)

  datatype Action = Begin(id: JobId) | End(f: Finish) | ParentPass | ClearStop

  predicate Enabled(s: System, a: Action) {
    match a
    case Begin(id) => id != NoJob && id !in s.reviews && MayStart(s.wf, ModeOf(s.wf))
    case End(f) => f.id in s.reviews && f.mode == s.reviews[f.id] && f.material == ""
    case ParentPass => true
    case ClearStop => true
  }

  /** A PASS the parent records itself. The parent may also clear a stop at any time. */
  function OnParentPass(wf: Workflow): Workflow {
    wf.(poolRound := None, auditDone := false, closureCount := 0, auditReviewer := None, lastKey := NoKey,
        epoch := wf.epoch + 1)
  }

  /** A keyed patch is applied once: a key that was used before replays or conflicts, and changes nothing. */
  ghost function Act(s: System, a: Action): System {
    match a
    case Begin(id) =>
      var after := OnStart(s.wf, Start(id, ModeOf(s.wf), false, None));
      s.(wf := if after.Some? then after.value else s.wf, reviews := s.reviews[id := ModeOf(s.wf)])
    case End(f) =>
      var key, after := FinishKey(s.wf, f), OnFinish(s.wf, f);
      if after.None? || key in s.applied then s
      else s.(wf := after.value, applied := s.applied + {key},
              counted := if f.mode == Closure && f.verdict != Pass then s.counted + [(s.wf.epoch, s.wf.closureCount)]
                else s.counted)
    case ParentPass => s.(wf := OnParentPass(s.wf))
    case ClearStop => s.(wf := s.wf.(stop := Running))
  }

  ghost predicate Initial(s: System) {
    && s.wf.auditDone == false && s.wf.closureCount == 0 && s.wf.epoch == 0 && s.wf.lastKey == NoKey
    && s.wf.poolRound == None
    && s.wf.round == 0 && s.wf.material == "" && s.applied == {} && s.reviews == map[] && s.counted == []
  }

  ghost predicate IsRunOf(states: seq<System>, actions: seq<Action>) {
    && |states| == |actions| + 1 && Initial(states[0])
    && forall i :: 0 <= i < |actions| ==> Enabled(states[i], actions[i]) && states[i + 1] == Act(states[i], actions[i])
  }

  // ---- The invariant ------------------------------------------------------------------------

  predicate Before(a: (nat, nat), b: (nat, nat)) {
    a.0 < b.0 || (a.0 == b.0 && a.1 < b.1)
  }

  /** The key that counted the closure round `c`. */
  function CountedKey(c: (nat, nat)): PatchKey {
    ClosureKey(c.0, Slot(c.1))
  }

  ghost predicate KeysBehind(s: System) {
    forall key :: key in s.applied && key.ClosureKey? ==>
      key.key.Slot? && Before((key.epoch, key.key.slot), (s.wf.epoch, s.wf.closureCount))
  }

  ghost predicate CountedInOrder(s: System) {
    && (forall i :: 0 <= i < |s.counted| ==>
        CountedKey(s.counted[i]) in s.applied && Before(s.counted[i], (s.wf.epoch, s.wf.closureCount)))
    && (forall i, j :: 0 <= i < j < |s.counted| ==> Before(s.counted[i], s.counted[j]))
  }

  /** The last counted slot stays on the row until the next closure start, so a row at its cap keeps it. */
  ghost predicate WindowOk(s: System) {
    && (s.wf.lastKey != NoKey ==>
          s.wf.lastKey.Slot? && s.wf.closureCount == s.wf.lastKey.slot + 1
            && CountedKey((s.wf.epoch, s.wf.lastKey.slot)) in s.applied)
    && s.wf.closureCount <= s.wf.maxClosures
    && (s.wf.lastKey == NoKey && (exists id :: id in s.reviews && s.reviews[id] == Closure) ==>
        s.wf.closureCount < s.wf.maxClosures)
  }

  ghost predicate Inv(s: System) {
    && s.wf.poolRound == None && s.wf.round == 0 && s.wf.material == ""
    && KeysBehind(s) && CountedInOrder(s) && WindowOk(s)
  }

  lemma BeginKeepsInv(s: System, id: JobId)
    requires Inv(s) && Enabled(s, Begin(id))
    ensures Inv(Act(s, Begin(id)))
  {
  }

  lemma EndKeepsInv(s: System, f: Finish)
    requires Inv(s) && Enabled(s, End(f))
    ensures Inv(Act(s, End(f)))
  {
  }

  lemma ParentKeepsInv(s: System, a: Action)
    requires Inv(s) && (a == ParentPass || a == ClearStop)
    ensures Inv(Act(s, a))
  {
  }

  lemma {:induction false} RunKeepsInv(states: seq<System>, actions: seq<Action>, i: nat)
    requires IsRunOf(states, actions) && i < |states|
    ensures Inv(states[i]) && states[i].wf.maxClosures == states[0].wf.maxClosures
  {
    if i > 0 {
      RunKeepsInv(states, actions, i - 1);
      match actions[i - 1]
      case Begin(id) => BeginKeepsInv(states[i - 1], id);
      case End(f) => EndKeepsInv(states[i - 1], f);
      case ParentPass => ParentKeepsInv(states[i - 1], actions[i - 1]);
      case ClearStop => ParentKeepsInv(states[i - 1], actions[i - 1]);
    }
  }

  // ---- Main results -------------------------------------------------------------------------

  /** In every interleaving, the closure count never exceeds the cap, and the counted closure rounds have
      strictly increasing (epoch, count), so no two of them share an idempotency key. */
  lemma ClosureRoundsBounded(states: seq<System>, actions: seq<Action>, n: nat)
    requires IsRunOf(states, actions) && n < |states|
    ensures states[n].wf.closureCount <= states[0].wf.maxClosures
    ensures var counted := states[n].counted;
      forall i, j :: 0 <= i < j < |counted| ==>
        Before(counted[i], counted[j]) && CountedKey(counted[i]) != CountedKey(counted[j])
  {
    RunKeepsInv(states, actions, n);
  }

  /** What a closure finish does depends only on the window. In an open window a failing verdict is
      counted under a fresh key and a PASS resets the review. Once the window has counted a round, every
      sibling gets the key of the counted one and changes nothing, also with a PASS. */
  lemma ClosureFinishExact(states: seq<System>, actions: seq<Action>, n: nat, f: Finish)
    requires IsRunOf(states, actions) && n < |states| && Enabled(states[n], End(f)) && f.mode == Closure
    ensures var s, after := states[n], Act(states[n], End(f));
      if s.wf.lastKey != NoKey then
        after == s && s.wf.lastKey.Slot? && FinishKey(s.wf, f) == CountedKey((s.wf.epoch, s.wf.lastKey.slot))
          && FinishKey(s.wf, f) in s.applied
      else
        && FinishKey(s.wf, f) !in s.applied && FinishKey(s.wf, f) in after.applied
        && (f.verdict != Pass ==>
              after.wf.closureCount == s.wf.closureCount + 1 && after.wf.epoch == s.wf.epoch
                && after.wf.auditDone == s.wf.auditDone
              && after.counted == s.counted + [(s.wf.epoch, s.wf.closureCount)]
              && after.wf.stop == (if f.verdict == Fail && s.wf.closureCount + 1 == s.wf.maxClosures
                                   then ClosureRoundsExhausted else s.wf.stop))
        && (f.verdict == Pass ==> after.wf == OnParentPass(s.wf))
  {
    RunKeepsInv(states, actions, n);
  }

  /** After the cap is reached no closure review can start before an approval or a new audit. */
  lemma CapCloses(states: seq<System>, actions: seq<Action>, n: nat, id: JobId)
    requires IsRunOf(states, actions) && n < |states|
    requires states[n].wf.auditDone && states[n].wf.closureCount == states[0].wf.maxClosures
    ensures !Enabled(states[n], Begin(id))
  {
    RunKeepsInv(states, actions, n);
  }

  // ---- Audits -------------------------------------------------------------------------------

  /** An audit finish that is applied and is no PASS. */
  ghost predicate FailsAudit(s: System, a: Action) {
    a.End? && a.f.mode == Audit && a.f.verdict != Pass && AuditKey(a.f.id) !in s.applied
  }

  /** The parent's PASS, or the PASS of a review that is applied. */
  ghost predicate Approves(s: System, a: Action) {
    a.ParentPass? || (a.End? && a.f.verdict == Pass && FinishKey(s.wf, a.f) !in s.applied)
  }

  /** An audit is applied once, and its repetition changes nothing. An audit that does not pass opens the closure
      phase: the flag is set, the count and the last round start anew under the next epoch, and the reviewer is kept
      if the finish names one. An audit that passes closes the review as a PASS of the parent does. */
  lemma AuditFinishExact(states: seq<System>, actions: seq<Action>, n: nat, f: Finish)
    requires IsRunOf(states, actions) && n < |states| && Enabled(states[n], End(f)) && f.mode == Audit
    ensures var s, after := states[n], Act(states[n], End(f));
      if AuditKey(f.id) in s.applied then after == s
      else
        && after.applied == s.applied + {AuditKey(f.id)} && after.reviews == s.reviews && after.counted == s.counted
        && (f.verdict == Pass ==> after.wf == OnParentPass(s.wf))
        && (f.verdict != Pass ==>
              && after.wf.auditDone && after.wf.closureCount == 0 && after.wf.lastKey == NoKey
              && after.wf.epoch == s.wf.epoch + 1 && after.wf.stop == s.wf.stop
              && (f.display.Some? ==> after.wf.auditReviewer == f.display)
              && (f.display.None? ==> after.wf.auditReviewer == s.wf.auditReviewer))
  {
    RunKeepsInv(states, actions, n);
  }

  lemma StepKeepsFlag(s: System, a: Action)
    requires Inv(s) && Enabled(s, a)
    ensures Act(s, a).wf.auditDone == (FailsAudit(s, a) || (s.wf.auditDone && !Approves(s, a)))
  {
  }

  ghost predicate OpenSince(states: seq<System>, actions: seq<Action>, k: nat, n: nat)
    requires k < n < |states| && |states| == |actions| + 1
  {
    FailsAudit(states[k], actions[k]) && forall j :: k < j < n ==> !Approves(states[j], actions[j])
  }

  /** A failed audit was applied, and nothing has approved since. */
  ghost predicate IsOpen(states: seq<System>, actions: seq<Action>, n: nat)
    requires n < |states| && |states| == |actions| + 1
  {
    exists k :: 0 <= k < n && OpenSince(states, actions, k, n)
  }

  lemma OpenStep(states: seq<System>, actions: seq<Action>, n: nat)
    requires n + 1 < |states| && |states| == |actions| + 1
    ensures IsOpen(states, actions, n + 1)
       <==> FailsAudit(states[n], actions[n]) || (IsOpen(states, actions, n) && !Approves(states[n], actions[n]))
  {
    var next := n + 1;
    if FailsAudit(states[n], actions[n]) {
      assert OpenSince(states, actions, n, next);
    } else if k :| 0 <= k < n && OpenSince(states, actions, k, n) && !Approves(states[n], actions[n]) {
      assert OpenSince(states, actions, k, next);
    } else if k :| 0 <= k < next && OpenSince(states, actions, k, next) {
      assert k < n && OpenSince(states, actions, k, n);
    }
  }

  lemma PhaseStep(states: seq<System>, actions: seq<Action>, n: nat)
    requires IsRunOf(states, actions) && n + 1 < |states|
    requires ModeOf(states[n].wf) == Closure <==> IsOpen(states, actions, n)
    ensures ModeOf(states[n + 1].wf) == Closure <==> IsOpen(states, actions, n + 1)
  {
    RunKeepsInv(states, actions, n);
    StepKeepsFlag(states[n], actions[n]);
    OpenStep(states, actions, n);
  }

  /** In every run the leaf is in its closure phase if and only if a failed audit was applied and nothing has
      approved since. */
  lemma {:induction false} ClosurePhaseExactly(states: seq<System>, actions: seq<Action>, n: nat)
    requires IsRunOf(states, actions) && n < |states|
    ensures ModeOf(states[n].wf) == Closure <==> IsOpen(states, actions, n)
  {
    if n > 0 {
      ClosurePhaseExactly(states, actions, n - 1);
      PhaseStep(states, actions, n - 1);
    }
  }

  /** A started review is a closure review exactly in the closure phase, and an audit outside it. */
  lemma StartsInPhase(states: seq<System>, actions: seq<Action>, n: nat, id: JobId)
    requires IsRunOf(states, actions) && n < |states| && Enabled(states[n], Begin(id))
    ensures id in Act(states[n], Begin(id)).reviews
    ensures Act(states[n], Begin(id)).reviews[id] == Closure <==> IsOpen(states, actions, n)
  {
    ClosurePhaseExactly(states, actions, n);
  }

  // ---- Windows and the gate -----------------------------------------------------------------

  /** The rounds counted under an epoch. */
  ghost function CountedIn(counted: seq<(nat, nat)>, epoch: nat): nat {
    if counted == [] then 0
    else
      var n := |counted| - 1;
      CountedIn(counted[..n], epoch) + if counted[n].0 == epoch then 1 else 0
  }

  lemma {:induction false} NoneCountedLater(counted: seq<(nat, nat)>, epoch: nat)
    requires forall i :: 0 <= i < |counted| ==> counted[i].0 < epoch
    ensures CountedIn(counted, epoch) == 0
  {
    if counted != [] {
      NoneCountedLater(counted[..|counted| - 1], epoch);
    }
  }

  lemma CountStep(s: System, a: Action)
    requires Inv(s) && Enabled(s, a) && CountedIn(s.counted, s.wf.epoch) == s.wf.closureCount
    ensures var after := Act(s, a);
      CountedIn(after.counted, after.wf.epoch) == after.wf.closureCount
  {
    var after := Act(s, a);
    if after.wf.epoch != s.wf.epoch {
      NoneCountedLater(s.counted, after.wf.epoch);
    } else if after.counted != s.counted {
      assert after.counted[..|s.counted|] == s.counted;
    }
  }

  /** The count on the row is the number of rounds counted since the audit or the last approval. */
  lemma {:induction false} CountIsRounds(states: seq<System>, actions: seq<Action>, n: nat)
    requires IsRunOf(states, actions) && n < |states|
    ensures CountedIn(states[n].counted, states[n].wf.epoch) == states[n].wf.closureCount
  {
    if n > 0 {
      CountIsRounds(states, actions, n - 1);
      RunKeepsInv(states, actions, n - 1);
      CountStep(states[n - 1], actions[n - 1]);
    }
  }

  /** In every run a fresh review may start if and only if the leaf is not stopped and either no failed audit is open,
      or fewer closure rounds than the cap were counted since. */
  lemma MayStartExactly(states: seq<System>, actions: seq<Action>, n: nat, id: JobId)
    requires IsRunOf(states, actions) && n < |states| && id != NoJob && id !in states[n].reviews
    ensures var s := states[n];
      Enabled(s, Begin(id)) <==>
      && s.wf.stop == Running
      && (IsOpen(states, actions, n) ==> CountedIn(s.counted, s.wf.epoch) < states[0].wf.maxClosures)
  {
    RunKeepsInv(states, actions, n);
    CountIsRounds(states, actions, n);
    ClosurePhaseExactly(states, actions, n);
  }

  lemma WindowStays(s: System, a: Action)
    requires Inv(s) && Enabled(s, a) && s.wf.lastKey == NoKey && Act(s, a).counted == s.counted
    ensures Act(s, a).wf.lastKey == NoKey
  {
  }

  lemma {:induction false} WindowUntilCounted(states: seq<System>, actions: seq<Action>, m: nat, n: nat)
    requires IsRunOf(states, actions) && m <= n < |states| && states[m].wf.lastKey == NoKey
    requires forall k :: m <= k < n ==> states[k + 1].counted == states[k].counted
    ensures states[n].wf.lastKey == NoKey
    decreases n
  {
    if m < n {
      var k := n - 1;
      WindowUntilCounted(states, actions, m, k);
      RunKeepsInv(states, actions, k);
      assert states[k + 1].counted == states[k].counted;
      WindowStays(states[k], actions[k]);
    }
  }

  /** The first failing closure review after the start of one is counted, whatever else starts, finishes or is
      approved between. */
  lemma FirstFailureCounts(states: seq<System>, actions: seq<Action>, m: nat, n: nat, f: Finish)
    requires IsRunOf(states, actions) && m < n < |states| && actions[m].Begin? && ModeOf(states[m].wf) == Closure
    requires forall k :: m < k < n ==> states[k + 1].counted == states[k].counted
    requires Enabled(states[n], End(f)) && f.mode == Closure && f.verdict != Pass
    ensures Act(states[n], End(f)).wf.closureCount == states[n].wf.closureCount + 1
  {
    RunKeepsInv(states, actions, m);
    var next := m + 1;
    assert states[next] == Act(states[m], actions[m]);
    WindowUntilCounted(states, actions, next, n);
    ClosureFinishExact(states, actions, n, f);
  }

  // ---- Stops --------------------------------------------------------------------------------

  /** A counted FAIL that reaches the cap. */
  ghost predicate Exhausts(s: System, a: Action) {
    && a.End? && a.f.mode == Closure && a.f.verdict == Fail && s.wf.lastKey == NoKey
    && s.wf.closureCount + 1 == s.wf.maxClosures
  }

  /** A step leaves the leaf stopped if and only if it exhausts the rounds, or the leaf was stopped and the parent does
      not clear it. */
  lemma StopStep(states: seq<System>, actions: seq<Action>, n: nat)
    requires IsRunOf(states, actions) && n < |actions|
    ensures states[n + 1].wf.stop != Running
       <==> Exhausts(states[n], actions[n]) || (states[n].wf.stop != Running && actions[n] != ClearStop)
  {
    RunKeepsInv(states, actions, n);
  }

  /** A stopped leaf starts no review until the parent clears the stop, whatever finishes or is approved. */
  lemma {:induction false} StoppedUntilCleared(states: seq<System>, actions: seq<Action>, m: nat, n: nat)
    requires IsRunOf(states, actions) && m <= n < |states| && states[m].wf.stop != Running
    requires forall k :: m <= k < n ==> actions[k] != ClearStop
    ensures states[n].wf.stop != Running && forall id :: !Enabled(states[n], Begin(id))
    decreases n
  {
    if m < n {
      StoppedUntilCleared(states, actions, m, n - 1);
      RunKeepsInv(states, actions, n - 1);
    }
  }
}
