/** The promise-chain mutex of one key: callers queue behind the previous caller's chain, may give up
    waiting, and remove the map entry when their chain is the last one. */
module PromiseLock {
  import opened Wrappers

  /** A caller waits for the previous chain, runs its task, ends, or gives up waiting. */
  datatype Status = Waiting | Running | Done | TimedOut

  /** `previous` is the caller whose chain was in the map on arrival. */
  datatype Call = Call(previous: Option<nat>, status: Status) {
    predicate Released() {
      status == Done || status == TimedOut
    }
  }

  /** All callers of a key in order of arrival, and the caller whose chain is in the map. */
  datatype Lock = Lock(calls: seq<Call>, entry: Option<nat>)

  datatype Step = Arrive | Acquire(i: nat) | GiveUp(i: nat) | Finish(i: nat) | Remove(i: nat)

  /** Previous callers come before. */
  ghost predicate Linked(calls: seq<Call>) {
    forall i :: 0 <= i < |calls| && calls[i].previous.Some? ==> calls[i].previous.value < i
  }

  /** The chain of a caller settles once its own gate is released and the chain before it has settled. */
  ghost predicate Settled(calls: seq<Call>, i: nat)
    requires Linked(calls) && i < |calls|
    decreases i
  {
    calls[i].Released() && (calls[i].previous.Some? ==> Settled(calls, calls[i].previous.value))
  }

  ghost predicate MayRun(calls: seq<Call>, i: nat)
    requires Linked(calls) && i < |calls|
  {
    calls[i].previous.Some? ==> Settled(calls, calls[i].previous.value)
  }

  ghost predicate Enabled(l: Lock, step: Step)
    requires Linked(l.calls)
  {
    match step
    case Arrive => true
    case Acquire(i) => i < |l.calls| && l.calls[i].status == Waiting && MayRun(l.calls, i)
    case GiveUp(i) => i < |l.calls| && l.calls[i].status == Waiting
    case Finish(i) => i < |l.calls| && l.calls[i].status == Running
    case Remove(i) => i < |l.calls| && Settled(l.calls, i) && l.entry == Some(i)
  }

  function SetStatus(l: Lock, i: nat, status: Status): Lock
    requires i < |l.calls|
  {
    l.(calls := l.calls[i := l.calls[i].(status := status)])
  }

  ghost function Apply(l: Lock, step: Step): Lock
    requires Linked(l.calls) && Enabled(l, step)
  {
    match step
    case Arrive => Lock(l.calls + [Call(l.entry, Waiting)], Some(|l.calls|))
    case Acquire(i) => SetStatus(l, i, Running)
    case GiveUp(i) => SetStatus(l, i, TimedOut)
    case Finish(i) => SetStatus(l, i, Done)
    case Remove(i) => l.(entry := None)
  }

  // ---- The invariant ------------------------------------------------------------------------

  ghost predicate AllReleased(calls: seq<Call>, n: nat)
    requires n <= |calls|
  {
    forall i :: 0 <= i < n ==> calls[i].Released()
  }

  /** A caller follows its direct predecessor, or came when everybody before had ended; the entry is the
      last caller, and is gone only when everybody has ended; whoever has run came after all who ended. */
  ghost predicate Inv(l: Lock) {
    && (forall i :: 0 <= i < |l.calls| && l.calls[i].previous.Some? ==> l.calls[i].previous.value == i - 1)
    && (forall i :: 0 <= i < |l.calls| && l.calls[i].previous.None? ==> AllReleased(l.calls, i))
    && (l.entry.Some? ==> l.entry.value == |l.calls| - 1)
    && (l.entry.None? ==> AllReleased(l.calls, |l.calls|))
    && (forall i :: 0 <= i < |l.calls| && l.calls[i].status in {Running, Done} ==> AllReleased(l.calls, i))
  }

  lemma {:induction false} SettledMeansReleased(calls: seq<Call>, i: nat)
    requires Linked(calls) && i < |calls| && Settled(calls, i)
    requires forall k :: 0 <= k < |calls| && calls[k].previous.Some? ==> calls[k].previous.value == k - 1
    requires forall k :: 0 <= k < |calls| && calls[k].previous.None? ==> AllReleased(calls, k)
    ensures AllReleased(calls, i + 1)
    decreases i
  {
    if calls[i].previous.Some? {
      SettledMeansReleased(calls, i - 1);
    }
  }

  lemma {:induction false} ReleasedMeansSettled(calls: seq<Call>, i: nat)
    requires Linked(calls) && i < |calls| && AllReleased(calls, i + 1)
    ensures Settled(calls, i)
    decreases i
  {
    if calls[i].previous.Some? {
      ReleasedMeansSettled(calls, calls[i].previous.value);
    }
  }

  lemma MayRunMeansFirst(l: Lock, i: nat)
    requires Inv(l) && i < |l.calls| && MayRun(l.calls, i)
    ensures AllReleased(l.calls, i)
  {
    if l.calls[i].previous.Some? {
      SettledMeansReleased(l.calls, i - 1);
    }
  }

  lemma StepKeepsInv(l: Lock, step: Step)
    requires Inv(l) && Enabled(l, step)
    ensures Inv(Apply(l, step))
  {
    match step
    case Arrive =>
      assert forall i :: 0 <= i < |l.calls| ==> Apply(l, step).calls[i] == l.calls[i];
    case Acquire(i) =>
      MayRunMeansFirst(l, i);
    case GiveUp(i) =>
    case Finish(i) =>
    case Remove(i) =>
      SettledMeansReleased(l.calls, i);
  }

  // ---- Runs ---------------------------------------------------------------------------------

  ghost predicate IsRun(states: seq<Lock>, steps: seq<Step>) {
    && |states| == |steps| + 1 && states[0] == Lock([], None)
    && forall n :: 0 <= n < |steps| ==>
      Linked(states[n].calls) && Enabled(states[n], steps[n]) && states[n + 1] == Apply(states[n], steps[n])
  }

  lemma {:induction false} RunKeepsInv(states: seq<Lock>, steps: seq<Step>, n: nat)
    requires IsRun(states, steps) && n < |states|
    ensures Inv(states[n]) && Linked(states[n].calls)
  {
    if n > 0 {
      RunKeepsInv(states, steps, n - 1);
      StepKeepsInv(states[n - 1], steps[n - 1]);
    }
  }

  /** In every schedule at most one task of a key runs. */
  lemma AtMostOneRuns(states: seq<Lock>, steps: seq<Step>, n: nat, i: nat, j: nat)
    requires IsRun(states, steps) && n < |states|
    requires i < |states[n].calls| && j < |states[n].calls|
    requires states[n].calls[i].status == Running && states[n].calls[j].status == Running
    ensures i == j
  {
    RunKeepsInv(states, steps, n);
  }

  /** Tasks run in order of arrival: when a task runs, every earlier caller has finished or given up. So
      a caller that gave up never lets a successor overtake the current holder, and removing the map
      entry never admits a second one. */
  lemma TasksRunInOrder(states: seq<Lock>, steps: seq<Step>, n: nat, i: nat, j: nat)
    requires IsRun(states, steps) && n < |steps| && steps[n] == Acquire(j) && i < j
    ensures j < |states[n].calls| && states[n].calls[i].Released()
  {
    RunKeepsInv(states, steps, n);
    MayRunMeansFirst(states[n], j);
  }

  /** Who has given up never runs, and who has finished never runs again. */
  lemma {:induction false} EndedStaysEnded(states: seq<Lock>, steps: seq<Step>, m: nat, n: nat, i: nat)
    requires IsRun(states, steps) && m <= n < |states| && i < |states[m].calls| && states[m].calls[i].Released()
    ensures i < |states[n].calls| && states[n].calls[i].status == states[m].calls[i].status
    decreases n - m
  {
    if m < n {
      EndedStaysEnded(states, steps, m, n - 1, i);
    }
  }

  /** No deadlock: while somebody waits, either a task is running or the first waiting caller may run. */
  lemma SomebodyCanProceed(states: seq<Lock>, steps: seq<Step>, n: nat, waiting: nat)
    requires IsRun(states, steps) && n < |states| && waiting < |states[n].calls|
      && states[n].calls[waiting].status == Waiting
    ensures Linked(states[n].calls) && exists step: Step :: (step.Acquire? || step.Finish?) && Enabled(states[n], step)
  {
    RunKeepsInv(states, steps, n);
    var i := FirstUnreleased(states[n].calls, waiting);
    if states[n].calls[i].status == Running {
      assert Enabled(states[n], Finish(i));
    } else {
      if states[n].calls[i].previous.Some? {
        ReleasedMeansSettled(states[n].calls, i - 1);
      }
      assert Enabled(states[n], Acquire(i));
    }
  }

  lemma {:induction false} FirstUnreleased(calls: seq<Call>, bound: nat) returns (i: nat)
    requires bound < |calls| && !calls[bound].Released()
    ensures i <= bound && !calls[i].Released() && AllReleased(calls, i)
    decreases bound
  {
    if k :| 0 <= k < bound && !calls[k].Released() {
      i := FirstUnreleased(calls, k);
    } else {
      i := bound;
    }
  }

  lemma StatusStep(l: Lock, step: Step, i: nat)
    requires Linked(l.calls) && Enabled(l, step) && i < |Apply(l, step).calls|
    ensures var status := Apply(l, step).calls[i].status;
      && (status == Done <==> step == Finish(i) || (i < |l.calls| && l.calls[i].status == Done))
      && (status == TimedOut <==> step == GiveUp(i) || (i < |l.calls| && l.calls[i].status == TimedOut))
  {
  }

  /** A caller is done if and only if its task has run to its end, and timed out if and only if it gave up waiting. */
  lemma {:induction false} EndedExactly(states: seq<Lock>, steps: seq<Step>, n: nat, i: nat)
    requires IsRun(states, steps) && n < |states| && i < |states[n].calls|
    ensures states[n].calls[i].status == Done <==> exists k :: 0 <= k < n && steps[k] == Finish(i)
    ensures states[n].calls[i].status == TimedOut <==> exists k :: 0 <= k < n && steps[k] == GiveUp(i)
  {
    if n > 0 {
      var last := n - 1;
      StatusStep(states[last], steps[last], i);
      if i < |states[last].calls| {
        EndedExactly(states, steps, last, i);
      } else {
        NotBeforeArrival(states, steps, last, i);
      }
    }
  }

  lemma {:induction false} NotBeforeArrival(states: seq<Lock>, steps: seq<Step>, n: nat, i: nat)
    requires IsRun(states, steps) && n < |states| && i >= |states[n].calls|
    ensures forall k :: 0 <= k < n ==> steps[k] != Finish(i) && steps[k] != GiveUp(i)
  {
    if n > 0 {
      NotBeforeArrival(states, steps, n - 1, i);
    }
  }

  // ---- Every schedule ends ------------------------------------------------------------------

  /** The steps a caller has ahead of it. */
  function Ahead(status: Status): nat {
    match status
    case Waiting => 2
    case Running => 1
    case _ => 0
  }

  function AllAhead(calls: seq<Call>): nat {
    if calls == [] then 0 else AllAhead(calls[..|calls| - 1]) + Ahead(calls[|calls| - 1].status)
  }

  /** With the step that removes the entry. */
  function Work(l: Lock): nat {
    AllAhead(l.calls) + if l.entry.Some? then 1 else 0
  }

  lemma {:induction false} AheadUpdated(calls: seq<Call>, i: nat, call: Call)
    requires i < |calls|
    ensures AllAhead(calls[i := call]) + Ahead(calls[i].status) == AllAhead(calls) + Ahead(call.status)
  {
    var n := |calls| - 1;
    if i < n {
      AheadUpdated(calls[..n], i, call);
      assert calls[i := call][..n] == calls[..n][i := call];
    } else {
      assert calls[i := call][..n] == calls[..n];
    }
  }

  lemma StepWorks(l: Lock, step: Step)
    requires Linked(l.calls) && Enabled(l, step)
    ensures if step.Arrive? then Work(Apply(l, step)) <= Work(l) + 3 else Work(Apply(l, step)) < Work(l)
  {
    match step
    case Arrive => assert (l.calls + [Call(l.entry, Waiting)])[..|l.calls|] == l.calls;
    case Acquire(i) => AheadUpdated(l.calls, i, l.calls[i].(status := Running));
    case GiveUp(i) => AheadUpdated(l.calls, i, l.calls[i].(status := TimedOut));
    case Finish(i) => AheadUpdated(l.calls, i, l.calls[i].(status := Done));
    case Remove(i) =>
  }

  function Arrivals(steps: seq<Step>, n: nat): (count: nat)
    requires n <= |steps|
  {
    if n == 0 then 0 else Arrivals(steps, n - 1) + if steps[n - 1].Arrive? then 1 else 0
  }

  /** No livelock: a schedule takes at most four steps per caller, so once nobody arrives any more it ends, and it can
      only end with nobody waiting. */
  lemma {:induction false} SchedulesEnd(states: seq<Lock>, steps: seq<Step>, n: nat)
    requires IsRun(states, steps) && n < |states|
    ensures n + Work(states[n]) <= 4 * Arrivals(steps, n)
  {
    if n > 0 {
      SchedulesEnd(states, steps, n - 1);
      StepWorks(states[n - 1], steps[n - 1]);
    }
  }
}
