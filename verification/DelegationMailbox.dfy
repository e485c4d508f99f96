/** Delivery of one mailbox message as a transition system: deliveries under per-recipient locks, the
    start of the recipient's run, explicit retries, redirects, timeouts, crashes and the reconcile on boot. */
module DelegationMailbox {
  import opened Wrappers

  datatype Status = Queued | Dispatching | Delivered | Uncertain | Failed

  /** The stored row. `request` is the delivery request id, `lease` its revision, `owner` the process that
      holds it, `hasRun` whether a run id is stored. */
  datatype Row = Row(status: Status, chat: nat, request: Option<nat>, lease: nat, owner: nat, hasRun: bool)

  /** A run accepted by a recipient for a request; `named` if its run id is known. */
  datatype AcceptedRun = AcceptedRun(chat: nat, request: nat, named: bool)

  /** What the start of a run returned to the delivery. */
  datatype Outcome = Accepted(named: bool) | RecipientBusy | StartError

  /** Where a delivery is: waiting for the lock of a chat, publishing the card, starting the run, with its
      durable intent recorded, back from the start, or over. */
  datatype Delivery =
    | WaitsFor(chat: nat)
    | Publishing(chat: nat, seen: Row)
    | Starting(chat: nat, request: nat, lease: nat)
    | Recorded(chat: nat, request: nat, lease: nat)
    | Returned(chat: nat, lease: nat, outcome: Outcome)
    | Over
  {
    predicate HoldsLock() {
      Publishing? || Starting? || Recorded? || Returned?
    }
  }

  /** A durable launch record: unproven or accepted, or proven not to have reached the executor. */
  datatype Intent = Unproven | Refused

  /** `recovery` says whether the recovery store is open; its records are keyed by request alone. */
  datatype System = System(
    recovery: bool, row: Row, deliveries: seq<Delivery>, process: nat, intents: map<nat, Intent>,
    runs: seq<AcceptedRun>, used: set<nat>)

  /** The durable lookup answers yes, no, or that it does not know. */
  datatype Answer = Yes | No | Unknown

  datatype GateResult = Busy | ChatMissing | CycleClosed | Dispatch(newId: nat)

  datatype Action =
    | Redirect(chat: nat)
    | Begin
    | Enter(i: nat, elsewhere: bool)
    | Proceed(i: nat, gate: GateResult)
    | Replay(i: nat)
    | Refuse(i: nat, outcome: Outcome)
    | RecordIntent(i: nat, answer: Answer)
    | Accept(i: nat, named: bool, reported: bool)
    | Conclude(i: nat)
    | DispatchTimeout
    | Retry(answer: Answer)
    | Restart(answer: Answer)

  // ---- Lookups ------------------------------------------------------------------------------

  predicate Covers(run: AcceptedRun, chat: nat, request: nat) {
    run.chat == chat && run.request == request
  }

  predicate HasRun(s: System, chat: nat, request: nat) {
    exists run :: run in s.runs && Covers(run, chat, request)
  }

  predicate HasNamedRun(s: System, chat: nat, request: nat) {
    exists run :: run in s.runs && Covers(run, chat, request) && run.named
  }

  /** A lookup says yes only for an accepted run. */
  predicate Honest(s: System, chat: nat, request: nat, answer: Answer) {
    answer == Yes ==> HasRun(s, chat, request)
  }

  predicate RowHonest(s: System, answer: Answer) {
    if s.row.request.Some? then Honest(s, s.row.chat, s.row.request.value, answer) else answer == Unknown
  }

  /** The lookup of a row found an accepted run and its run id. */
  predicate FoundNamed(s: System, answer: Answer) {
    s.row.request.Some? && answer == Yes && HasNamedRun(s, s.row.chat, s.row.request.value)
  }

  /** A launch is recorded unless an earlier one of the same request may have reached the executor. */
  predicate MayRecord(s: System, request: nat) {
    s.recovery ==> request !in s.intents || s.intents[request] == Refused
  }

  predicate LeaseHeld(s: System, lease: nat) {
    s.row.status == Dispatching && s.row.lease == lease && s.row.owner == s.process
  }

  predicate LockFree(s: System, chat: nat) {
    forall i :: 0 <= i < |s.deliveries| && s.deliveries[i].HoldsLock() ==> s.deliveries[i].chat != chat
  }

  // ---- Steps --------------------------------------------------------------------------------

  predicate Enabled(s: System, a: Action) {
    match a
    case Redirect(chat) => s.row.status == Queued && chat != s.row.chat
    case Begin => true
    case Enter(i, _) => i < |s.deliveries| && s.deliveries[i].WaitsFor? && LockFree(s, s.deliveries[i].chat)
    case Proceed(i, gate) => i < |s.deliveries| && s.deliveries[i].Publishing?
      && (gate.Dispatch? ==> gate.newId !in s.used)
    case Replay(i) => i < |s.deliveries| && s.deliveries[i].Starting?
      && HasRun(s, s.deliveries[i].chat, s.deliveries[i].request)
    case Refuse(i, outcome) => i < |s.deliveries| && (s.deliveries[i].Starting? || s.deliveries[i].Recorded?)
      && !outcome.Accepted?
    case RecordIntent(i, answer) =>
      && i < |s.deliveries| && s.deliveries[i].Starting? && MayRecord(s, s.deliveries[i].request)
      && answer != Yes && Honest(s, s.deliveries[i].chat, s.deliveries[i].request, answer)
    case Accept(i, _, _) => i < |s.deliveries| && s.deliveries[i].Recorded?
    case Conclude(i) => i < |s.deliveries| && s.deliveries[i].Returned?
    case DispatchTimeout => s.row.status == Dispatching
    case Retry(answer) => s.row.status in {Failed, Uncertain} && RowHonest(s, answer)
    case Restart(answer) => RowHonest(s, answer)
  }

  function Put(s: System, i: nat, d: Delivery): System
    requires i < |s.deliveries|
  {
    s.(deliveries := s.deliveries[i := d])
  }

  function WithStatus(s: System, status: Status): System {
    s.(row := s.row.(status := status))
  }

  /** A dispatch writes the lease and a request id: the one it has seen, or a fresh one. */
  function Dispatched(s: System, i: nat, newId: nat): System
    requires i < |s.deliveries| && s.deliveries[i].Publishing?
  {
    var d := s.deliveries[i];
    var request := if d.seen.request.Some? then d.seen.request.value else newId;
    var row := s.row.(status := Dispatching, request := Some(request), lease := d.seen.lease + 1, owner := s.process);
    Put(s.(row := row, used := s.used + {request}), i, Starting(d.chat, request, d.seen.lease + 1))
  }

  function OutcomeStatus(outcome: Outcome): Status {
    match outcome
    case Accepted(named) => if named then Delivered else Uncertain
    case RecipientBusy => Queued
    case StartError => Failed
  }

  /** The process dies with its deliveries; on boot a dispatching row is decided by its run id and the
      durable lookup, and is uncertain when neither decides. */
  function Rebooted(s: System, answer: Answer): System {
    var dead := s.(deliveries := [], process := s.process + 1);
    if s.row.status != Dispatching then dead
    else if s.row.hasRun then WithStatus(dead, Delivered)
    else if FoundNamed(s, answer) then dead.(row := s.row.(status := Delivered, hasRun := true))
    else if s.row.request.Some? && answer == No then WithStatus(dead, Queued)
    else WithStatus(dead, Uncertain)
  }

  function Apply(s: System, a: Action): System
    requires Enabled(s, a)
  {
    match a
    case Redirect(chat) => s.(row := s.row.(chat := chat))
    case Begin => s.(deliveries := s.deliveries + [WaitsFor(s.row.chat)])
    case Enter(i, elsewhere) =>
      var d := s.deliveries[i];
      if s.row.chat != d.chat || s.row.status in {Delivered, Uncertain, Dispatching} then Put(s, i, Over)
      else if elsewhere then Put(WithStatus(s, Delivered), i, Over)
      else Put(s, i, Publishing(d.chat, s.row))
    case Proceed(i, gate) =>
      (match gate
       case Busy => Put(WithStatus(s, Queued), i, Over)
       case ChatMissing => Put(WithStatus(s, Failed), i, Over)
       case CycleClosed => Put(WithStatus(s, Delivered), i, Over)
       case Dispatch(newId) => Dispatched(s, i, newId))
    case Replay(i) =>
      var d := s.deliveries[i];
      Put(s, i, Returned(d.chat, d.lease, Accepted(HasNamedRun(s, d.chat, d.request))))
    case Refuse(i, outcome) =>
      var d := s.deliveries[i];
      var proven := s.recovery && d.Recorded? && outcome == RecipientBusy;
      Put(if proven then s.(intents := s.intents[d.request := Refused]) else s, i, Returned(d.chat, d.lease, outcome))
    case RecordIntent(i, _) =>
      var d := s.deliveries[i];
      Put(if s.recovery then s.(intents := s.intents[d.request := Unproven]) else s,
          i, Recorded(d.chat, d.request, d.lease))
    case Accept(i, named, reported) =>
      var d := s.deliveries[i];
      Put(s.(runs := s.runs + [AcceptedRun(d.chat, d.request, named)]), i,
          Returned(d.chat, d.lease, if reported then Accepted(named) else StartError))
    case Conclude(i) =>
      var d := s.deliveries[i];
      var done := Put(s, i, Over);
      if !LeaseHeld(s, d.lease) then done
      else done.(row := s.row.(status := OutcomeStatus(d.outcome),
                               hasRun := s.row.hasRun || d.outcome == Accepted(true)))
    case DispatchTimeout => WithStatus(s, Uncertain)
    case Retry(answer) =>
      if FoundNamed(s, answer) then s.(row := s.row.(status := Delivered, hasRun := true)) else WithStatus(s, Queued)
    case Restart(answer) => Rebooted(s, answer)
  }

  /** Steps of one delivery; the other steps change the row or the list of deliveries. */
  predicate OfDelivery(a: Action) {
    a.Enter? || a.Proceed? || a.Replay? || a.Refuse? || a.RecordIntent? || a.Accept? || a.Conclude?
  }

  function Mover(a: Action): nat
    requires OfDelivery(a)
  {
    match a
    case Enter(i, _) => i
    case Proceed(i, _) => i
    case Replay(i) => i
    case Refuse(i, _) => i
    case RecordIntent(i, _) => i
    case Accept(i, _, _) => i
    case Conclude(i) => i
  }

  /** The only delivery a step of delivery `i` changes is `i` itself, and it stays with its chat. */
  lemma StepOfOne(s: System, a: Action, i: nat)
    requires Enabled(s, a) && OfDelivery(a) && i == Mover(a)
    ensures i < |s.deliveries| == |Apply(s, a).deliveries| && Apply(s, a).row.chat == s.row.chat
    ensures forall j :: 0 <= j < |s.deliveries| && j != i ==> Apply(s, a).deliveries[j] == s.deliveries[j]
    ensures Apply(s, a).deliveries[i].HoldsLock() ==> Apply(s, a).deliveries[i].chat == s.deliveries[i].chat
  {
  }

  // ---- Assumptions on a run -----------------------------------------------------------------

  /** A redirect is safe while no request id was ever issued and nobody is about to issue one. */
  predicate SafeRedirect(s: System, a: Action) {
    a.Redirect? ==> s.row.request.None? && forall i :: 0 <= i < |s.deliveries| ==> !s.deliveries[i].Publishing?
  }

  predicate TrueAnswer(s: System, chat: nat, request: nat, answer: Answer) {
    HasRun(s, chat, request) ==> answer == Yes
  }

  /** The lookup says yes for every accepted run. */
  predicate TruthfulLookup(s: System, a: Action) {
    && (a.RecordIntent? && a.i < |s.deliveries| && s.deliveries[a.i].Starting? ==>
          TrueAnswer(s, s.deliveries[a.i].chat, s.deliveries[a.i].request, a.answer))
    && ((a.Retry? || a.Restart?) && s.row.request.Some? ==> TrueAnswer(s, s.row.chat, s.row.request.value, a.answer))
  }

  predicate NotDenied(s: System, chat: nat, request: nat, answer: Answer) {
    HasRun(s, chat, request) ==> answer != No
  }

  /** The lookup may not know an accepted run, but never denies one. */
  predicate NeverDenies(s: System, a: Action) {
    (a.Restart? && s.row.request.Some? ==> NotDenied(s, s.row.chat, s.row.request.value, a.answer))
  }

  ghost predicate Initial(s: System) {
    s.row.status == Queued && s.row.request == None && !s.row.hasRun && s.deliveries == [] && s.runs == []
      && s.intents == map[] && s.used == {}
  }

  ghost predicate IsRun(states: seq<System>, actions: seq<Action>) {
    && |states| == |actions| + 1 && Initial(states[0])
    && forall n :: 0 <= n < |actions| ==>
      Enabled(states[n], actions[n]) && states[n + 1] == Apply(states[n], actions[n])
  }

  // ---- The recovery store -------------------------------------------------------------------

  /** Requests of a list of runs do not repeat. */
  ghost predicate DistinctRequests(runs: seq<AcceptedRun>) {
    forall i, j :: 0 <= i < j < |runs| ==> runs[i].request != runs[j].request
  }

  /** A recorded launch is unproven, is the only one of its request, and has no accepted run yet. */
  ghost predicate LaunchesOk(s: System) {
    && (forall run :: run in s.runs ==> run.request in s.intents && s.intents[run.request] == Unproven)
    && (forall i :: 0 <= i < |s.deliveries| && s.deliveries[i].Recorded? ==>
          s.deliveries[i].request in s.intents && s.intents[s.deliveries[i].request] == Unproven)
    && (forall i, run :: 0 <= i < |s.deliveries| && s.deliveries[i].Recorded? && run in s.runs ==>
        run.request != s.deliveries[i].request)
    && (forall i, j :: 0 <= i < j < |s.deliveries| && s.deliveries[i].Recorded? && s.deliveries[j].Recorded? ==>
          s.deliveries[i].request != s.deliveries[j].request)
    && DistinctRequests(s.runs)
  }

  /** Steps that start no run and refuse none leave the launches alone. */
  predicate Launches(a: Action) {
    a.RecordIntent? || a.Refuse? || a.Accept?
  }

  lemma OtherStepKeepsLaunches(s: System, a: Action)
    requires s.recovery && LaunchesOk(s) && Enabled(s, a) && !Launches(a)
    ensures Apply(s, a).recovery && LaunchesOk(Apply(s, a))
  {
    var after := Apply(s, a);
    assert after.runs == s.runs && after.intents == s.intents;
    forall i | 0 <= i < |after.deliveries| && after.deliveries[i].Recorded?
      ensures i < |s.deliveries| && after.deliveries[i] == s.deliveries[i]
    {
    }
  }

  lemma RecordKeepsLaunches(s: System, a: Action)
    requires s.recovery && LaunchesOk(s) && Enabled(s, a) && a.RecordIntent?
    ensures Apply(s, a).recovery && LaunchesOk(Apply(s, a))
  {
  }

  lemma RefuseKeepsLaunches(s: System, a: Action)
    requires s.recovery && LaunchesOk(s) && Enabled(s, a) && a.Refuse?
    ensures Apply(s, a).recovery && LaunchesOk(Apply(s, a))
  {
  }

  lemma AcceptKeepsLaunches(s: System, a: Action)
    requires s.recovery && LaunchesOk(s) && Enabled(s, a) && a.Accept?
    ensures Apply(s, a).recovery && LaunchesOk(Apply(s, a))
  {
  }

  lemma StepKeepsLaunches(s: System, a: Action)
    requires s.recovery && LaunchesOk(s) && Enabled(s, a)
    ensures Apply(s, a).recovery && LaunchesOk(Apply(s, a))
  {
    if a.RecordIntent? {
      RecordKeepsLaunches(s, a);
    } else if a.Refuse? {
      RefuseKeepsLaunches(s, a);
    } else if a.Accept? {
      AcceptKeepsLaunches(s, a);
    } else {
      OtherStepKeepsLaunches(s, a);
    }
  }

  /** With the recovery store open, every accepted run has a durable launch record, and no request is ever
      accepted twice: whatever is redirected, retried, timed out or crashed, and whatever lookups answer. */
  lemma {:induction false} RequestAcceptedOnce(states: seq<System>, actions: seq<Action>, n: nat)
    requires IsRun(states, actions) && states[0].recovery && n < |states|
    ensures states[n].recovery && LaunchesOk(states[n])
  {
    if n > 0 {
      RequestAcceptedOnce(states, actions, n - 1);
      StepKeepsLaunches(states[n - 1], actions[n - 1]);
    }
  }

  // ---- The delivery request id --------------------------------------------------------------

  /** A delivery that saw no request id dispatches after another has issued one. */
  predicate IssuesAgain(s: System, a: Action) {
    && a.Proceed? && a.gate.Dispatch? && a.i < |s.deliveries| && s.deliveries[a.i].Publishing?
    && s.deliveries[a.i].seen.request.None? && s.row.request.Some?
  }

  function IssuesBefore(states: seq<System>, actions: seq<Action>, n: nat): nat
    requires n <= |states| && n <= |actions|
  {
    if n == 0 then 0
    else IssuesBefore(states, actions, n - 1) + if IssuesAgain(states[n - 1], actions[n - 1]) then 1 else 0
  }

  predicate RequestUsed(used: set<nat>, d: Delivery) {
    && (d.Publishing? && d.seen.request.Some? ==> d.seen.request.value in used)
    && (d.Starting? || d.Recorded? ==> d.request in used)
  }

  /** Every request id around was issued, and none was while the row has none. */
  ghost predicate Issued(s: System) {
    && (match s.row.request case Some(id) => id in s.used case None => s.used == {})
    && (forall i :: 0 <= i < |s.deliveries| ==> RequestUsed(s.used, s.deliveries[i]))
    && (forall run :: run in s.runs ==> run.request in s.used)
  }

  function RequestsOf(row: Row): nat {
    if row.request.Some? then 1 else 0
  }

  lemma DispatchIssues(s: System, a: Action)
    requires Issued(s) && Enabled(s, a) && a.Proceed? && a.gate.Dispatch?
    ensures Issued(Apply(s, a))
    ensures |Apply(s, a).used| - RequestsOf(Apply(s, a).row) == |s.used| - RequestsOf(s.row)
      + if IssuesAgain(s, a) then 1 else 0
  {
    var seen := s.deliveries[a.i].seen.request;
    assert RequestUsed(s.used, s.deliveries[a.i]);
    assert seen.Some? ==> s.used + {seen.value} == s.used;
  }

  lemma ProceedIssues(s: System, a: Action)
    requires Issued(s) && Enabled(s, a) && a.Proceed?
    ensures Issued(Apply(s, a))
    ensures |Apply(s, a).used| - RequestsOf(Apply(s, a).row) == |s.used| - RequestsOf(s.row)
      + if IssuesAgain(s, a) then 1 else 0
  {
    if a.gate.Dispatch? {
      DispatchIssues(s, a);
    }
  }

  lemma AcceptIssues(s: System, a: Action)
    requires Issued(s) && Enabled(s, a) && a.Accept?
    ensures Issued(Apply(s, a)) && Apply(s, a).used == s.used && Apply(s, a).row == s.row
  {
    assert RequestUsed(s.used, s.deliveries[a.i]);
  }

  lemma StepKeepsIssued(s: System, a: Action)
    requires Issued(s) && Enabled(s, a)
    ensures Issued(Apply(s, a))
    ensures |Apply(s, a).used| - RequestsOf(Apply(s, a).row) == |s.used| - RequestsOf(s.row)
      + if IssuesAgain(s, a) then 1 else 0
  {
    if a.Proceed? {
      ProceedIssues(s, a);
    } else if a.Accept? {
      AcceptIssues(s, a);
    } else {
      assert Apply(s, a).used == s.used && Apply(s, a).row.request == s.row.request && Apply(s, a).runs == s.runs;
    }
  }

  /** In every run of the system, the request ids issued are the first one and one for every dispatch that
      issues again. */
  lemma {:induction false} IssuesCounted(states: seq<System>, actions: seq<Action>, n: nat)
    requires IsRun(states, actions) && n < |states|
    ensures Issued(states[n]) && |states[n].used| == RequestsOf(states[n].row) + IssuesBefore(states, actions, n)
  {
    if n > 0 {
      IssuesCounted(states, actions, n - 1);
      StepKeepsIssued(states[n - 1], actions[n - 1]);
    }
  }

  /** Every delivery that publishes saw no request id or the row's. */
  ghost predicate SeenRequest(s: System) {
    forall i :: 0 <= i < |s.deliveries| && s.deliveries[i].Publishing? && s.deliveries[i].seen.request.Some? ==>
      s.deliveries[i].seen.request == s.row.request
  }

  lemma StepKeepsSeen(s: System, a: Action)
    requires SeenRequest(s) && Enabled(s, a) && !IssuesAgain(s, a)
    ensures SeenRequest(Apply(s, a))
    ensures s.row.request.Some? ==> Apply(s, a).row.request == s.row.request
  {
  }

  lemma {:induction false} RequestKept(states: seq<System>, actions: seq<Action>, m: nat, n: nat)
    requires IsRun(states, actions) && m <= n < |states|
    requires forall k :: 0 <= k < n ==> !IssuesAgain(states[k], actions[k])
    ensures SeenRequest(states[n]) && (states[m].row.request.Some? ==> states[n].row.request == states[m].row.request)
    decreases n
  {
    if m < n {
      RequestKept(states, actions, m, n - 1);
      StepKeepsSeen(states[n - 1], actions[n - 1]);
    } else if n > 0 {
      RequestKept(states, actions, n - 1, n - 1);
      StepKeepsSeen(states[n - 1], actions[n - 1]);
    }
  }

  lemma IssuesAgainChanges(states: seq<System>, actions: seq<Action>, k: nat)
    requires IsRun(states, actions) && k < |actions| && IssuesAgain(states[k], actions[k])
    ensures states[k].row.request.Some? && states[k + 1].row.request != states[k].row.request
  {
    IssuesCounted(states, actions, k);
  }

  ghost predicate RequestStable(states: seq<System>) {
    forall m, n :: 0 <= m <= n < |states| && states[m].row.request.Some? ==>
      states[n].row.request == states[m].row.request
  }

  /** In a run of the system the request id, once set, never changes if and only if no delivery that saw
      none dispatches after another has issued one: not over crashes, retries, timeouts or other redirects. */
  lemma RequestStableExactly(states: seq<System>, actions: seq<Action>)
    requires IsRun(states, actions)
    ensures RequestStable(states) <==> forall k :: 0 <= k < |actions| ==> !IssuesAgain(states[k], actions[k])
  {
    if k :| 0 <= k < |actions| && IssuesAgain(states[k], actions[k]) {
      IssuesAgainChanges(states, actions, k);
    } else {
      forall m, n | 0 <= m <= n < |states| && states[m].row.request.Some?
        ensures states[n].row.request == states[m].row.request
      {
        RequestKept(states, actions, m, n);
      }
    }
  }

  // ---- Redirects outside the publishing window ----------------------------------------------

  /** No redirect while a delivery is publishing its card. */
  predicate CalmRedirect(s: System, a: Action) {
    a.Redirect? ==> forall i :: 0 <= i < |s.deliveries| ==> !s.deliveries[i].Publishing?
  }

  /** A delivery that publishes has seen the row's request; before there is one, a single delivery can issue it. */
  ghost predicate SoleIssuer(s: System) {
    && (forall i :: 0 <= i < |s.deliveries| && s.deliveries[i].Publishing? ==>
        s.deliveries[i].seen.request == s.row.request)
    && (s.row.request == None ==>
          && (forall i :: 0 <= i < |s.deliveries| && s.deliveries[i].HoldsLock() ==>
              s.deliveries[i].Publishing? && s.deliveries[i].chat == s.row.chat)
          && (forall i, j :: 0 <= i < j < |s.deliveries| ==>
              !(s.deliveries[i].HoldsLock() && s.deliveries[j].HoldsLock())))
  }

  lemma ProceedKeepsIssuer(s: System, a: Action)
    requires SoleIssuer(s) && Enabled(s, a) && a.Proceed?
    ensures SoleIssuer(Apply(s, a))
  {
  }

  lemma EnterKeepsIssuer(s: System, a: Action)
    requires SoleIssuer(s) && Enabled(s, a) && a.Enter?
    ensures SoleIssuer(Apply(s, a))
  {
  }

  lemma DeliveryKeepsIssuer(s: System, a: Action)
    requires SoleIssuer(s) && Enabled(s, a) && OfDelivery(a) && !a.Proceed? && !a.Enter?
    ensures SoleIssuer(Apply(s, a))
  {
    StepOfOne(s, a, Mover(a));
    assert Apply(s, a).row.request == s.row.request;
  }

  lemma StepKeepsIssuer(s: System, a: Action)
    requires SoleIssuer(s) && Enabled(s, a) && CalmRedirect(s, a)
    ensures SoleIssuer(Apply(s, a))
  {
    if a.Proceed? {
      ProceedKeepsIssuer(s, a);
    } else if a.Enter? {
      EnterKeepsIssuer(s, a);
    } else if OfDelivery(a) {
      DeliveryKeepsIssuer(s, a);
    }
  }

  ghost predicate CalmlyRedirected(states: seq<System>, actions: seq<Action>) {
    IsRun(states, actions) && forall n :: 0 <= n < |actions| ==> CalmRedirect(states[n], actions[n])
  }

  lemma {:induction false} RunKeepsIssuer(states: seq<System>, actions: seq<Action>, n: nat)
    requires CalmlyRedirected(states, actions) && n < |states|
    ensures SoleIssuer(states[n])
  {
    if n > 0 {
      RunKeepsIssuer(states, actions, n - 1);
      StepKeepsIssuer(states[n - 1], actions[n - 1]);
    }
  }

  lemma {:induction false} CalmIssuesOnce(states: seq<System>, actions: seq<Action>, n: nat)
    requires CalmlyRedirected(states, actions) && n <= |actions|
    ensures IssuesBefore(states, actions, n) == 0
  {
    if n > 0 {
      CalmIssuesOnce(states, actions, n - 1);
      RunKeepsIssuer(states, actions, n - 1);
    }
  }

  /** Without a redirect in the publishing window the request id, once set, never changes. */
  lemma RequestNeverChanges(states: seq<System>, actions: seq<Action>)
    requires CalmlyRedirected(states, actions)
    ensures RequestStable(states)
  {
    forall k | 0 <= k < |actions| ensures !IssuesAgain(states[k], actions[k]) {
      RunKeepsIssuer(states, actions, k);
    }
    RequestStableExactly(states, actions);
  }

  // ---- Accepted runs and issued requests ----------------------------------------------------

  lemma {:induction false} DistinctWithin(runs: seq<AcceptedRun>, used: set<nat>)
    requires DistinctRequests(runs) && forall run :: run in runs ==> run.request in used
    ensures |runs| <= |used|
  {
    if runs != [] {
      var last := runs[|runs| - 1];
      assert last in runs;
      DistinctWithin(runs[..|runs| - 1], used - {last.request});
    }
  }

  /** With the recovery store open the accepted runs of a message are at most the request ids issued for it, in every
      run of the system: one, and one more for every dispatch that issues again. */
  lemma RecoveryBoundsRuns(states: seq<System>, actions: seq<Action>, n: nat)
    requires IsRun(states, actions) && states[0].recovery && n < |states|
    ensures |states[n].runs| <= 1 + IssuesBefore(states, actions, n)
  {
    RequestAcceptedOnce(states, actions, n);
    IssuesCounted(states, actions, n);
    DistinctWithin(states[n].runs, states[n].used);
  }

  /** Without a redirect in the publishing window a message has at most one accepted run. */
  lemma RecoveryGivesOneRun(states: seq<System>, actions: seq<Action>, n: nat)
    requires CalmlyRedirected(states, actions) && states[0].recovery && n < |states|
    ensures |states[n].runs| <= 1
  {
    RecoveryBoundsRuns(states, actions, n);
    CalmIssuesOnce(states, actions, n);
  }

  // ---- Without the recovery store: one place, one request ------------------------------------

  /** Every delivery that holds a lock works on the row's chat, and there is only one. */
  ghost predicate OneHolder(s: System) {
    && (forall i :: 0 <= i < |s.deliveries| && s.deliveries[i].HoldsLock() ==> s.deliveries[i].chat == s.row.chat)
    && (forall i, j :: 0 <= i < j < |s.deliveries| ==> !(s.deliveries[i].HoldsLock() && s.deliveries[j].HoldsLock()))
  }

  /** A delivery has seen, or works with, the row's request and lease. */
  predicate CarriesLease(row: Row, d: Delivery) {
    && (d.Publishing? ==> d.seen.request == row.request && d.seen.lease == row.lease)
    && (d.Starting? || d.Recorded? ==> row.request == Some(d.request))
    && (d.Returned? ==> row.request.Some?)
  }

  /** Deliveries and accepted runs carry the row's request, and the runs are in the row's chat. */
  ghost predicate OneRequest(s: System) {
    && (forall i :: 0 <= i < |s.deliveries| ==> CarriesLease(s.row, s.deliveries[i]))
    && (forall run :: run in s.runs ==> run.chat == s.row.chat && s.row.request == Some(run.request))
  }

  lemma DeliveryKeepsHolder(s: System, a: Action)
    requires OneHolder(s) && Enabled(s, a) && OfDelivery(a)
    ensures OneHolder(Apply(s, a))
  {
    StepOfOne(s, a, Mover(a));
  }

  lemma StepKeepsHolder(s: System, a: Action)
    requires OneHolder(s) && OneRequest(s) && Enabled(s, a) && SafeRedirect(s, a)
    ensures OneHolder(Apply(s, a))
  {
    if OfDelivery(a) {
      DeliveryKeepsHolder(s, a);
    }
  }

  lemma ProceedKeepsRequest(s: System, a: Action)
    requires OneHolder(s) && OneRequest(s) && Enabled(s, a) && a.Proceed?
    ensures OneRequest(Apply(s, a))
    ensures s.row.request.Some? ==> Apply(s, a).row.request == s.row.request
  {
  }

  lemma AcceptKeepsRequest(s: System, a: Action)
    requires OneHolder(s) && OneRequest(s) && Enabled(s, a) && a.Accept?
    ensures OneRequest(Apply(s, a)) && Apply(s, a).row.request == s.row.request
  {
  }

  lemma StepKeepsRequest(s: System, a: Action)
    requires OneHolder(s) && OneRequest(s) && Enabled(s, a) && SafeRedirect(s, a)
    ensures OneRequest(Apply(s, a))
    ensures s.row.request.Some? ==> Apply(s, a).row.request == s.row.request
  {
    if a.Proceed? {
      ProceedKeepsRequest(s, a);
    } else if a.Accept? {
      AcceptKeepsRequest(s, a);
    } else {
      assert Apply(s, a).runs == s.runs && Apply(s, a).row.request == s.row.request;
    }
  }

  ghost predicate SafelyRedirected(states: seq<System>, actions: seq<Action>) {
    IsRun(states, actions) && forall n :: 0 <= n < |actions| ==> SafeRedirect(states[n], actions[n])
  }

  lemma {:induction false} RunKeepsPlace(states: seq<System>, actions: seq<Action>, n: nat)
    requires SafelyRedirected(states, actions) && n < |states|
    ensures OneHolder(states[n]) && OneRequest(states[n])
  {
    if n > 0 {
      RunKeepsPlace(states, actions, n - 1);
      StepKeepsHolder(states[n - 1], actions[n - 1]);
      StepKeepsRequest(states[n - 1], actions[n - 1]);
    }
  }

  // ---- At most one accepted run -------------------------------------------------------------

  /** A recorded intent has no accepted run yet, and there is at most one run. */
  ghost predicate AtMostOne(s: System) {
    && |s.runs| <= 1
    && (forall i :: 0 <= i < |s.deliveries| && s.deliveries[i].Recorded? ==> s.runs == [])
  }

  lemma RunIsFound(s: System)
    requires OneRequest(s)
    ensures s.runs != [] ==> s.row.request.Some? && HasRun(s, s.row.chat, s.row.request.value)
  {
    if s.runs != [] {
      assert s.runs[0] in s.runs && Covers(s.runs[0], s.row.chat, s.row.request.value);
    }
  }

  lemma StepKeepsAtMostOne(s: System, a: Action)
    requires OneHolder(s) && OneRequest(s) && AtMostOne(s) && Enabled(s, a) && SafeRedirect(s, a)
      && TruthfulLookup(s, a)
    ensures AtMostOne(Apply(s, a))
  {
    RunIsFound(s);
  }

  /** With a truthful lookup alone, store or no store, a message never has two accepted runs: not over
      crashes at any step, nor by timeouts that steal the lease, nor by explicit retries, which replay the
      accepted run. */
  lemma {:induction false} AtMostOneRun(states: seq<System>, actions: seq<Action>, n: nat)
    requires SafelyRedirected(states, actions) && n < |states|
    requires forall k :: 0 <= k < |actions| ==> TruthfulLookup(states[k], actions[k])
    ensures AtMostOne(states[n])
  {
    if n > 0 {
      AtMostOneRun(states, actions, n - 1);
      RunKeepsPlace(states, actions, n - 1);
      StepKeepsAtMostOne(states[n - 1], actions[n - 1]);
    }
  }

  // ---- Automatic steps ----------------------------------------------------------------------

  /** Neither an explicit retry nor a delivery that enters on a failed row. */
  predicate AutomaticStep(s: System, a: Action) {
    !a.Retry? && (a.Enter? ==> s.row.status != Failed)
  }

  /** While a start is under way the row is dispatching, or uncertain after a timeout. */
  ghost predicate MidFlight(s: System) {
    forall i ::
      0 <= i < |s.deliveries| && (s.deliveries[i].Starting? || s.deliveries[i].Recorded? || s.deliveries[i].Returned?)
      ==> s.row.status in {Dispatching, Uncertain}
  }

  lemma StepKeepsMidFlight(s: System, a: Action)
    requires OneHolder(s) && MidFlight(s) && Enabled(s, a) && SafeRedirect(s, a) && AutomaticStep(s, a)
    ensures MidFlight(Apply(s, a))
  {
  }

  /** Once a run was accepted, the row is past delivery and nobody is on the way to start another. */
  ghost predicate AcceptanceSettles(s: System) {
    s.runs != [] ==>
      && |s.runs| == 1 && s.row.status != Queued
      && forall i :: 0 <= i < |s.deliveries| ==>
        !s.deliveries[i].Publishing? && !s.deliveries[i].Starting? && !s.deliveries[i].Recorded?
        && (s.deliveries[i].Returned? ==> s.deliveries[i].outcome != RecipientBusy)
  }

  lemma StepKeepsSettled(s: System, a: Action)
    requires OneHolder(s) && OneRequest(s) && MidFlight(s) && AcceptanceSettles(s) && Enabled(s, a)
    requires SafeRedirect(s, a) && NeverDenies(s, a) && AutomaticStep(s, a)
    ensures AcceptanceSettles(Apply(s, a))
  {
    RunIsFound(s);
  }

  /** Automatic steps never restart a message whose acceptance is unknown: even when the lookup knows
      nothing about the accepted run, it stays the only one. */
  lemma {:induction false} AutomaticNeverRestarts(states: seq<System>, actions: seq<Action>, n: nat)
    requires SafelyRedirected(states, actions) && n < |states|
    requires forall k :: 0 <= k < |actions| ==>
      NeverDenies(states[k], actions[k]) && AutomaticStep(states[k], actions[k])
    ensures MidFlight(states[n]) && AcceptanceSettles(states[n]) && |states[n].runs| <= 1
  {
    if n > 0 {
      AutomaticNeverRestarts(states, actions, n - 1);
      RunKeepsPlace(states, actions, n - 1);
      StepKeepsMidFlight(states[n - 1], actions[n - 1]);
      StepKeepsSettled(states[n - 1], actions[n - 1]);
    }
  }

  // ---- Delivered rows -----------------------------------------------------------------------

  function Perform(s: System, actions: seq<Action>): Option<System>
    decreases |actions|
  {
    if actions == [] then Some(s)
    else if !Enabled(s, actions[0]) then None
    else Perform(Apply(s, actions[0]), actions[1..])
  }

  ghost predicate NobodyPublishes(s: System) {
    forall i :: 0 <= i < |s.deliveries| ==> !s.deliveries[i].Publishing?
  }

  /** A row is delivered in every future of a state. */
  ghost predicate StaysDelivered(s: System) {
    forall actions :: Perform(s, actions).Some? ==> Perform(s, actions).value.row.status == Delivered
  }

  lemma {:induction false} DeliveredLasts(s: System, actions: seq<Action>)
    requires s.row.status == Delivered && NobodyPublishes(s) && Perform(s, actions).Some?
    ensures Perform(s, actions).value.row.status == Delivered
    decreases |actions|
  {
    if actions != [] {
      DeliveredLasts(Apply(s, actions[0]), actions[1..]);
    }
  }

  /** A delivered row is delivered for good, over every future with its crashes, retries and deliveries still on
      the way, if and only if no delivery was publishing its card when it became so. */
  lemma StaysDeliveredExactly(s: System)
    requires s.row.status == Delivered
    ensures StaysDelivered(s) <==> NobodyPublishes(s)
  {
    if NobodyPublishes(s) {
      forall actions | Perform(s, actions).Some? ensures Perform(s, actions).value.row.status == Delivered {
        DeliveredLasts(s, actions);
      }
    } else {
      var i :| 0 <= i < |s.deliveries| && s.deliveries[i].Publishing?;
      var lost := [Proceed(i, ChatMissing)];
      assert Perform(Apply(s, lost[0]), lost[1..]) == Some(Apply(s, lost[0]));
      assert Perform(s, lost).Some? && Perform(s, lost).value.row.status == Failed;
    }
  }

  /** No delivery enters on a failed row. */
  predicate SettledEntry(s: System, a: Action) {
    a.Enter? ==> s.row.status != Failed
  }

  /** Two deliveries hold the locks of two chats, and whoever publishes does so in the row's chat while it is queued. */
  ghost predicate PublishesQueued(s: System) {
    && (forall i, j :: 0 <= i < j < |s.deliveries| && s.deliveries[i].HoldsLock() && s.deliveries[j].HoldsLock() ==>
          s.deliveries[i].chat != s.deliveries[j].chat)
    && (forall i :: 0 <= i < |s.deliveries| && s.deliveries[i].Publishing? ==>
          s.deliveries[i].chat == s.row.chat && s.row.status == Queued)
  }

  lemma StepKeepsPublishing(s: System, a: Action)
    requires PublishesQueued(s) && Enabled(s, a) && CalmRedirect(s, a) && SettledEntry(s, a)
    ensures PublishesQueued(Apply(s, a))
  {
    if OfDelivery(a) {
      StepOfOne(s, a, Mover(a));
    }
  }

  lemma {:induction false} RunPublishesQueued(states: seq<System>, actions: seq<Action>, n: nat)
    requires CalmlyRedirected(states, actions) && n < |states|
    requires forall k :: 0 <= k < |actions| ==> SettledEntry(states[k], actions[k])
    ensures PublishesQueued(states[n])
  {
    if n > 0 {
      RunPublishesQueued(states, actions, n - 1);
      StepKeepsPublishing(states[n - 1], actions[n - 1]);
    }
  }

  /** Without a redirect in the publishing window and without an entry on a failed row, a delivered row is
      delivered for good. */
  lemma DeliveredIsFinal(states: seq<System>, actions: seq<Action>, n: nat)
    requires CalmlyRedirected(states, actions) && n < |states|
    requires forall k :: 0 <= k < |actions| ==> SettledEntry(states[k], actions[k])
    ensures states[n].row.status == Delivered ==> StaysDelivered(states[n])
  {
    RunPublishesQueued(states, actions, n);
    if states[n].row.status == Delivered {
      StaysDeliveredExactly(states[n]);
    }
  }

  // ---- Why a row has its status -------------------------------------------------------------

  ghost predicate RanNamed(s: System) {
    exists run :: run in s.runs && run.named
  }

  /** The delivery finds that the recipient has the report already, or that its cycle is closed. */
  predicate Skips(s: System, a: Action) {
    || (a.Enter? && a.elsewhere && a.i < |s.deliveries| && s.deliveries[a.i].WaitsFor?
        && s.deliveries[a.i].chat == s.row.chat
        && s.row.status in {Queued, Failed})
    || (a.Proceed? && a.gate == CycleClosed)
  }

  /** A stored run id, or a start that came back with one, stands for an accepted run. */
  ghost predicate NamesAreRuns(s: System) {
    && (s.row.hasRun ==> RanNamed(s))
    && (forall i ::
        0 <= i < |s.deliveries| && s.deliveries[i].Returned? && s.deliveries[i].outcome == Accepted(true) ==>
          RanNamed(s))
  }

  lemma FoundIsRan(s: System, answer: Answer)
    ensures FoundNamed(s, answer) ==> RanNamed(s)
  {
  }

  lemma RunsGrow(s: System, a: Action)
    requires Enabled(s, a)
    ensures s.runs <= Apply(s, a).runs && (RanNamed(s) ==> RanNamed(Apply(s, a)))
  {
    if run :| run in s.runs && run.named {
      assert run in Apply(s, a).runs;
    }
  }

  lemma StepKeepsNames(s: System, a: Action)
    requires NamesAreRuns(s) && Enabled(s, a)
    ensures NamesAreRuns(Apply(s, a)) && (s.row.hasRun ==> Apply(s, a).row.hasRun)
    ensures Apply(s, a).row.status == Delivered ==> s.row.status == Delivered || Apply(s, a).row.hasRun || Skips(s, a)
  {
    RunsGrow(s, a);
    match a
    case Accept(i, named, reported) =>
      assert Apply(s, a).runs[|s.runs|] in Apply(s, a).runs;
    case Replay(i) =>
    case Retry(answer) => FoundIsRan(s, answer);
    case Restart(answer) => FoundIsRan(s, answer);
    case _ =>
  }

  /** No message is delivered without reason: in every run of the system, over crashes, lost answers and retries, a
      delivered row stores the run id of an accepted run, or a delivery found that none was needed. */
  lemma {:induction false} DeliveredRanOrSkipped(states: seq<System>, actions: seq<Action>, n: nat)
    requires IsRun(states, actions) && n < |states|
    ensures NamesAreRuns(states[n])
    ensures states[n].row.status == Delivered ==>
      (states[n].row.hasRun && RanNamed(states[n])) || exists k :: 0 <= k < n && Skips(states[k], actions[k])
  {
    if n > 0 {
      DeliveredRanOrSkipped(states, actions, n - 1);
      StepKeepsNames(states[n - 1], actions[n - 1]);
      RunsGrow(states[n - 1], actions[n - 1]);
    }
  }

  /** A start comes back with this outcome to the delivery that still holds the lease of the row. */
  predicate Brings(s: System, a: Action, outcome: Outcome) {
    && a.Conclude? && a.i < |s.deliveries| && s.deliveries[a.i].Returned? && s.deliveries[a.i].outcome == outcome
    && s.row.status == Dispatching && s.row.lease == s.deliveries[a.i].lease && s.row.owner == s.process
  }

  /** The step gives the row this status. */
  predicate Gives(s: System, a: Action, status: Status) {
    match status
    case Queued =>
      || (a.Proceed? && a.gate == Busy)
      || Brings(s, a, RecipientBusy)
      || (a.Retry? && !FoundNamed(s, a.answer))
      || (a.Restart? && s.row.status == Dispatching && !s.row.hasRun && a.answer == No)
    case Dispatching => a.Proceed? && a.gate.Dispatch?
    case Delivered =>
      || Skips(s, a)
      || Brings(s, a, Accepted(true))
      || (a.Retry? && FoundNamed(s, a.answer))
      || (a.Restart? && s.row.status == Dispatching && (s.row.hasRun || FoundNamed(s, a.answer)))
    case Uncertain =>
      || a.DispatchTimeout?
      || Brings(s, a, Accepted(false))
      || (a.Restart? && s.row.status == Dispatching && !s.row.hasRun && !FoundNamed(s, a.answer) && a.answer != No)
    case Failed => (a.Proceed? && a.gate == ChatMissing) || Brings(s, a, StartError)
  }

  /** The statuses steps give are exactly these: a step that gives one leaves the row with it, and no other step changes
      the status. */
  lemma StepGives(s: System, a: Action)
    requires Enabled(s, a)
    ensures forall status :: Gives(s, a, status) ==> Apply(s, a).row.status == status
    ensures Apply(s, a).row.status == s.row.status || Gives(s, a, Apply(s, a).row.status)
  {
  }

  /** Every status has its cause: some step gave it, and no step has changed it since. */
  lemma {:induction false} StatusHasCause(states: seq<System>, actions: seq<Action>, n: nat)
    requires IsRun(states, actions) && n < |states|
    ensures (forall j :: 0 <= j <= n ==> states[j].row.status == Queued)
         || exists k :: 0 <= k < n && CausedAt(states, actions, k, n)
  {
    if n > 0 {
      var last := n - 1;
      StatusHasCause(states, actions, last);
      StepGives(states[last], actions[last]);
      if states[n].row.status != states[last].row.status {
        assert CausedAt(states, actions, last, n);
      } else if k :| 0 <= k < last && CausedAt(states, actions, k, last) {
        assert CausedAt(states, actions, k, n);
      }
    }
  }

  ghost predicate CausedAt(states: seq<System>, actions: seq<Action>, k: nat, n: nat)
    requires k < n < |states| && |states| == |actions| + 1
  {
    && Gives(states[k], actions[k], states[n].row.status)
    && forall j :: k < j <= n ==> states[j].row.status == states[n].row.status
  }

  /** Whoever was told that its start was accepted has an accepted run of its recipient. */
  ghost predicate AcceptedIsRun(s: System) {
    forall i :: 0 <= i < |s.deliveries| && s.deliveries[i].Returned? && s.deliveries[i].outcome.Accepted? ==>
      exists run :: run in s.runs && run.chat == s.deliveries[i].chat
  }

  lemma StepKeepsAccepted(s: System, a: Action)
    requires AcceptedIsRun(s) && Enabled(s, a)
    ensures AcceptedIsRun(Apply(s, a))
  {
    var after := Apply(s, a);
    RunsGrow(s, a);
    if a.Accept? {
      assert after.runs[|s.runs|] in after.runs && after.runs[|s.runs|].chat == s.deliveries[a.i].chat;
    }
    forall i | 0 <= i < |after.deliveries| && after.deliveries[i].Returned? && after.deliveries[i].outcome.Accepted?
      ensures exists run :: run in after.runs && run.chat == after.deliveries[i].chat
    {
      if i < |s.deliveries| && after.deliveries[i] == s.deliveries[i] {
        var run :| run in s.runs && run.chat == s.deliveries[i].chat;
        assert run in after.runs;
      }
    }
  }

  lemma {:induction false} AcceptedMeansRun(states: seq<System>, actions: seq<Action>, n: nat)
    requires IsRun(states, actions) && n < |states|
    ensures AcceptedIsRun(states[n])
  {
    if n > 0 {
      AcceptedMeansRun(states, actions, n - 1);
      StepKeepsAccepted(states[n - 1], actions[n - 1]);
    }
  }

  /** Only a queued message changes its recipient: from the dispatch to the report of its fate it stays with one. */
  lemma {:induction false} RecipientKept(states: seq<System>, actions: seq<Action>, m: nat, n: nat)
    requires IsRun(states, actions) && m <= n < |states|
    requires forall k :: m <= k < n ==> states[k].row.status != Queued
    ensures states[n].row.chat == states[m].row.chat
    decreases n
  {
    if m < n {
      RecipientKept(states, actions, m, n - 1);
    }
  }

  // ---- When a launch may be recorded --------------------------------------------------------

  predicate Records(s: System, a: Action, request: nat) {
    a.RecordIntent? && a.i < |s.deliveries| && s.deliveries[a.i].Starting? && s.deliveries[a.i].request == request
  }

  /** The recipient refuses a recorded launch as busy, so it did not reach the executor. */
  predicate Disproves(s: System, a: Action, request: nat) {
    && a.Refuse? && a.outcome == RecipientBusy && a.i < |s.deliveries| && s.deliveries[a.i].Recorded?
    && s.deliveries[a.i].request == request
  }

  ghost predicate OpenLaunch(states: seq<System>, actions: seq<Action>, request: nat, k: nat, n: nat)
    requires k < n < |states| && |states| == |actions| + 1
  {
    Records(states[k], actions[k], request) && forall j :: k < j < n ==> !Disproves(states[j], actions[j], request)
  }

  /** A launch of the request was recorded and never disproved. */
  ghost predicate HasOpenLaunch(states: seq<System>, actions: seq<Action>, request: nat, n: nat)
    requires n < |states| && |states| == |actions| + 1
  {
    exists k :: 0 <= k < n && OpenLaunch(states, actions, request, k, n)
  }

  lemma OpenLaunchStep(states: seq<System>, actions: seq<Action>, request: nat, n: nat)
    requires n + 1 < |states| && |states| == |actions| + 1
    ensures HasOpenLaunch(states, actions, request, n + 1)
       <==> Records(states[n], actions[n], request)
            || (HasOpenLaunch(states, actions, request, n) && !Disproves(states[n], actions[n], request))
  {
    var next := n + 1;
    if Records(states[n], actions[n], request) {
      assert OpenLaunch(states, actions, request, n, next);
    } else {
      if k :| 0 <= k < n && OpenLaunch(states, actions, request, k, n) && !Disproves(states[n], actions[n], request) {
        assert OpenLaunch(states, actions, request, k, next);
      }
      if k :| 0 <= k < next && OpenLaunch(states, actions, request, k, next) {
        assert k < n && OpenLaunch(states, actions, request, k, n);
      }
    }
  }

  lemma StepOpensLaunch(s: System, a: Action, request: nat)
    requires s.recovery && Enabled(s, a)
    ensures Apply(s, a).recovery
    ensures MayRecord(Apply(s, a), request)
       <==> !Records(s, a, request) && (MayRecord(s, request) || Disproves(s, a, request))
  {
  }

  /** With the recovery store open, in every run the launch of a request may be recorded if and only if each launch
      recorded so far was refused as busy afterwards. */
  lemma {:induction false} MayRecordExactly(states: seq<System>, actions: seq<Action>, request: nat, n: nat)
    requires IsRun(states, actions) && n < |states| && states[0].recovery
    ensures states[n].recovery
    ensures MayRecord(states[n], request) <==> !HasOpenLaunch(states, actions, request, n)
  {
    if n > 0 {
      MayRecordExactly(states, actions, request, n - 1);
      StepOpensLaunch(states[n - 1], actions[n - 1], request);
      OpenLaunchStep(states, actions, request, n - 1);
    }
  }

  // ---- Leases and restarts ------------------------------------------------------------------

  /** The delivery works under this lease. */
  predicate WorksUnder(d: Delivery, lease: nat) {
    (d.Starting? || d.Recorded? || d.Returned?) && d.lease == lease
  }

  /** A dispatching row belongs to the living process, and a delivery works under its lease. */
  ghost predicate Attended(s: System) {
    s.row.status == Dispatching ==>
      s.row.owner == s.process && exists i :: 0 <= i < |s.deliveries| && WorksUnder(s.deliveries[i], s.row.lease)
  }

  lemma StepKeepsAttended(s: System, a: Action)
    requires Attended(s) && Enabled(s, a)
    ensures Attended(Apply(s, a))
  {
    var after := Apply(s, a);
    if after.row.status == Dispatching {
      if a.Proceed? && a.gate.Dispatch? {
        assert WorksUnder(after.deliveries[a.i], after.row.lease);
      } else {
        var i :| 0 <= i < |s.deliveries| && WorksUnder(s.deliveries[i], s.row.lease);
        assert after.row.lease == s.row.lease;
        assert i < |after.deliveries| && WorksUnder(after.deliveries[i], after.row.lease);
      }
    }
  }

  /** No dispatching row is ever orphaned: its delivery is under way, and whatever ends that delivery decides
      the row. */
  lemma {:induction false} DispatchingIsAttended(states: seq<System>, actions: seq<Action>, n: nat)
    requires IsRun(states, actions) && n < |states|
    ensures Attended(states[n])
  {
    if n > 0 {
      DispatchingIsAttended(states, actions, n - 1);
      StepKeepsAttended(states[n - 1], actions[n - 1]);
    }
  }

  /** A start that comes back after its lease was lost changes nothing on the row. */
  lemma LateResultIsDropped(s: System, i: nat)
    requires Enabled(s, Conclude(i))
    requires s.row.status != Dispatching || s.row.lease != s.deliveries[i].lease || s.row.owner != s.process
    ensures Apply(s, Conclude(i)).row == s.row
  {
  }

  /** What a restart does. No delivery survives and no row stays dispatching; a dispatching row is delivered if and only
      if its run id is stored or found, queued again if and only if the lookup denies the run, and uncertain in
      all other cases; a row that was not dispatching stays as it is. */
  lemma RestartDecides(s: System, answer: Answer)
    requires Enabled(s, Restart(answer))
    ensures var after := Apply(s, Restart(answer));
      && after.deliveries == [] && after.row.status != Dispatching && after.process == s.process + 1
      && after.runs == s.runs && after.intents == s.intents && after.row.request == s.row.request
      && (s.row.status != Dispatching ==> after.row == s.row)
      && (s.row.status == Dispatching ==>
            && (after.row.status == Delivered <==> s.row.hasRun || FoundNamed(s, answer))
            && (after.row.hasRun <==> after.row.status == Delivered)
            && (after.row.status == Queued <==> !s.row.hasRun && answer == No)
            && (after.row.status == Uncertain <==> !s.row.hasRun && !FoundNamed(s, answer) && answer != No))
  {
  }

  // ---- Where the protocol needs its assumptions ---------------------------------------------

  function NewMessage(recovery: bool): System {
    System(recovery, Row(Queued, 0, None, 0, 0, false), [], 0, map[], [], {})
  }

  lemma {:induction false} PerformConcat(s: System, a: seq<Action>, b: seq<Action>)
    requires Perform(s, a).Some?
    ensures Perform(s, a + b) == Perform(Perform(s, a).value, b)
    decreases |a|
  {
    if a == [] {
      assert a + b == b;
    } else {
      assert (a + b)[1..] == a[1..] + b;
      PerformConcat(Apply(s, a[0]), a[1..], b);
    }
  }

  const TO_FIRST_INTENT := [Begin, Enter(0, false), Proceed(0, Dispatch(7)), RecordIntent(0, No)]

  /** The first delivery has recorded its intent; `waiting` more deliveries are behind it. */
  function FirstIntent(recovery: bool, waiting: seq<Delivery>): System {
    System(recovery, Row(Dispatching, 0, Some(7), 1, 0, false), [Recorded(0, 7, 1)] + waiting,
           0, if recovery then map[7 := Unproven] else map[], [], {7})
  }

  lemma ReachesFirstIntent()
    ensures Initial(NewMessage(false)) && Perform(NewMessage(false), TO_FIRST_INTENT) == Some(FirstIntent(false, []))
  {
    var end := Perform(NewMessage(false), TO_FIRST_INTENT);
    assert end.Some? && end.value.deliveries == FirstIntent(false, []).deliveries && end.value.used == {7};
  }

  /** A redirect while a delivery publishes its card gives the message two request ids and two runs,
      although the recovery store is open and every lookup is truthful. */
  lemma RedirectWhilePublishing()
    ensures var actions := [Begin, Enter(0, false), Redirect(1), Begin, Enter(1, false), Proceed(1, Dispatch(7)),
                            RecordIntent(1, No)]
                           + [Accept(1, true, true), Proceed(0, Dispatch(8)), RecordIntent(0, No),
                              Accept(0, true, true)];
      && Perform(NewMessage(true), actions).Some?
      && Perform(NewMessage(true), actions).value.runs == [AcceptedRun(1, 7, true), AcceptedRun(0, 8, true)]
  {
    var first := [Begin, Enter(0, false), Redirect(1), Begin, Enter(1, false), Proceed(1, Dispatch(7)),
                  RecordIntent(1, No)];
    var second := [Accept(1, true, true), Proceed(0, Dispatch(8)), RecordIntent(0, No), Accept(0, true, true)];
    RedirectFirstHalf();
    RedirectSecondHalf();
    PerformConcat(NewMessage(true), first, second);
  }

  /** Two deliveries under the locks of two recipients: one publishes, the other has recorded its intent. */
  const SPLIT := System(true, Row(Dispatching, 1, Some(7), 1, 0, false),
                        [Publishing(0, Row(Queued, 0, None, 0, 0, false)), Recorded(1, 7, 1)], 0,
                        map[7 := Unproven], [], {7})

  lemma RedirectFirstHalf()
    ensures Perform(NewMessage(true), [Begin, Enter(0, false), Redirect(1), Begin, Enter(1, false),
                                       Proceed(1, Dispatch(7)), RecordIntent(1, No)])
         == Some(SPLIT)
  {
    var end := Perform(NewMessage(true), [Begin, Enter(0, false), Redirect(1), Begin, Enter(1, false),
                                          Proceed(1, Dispatch(7)), RecordIntent(1, No)]);
    assert end.Some? && end.value.deliveries == SPLIT.deliveries && end.value.intents == map[7 := Unproven]
      && end.value.used == {7};
  }

  lemma RedirectSecondHalf()
    ensures var end :=
      Perform(SPLIT, [Accept(1, true, true), Proceed(0, Dispatch(8)), RecordIntent(0, No), Accept(0, true, true)]);
      end.Some? && end.value.runs == [AcceptedRun(1, 7, true), AcceptedRun(0, 8, true)]
  {
  }

  /** Without the recovery store: a run accepted without a run id leaves the row uncertain; an explicit retry
      queues it again, and after a redirect the other recipient's lookup knows nothing of the request. */
  lemma RedirectAfterNamelessRun()
    ensures var actions := TO_FIRST_INTENT
                           + ([Accept(0, false, true), Conclude(0), Retry(Yes)]
                              + ([Redirect(1), Begin, Enter(1, false)]
                                 + [Proceed(1, Dispatch(8)), RecordIntent(1, No), Accept(1, true, true)]));
      && Perform(NewMessage(false), actions).Some?
      && Perform(NewMessage(false), actions).value.runs == [AcceptedRun(0, 7, false), AcceptedRun(1, 7, true)]
  {
    var second := [Accept(0, false, true), Conclude(0), Retry(Yes)];
    var third := [Redirect(1), Begin, Enter(1, false)]
      + [Proceed(1, Dispatch(8)), RecordIntent(1, No), Accept(1, true, true)];
    ReachesFirstIntent();
    NamelessSecondPart();
    NamelessThirdPart();
    PerformConcat(FirstIntent(false, []), second, third);
    PerformConcat(NewMessage(false), TO_FIRST_INTENT, second + third);
  }

  const NAMELESS :=
    System(false, Row(Queued, 0, Some(7), 1, 0, false), [Over], 0, map[], [AcceptedRun(0, 7, false)], {7})

  lemma NamelessSecondPart()
    ensures Perform(FirstIntent(false, []), [Accept(0, false, true), Conclude(0), Retry(Yes)]) == Some(NAMELESS)
  {
    NamelessConcluded();
    NamelessRetried();
    PerformConcat(FirstIntent(false, []), [Accept(0, false, true), Conclude(0)], [Retry(Yes)]);
    assert [Accept(0, false, true), Conclude(0)] + [Retry(Yes)] == [Accept(0, false, true), Conclude(0), Retry(Yes)];
  }

  const NAMELESS_UNCERTAIN := NAMELESS.(row := NAMELESS.row.(status := Uncertain))

  lemma NamelessConcluded()
    ensures Perform(FirstIntent(false, []), [Accept(0, false, true), Conclude(0)]) == Some(NAMELESS_UNCERTAIN)
  {
    var concluded := Perform(FirstIntent(false, []), [Accept(0, false, true), Conclude(0)]);
    assert concluded.Some? && concluded.value.deliveries == [Over] && concluded.value.runs == NAMELESS.runs;
  }

  lemma NamelessRetried()
    ensures Perform(NAMELESS_UNCERTAIN, [Retry(Yes)]) == Some(NAMELESS)
  {
    var uncertain := NAMELESS_UNCERTAIN;
    assert uncertain.runs[0] in uncertain.runs && Covers(uncertain.runs[0], 0, 7);
    assert Enabled(uncertain, Retry(Yes)) && Apply(uncertain, Retry(Yes)) == NAMELESS;
  }

  lemma NamelessThirdPart()
    ensures var end :=
      Perform(NAMELESS, [Redirect(1), Begin, Enter(1, false)]
          + [Proceed(1, Dispatch(8)), RecordIntent(1, No), Accept(1, true, true)]);
      end.Some? && end.value.runs == [AcceptedRun(0, 7, false), AcceptedRun(1, 7, true)]
  {
    NamelessEntered();
    NamelessLastPart();
    PerformConcat(NAMELESS, [Redirect(1), Begin, Enter(1, false)],
                  [Proceed(1, Dispatch(8)), RecordIntent(1, No), Accept(1, true, true)]);
  }

  const NAMELESS_ENTERED :=
    NAMELESS.(row := NAMELESS.row.(chat := 1), deliveries := [Over, Publishing(1, NAMELESS.row.(chat := 1))])

  lemma NamelessEntered()
    ensures Perform(NAMELESS, [Redirect(1), Begin, Enter(1, false)]) == Some(NAMELESS_ENTERED)
  {
    var end := Perform(NAMELESS, [Redirect(1), Begin, Enter(1, false)]);
    assert end.Some? && end.value.deliveries == NAMELESS_ENTERED.deliveries;
  }

  lemma NamelessLastPart()
    ensures var end := Perform(NAMELESS_ENTERED, [Proceed(1, Dispatch(8)), RecordIntent(1, No), Accept(1, true, true)]);
      end.Some? && end.value.runs == [AcceptedRun(0, 7, false), AcceptedRun(1, 7, true)]
  {
  }

  /** Without the recovery store: a start that fails after the recipient has accepted leaves a failed row, on
      which a waiting delivery enters; when the lookup does not know the run, that delivery starts a second
      one on its own. */
  lemma FailedRowRestarts()
    ensures var actions := [Begin, Begin, Enter(0, false), Proceed(0, Dispatch(7)), RecordIntent(0, No)]
                           + ([Accept(0, true, false), Conclude(0), Enter(1, false)]
                              + [Proceed(1, Dispatch(8)), RecordIntent(1, Unknown), Accept(1, true, true)]);
      && Perform(NewMessage(false), actions).Some?
      && Perform(NewMessage(false), actions).value.runs == [AcceptedRun(0, 7, true), AcceptedRun(0, 7, true)]
  {
    var first := [Begin, Begin, Enter(0, false), Proceed(0, Dispatch(7)), RecordIntent(0, No)];
    var second := [Accept(0, true, false), Conclude(0), Enter(1, false)];
    var third := [Proceed(1, Dispatch(8)), RecordIntent(1, Unknown), Accept(1, true, true)];
    FailedFirstHalf(false);
    ReachesFailedEntry(false);
    FailedLastPart();
    PerformConcat(FirstIntent(false, [WaitsFor(0)]), second, third);
    PerformConcat(NewMessage(false), first, second + third);
  }

  lemma FailedFirstHalf(recovery: bool)
    ensures Perform(NewMessage(recovery), [Begin, Begin, Enter(0, false), Proceed(0, Dispatch(7)), RecordIntent(0, No)])
         == Some(FirstIntent(recovery, [WaitsFor(0)]))
  {
    var end := Perform(NewMessage(recovery), [Begin, Begin, Enter(0, false), Proceed(0, Dispatch(7)),
                                              RecordIntent(0, No)]);
    assert end.Some? && end.value.deliveries == FirstIntent(recovery, [WaitsFor(0)]).deliveries
      && end.value.used == {7};
    assert end.value.intents == FirstIntent(recovery, []).intents;
  }

  /** A start was accepted and reported as failed, and the delivery behind it publishes on the failed row. */
  function FailedEntry(recovery: bool): System {
    System(recovery, Row(Failed, 0, Some(7), 1, 0, false), [Over, Publishing(0, Row(Failed, 0, Some(7), 1, 0, false))],
           0, if recovery then map[7 := Unproven] else map[], [AcceptedRun(0, 7, true)], {7})
  }

  lemma ReachesFailedEntry(recovery: bool)
    ensures Perform(FirstIntent(recovery, [WaitsFor(0)]), [Accept(0, true, false), Conclude(0), Enter(1, false)])
         == Some(FailedEntry(recovery))
  {
    var end := Perform(FirstIntent(recovery, [WaitsFor(0)]), [Accept(0, true, false), Conclude(0), Enter(1, false)]);
    assert end.Some? && end.value.deliveries == FailedEntry(recovery).deliveries
      && end.value.runs == FailedEntry(recovery).runs;
  }

  lemma FailedLastPart()
    ensures var end :=
      Perform(FailedEntry(false), [Proceed(1, Dispatch(8)), RecordIntent(1, Unknown), Accept(1, true, true)]);
      end.Some? && end.value.runs == [AcceptedRun(0, 7, true), AcceptedRun(0, 7, true)]
  {
  }

  /** With the recovery store open, no redirect and a truthful lookup: a retry finds the accepted run and
      delivers the row, and the delivery that entered on the failed row then fails it. */
  lemma DeliveredRowFails()
    ensures var actions := [Begin, Begin, Enter(0, false), Proceed(0, Dispatch(7)), RecordIntent(0, No)]
                           + ([Accept(0, true, false), Conclude(0), Enter(1, false)] + [Retry(Yes)]);
      && Perform(NewMessage(true), actions).Some?
      && Perform(NewMessage(true), actions).value.row.status == Delivered
      && Perform(NewMessage(true), actions + [Proceed(1, ChatMissing)]).Some?
      && Perform(NewMessage(true), actions + [Proceed(1, ChatMissing)]).value.row.status == Failed
  {
    var first := [Begin, Begin, Enter(0, false), Proceed(0, Dispatch(7)), RecordIntent(0, No)];
    var second := [Accept(0, true, false), Conclude(0), Enter(1, false)];
    FailedFirstHalf(true);
    ReachesFailedEntry(true);
    RetryDelivers();
    PerformConcat(FirstIntent(true, [WaitsFor(0)]), second, [Retry(Yes)]);
    PerformConcat(NewMessage(true), first, second + [Retry(Yes)]);
    PerformConcat(NewMessage(true), first + (second + [Retry(Yes)]), [Proceed(1, ChatMissing)]);
  }

  lemma RetryDelivers()
    ensures var retried := Perform(FailedEntry(true), [Retry(Yes)]);
      && retried.Some? && retried.value.row.status == Delivered
      && Perform(retried.value, [Proceed(1, ChatMissing)]).Some?
      && Perform(retried.value, [Proceed(1, ChatMissing)]).value.row.status == Failed
  {
    assert FailedEntry(true).runs[0] in FailedEntry(true).runs && Covers(FailedEntry(true).runs[0], 0, 7);
    assert Enabled(FailedEntry(true), Retry(Yes)) && FoundNamed(FailedEntry(true), Yes);
  }
}
