/** The serial queue of the delegation store: each job starts after the previous one has ended, whether it
    succeeded or failed. */
module StoreQueue {

  datatype Job = Pending | Busy | Succeeded | Failed {
    predicate Ended() {
      Succeeded? || Failed?
    }
  }

  datatype Step = Enqueued | Began(i: nat) | Ended(i: nat, failed: bool)

  /** The promise chain: a job looks at the job right before it and at no other. */
  predicate Enabled(jobs: seq<Job>, s: Step) {
    match s
    case Enqueued => true
    case Began(i) => i < |jobs| && jobs[i] == Pending && (i > 0 ==> jobs[i - 1].Ended())
    case Ended(i, _) => i < |jobs| && jobs[i] == Busy
  }

  function Apply(jobs: seq<Job>, s: Step): seq<Job>
    requires Enabled(jobs, s)
  {
    match s
    case Enqueued => jobs + [Pending]
    case Began(i) => jobs[i := Busy]
    case Ended(i, failed) => jobs[i := if failed then Failed else Succeeded]
  }

  /** Some schedule of enqueued, begun and ended jobs, from an empty queue. */
  ghost predicate IsRun(states: seq<seq<Job>>, steps: seq<Step>) {
    && |states| == |steps| + 1 && states[0] == []
    && forall n :: 0 <= n < |steps| ==> Enabled(states[n], steps[n]) && states[n + 1] == Apply(states[n], steps[n])
  }

  /** Whatever began has every earlier job ended. */
  ghost predicate InOrder(jobs: seq<Job>) {
    forall i, j :: 0 <= i < j < |jobs| && jobs[j] != Pending ==> jobs[i].Ended()
  }

  /** In every schedule, also with failing jobs, at most one job is busy and jobs begin in the order of their calls,
      although each waits for its predecessor only. */
  lemma {:induction false} JobsExclude(states: seq<seq<Job>>, steps: seq<Step>, n: nat)
    requires IsRun(states, steps) && n < |states|
    ensures InOrder(states[n])
    ensures forall i, j ::
      0 <= i < |states[n]| && 0 <= j < |states[n]| && states[n][i] == Busy && states[n][j] == Busy ==> i == j
  {
    if n > 0 {
      JobsExclude(states, steps, n - 1);
      assert Enabled(states[n - 1], steps[n - 1]);
    }
  }

  class DelegationStoreQueue {
    var jobs: seq<Job>
    var inFlight: int

    /** Jobs before the first one that has not ended are the ended ones, and only that one may be busy. */
    ghost predicate Valid()
      reads this
    {
      && InOrder(jobs)
      && inFlight == if exists i :: 0 <= i < |jobs| && jobs[i] == Busy then 1 else 0
    }

    constructor ()
      ensures Valid() && jobs == [] && inFlight == 0
    {
      jobs, inFlight := [], 0;
    }

    method Enqueue() returns (i: nat)
      requires Valid()
      modifies this
      ensures Valid() && i == |old(jobs)| && jobs == Apply(old(jobs), Enqueued) && inFlight == old(inFlight)
    {
      i := |jobs|;
      jobs := jobs + [Pending];
      assert forall k :: 0 <= k < i ==> jobs[k] == old(jobs)[k];
      assert forall k :: 0 <= k < |jobs| && jobs[k] == Busy ==> k < i;
    }

    /** The promise of the previous job has settled. */
    method Begin(i: nat)
      requires Valid() && Enabled(jobs, Began(i))
      modifies this
      ensures Valid() && jobs == Apply(old(jobs), Began(i)) && old(inFlight) == 0 && inFlight == 1
      ensures forall k :: 0 <= k < i ==> jobs[k].Ended()
    {
      assert forall k :: 0 <= k < i ==> jobs[k].Ended();
      assert forall k :: i < k < |jobs| ==> jobs[k] == Pending;
      inFlight := inFlight + 1;
      jobs := jobs[i := Busy];
      assert jobs[i] == Busy;
    }

    /** A failed job frees the queue like a successful one. */
    method End(i: nat, failed: bool)
      requires Valid() && Enabled(jobs, Ended(i, failed))
      modifies this
      ensures Valid() && jobs == Apply(old(jobs), Ended(i, failed)) && old(inFlight) == 1 && inFlight == 0
    {
      assert forall k :: 0 <= k < |jobs| && k != i ==> jobs[k] != Busy;
      inFlight := inFlight - 1;
      jobs := jobs[i := if failed then Failed else Succeeded];
    }

    method IsDelegationStoreWorkBusy() returns (busy: bool)
      requires Valid()
      ensures busy <==> exists i :: 0 <= i < |jobs| && jobs[i] == Busy
    {
      busy := inFlight > 0;
    }
  }

  /** The job is running, or nothing keeps it from starting. */
  predicate Progresses(jobs: seq<Job>, i: nat)
    requires i < |jobs|
  {
    jobs[i] == Busy || Enabled(jobs, Began(i))
  }

  /** While a job is pending, one is busy or the next one may begin, also after failures. */
  lemma {:induction false} QueueProgresses(jobs: seq<Job>, n: nat)
    requires n < |jobs| && jobs[n] == Pending
    ensures exists i: nat :: i <= n && Progresses(jobs, i)
    decreases n
  {
    if n == 0 || jobs[n - 1].Ended() {
      assert Progresses(jobs, n);
    } else if jobs[n - 1] == Pending {
      QueueProgresses(jobs, n - 1);
    } else {
      assert Progresses(jobs, n - 1);
    }
  }
}
