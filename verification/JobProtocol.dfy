/**
 The job queue as a protocol: requests, several workers and one claim in flight interleave freely.
 A claim is split into its read phase and its guarded commit; the claim lock admits one at a time.
 */
module JobProtocol {
  import opened Basics
  import opened JobPolicy
  import opened JobQueue

  /** The read phase of a claim picked a job for a worker; the commit is still to come. */
  datatype PendingClaim = PendingClaim(worker: nat, id: nat)

  /** The table, the claim in flight, and the job each busy worker is running. */
  datatype State = State(jobs: seq<Job>, claim: Option<PendingClaim>, held: map<nat, nat>)

  /** What the application asks the queue to run. */
  datatype Request =
    | RunTask(task: Task, config: Option<nat>, scheduled: bool)
    | ToggleService(service: nat)
    | DeliverWebhook(delivery: nat, endpoint: Option<nat>)
    | RunFileOp
    | DeleteDuplicates

  /** The arguments each kind of request enqueues its job with. */
  function EnqueueArgs(request: Request, now: int): Enqueue {
    match request
    case RunTask(task, config, scheduled) =>
      Enqueue(TaskRun, map[TaskEntry := TaskText(task)], Some(TaskKey(task, config)), now, false, true,
              if scheduled then Low else Normal, 3)
    case ToggleService(service) =>
      Enqueue(ServiceToggle, map[], Some(ToggleKey(service)), now, true, false, High, 3)
    case DeliverWebhook(delivery, endpoint) =>
      Enqueue(WebhookDelivery,
              map[EndpointEntry := if endpoint.Some? then IntValue(endpoint.value) else OtherValue(0)],
              Some(DeliveryKey(delivery)), now, true, false, High, 1)
    case RunFileOp => Enqueue(CandidateFileOp, map[], None, now, false, false, High, 3)
    case DeleteDuplicates => Enqueue(DuplicateDelete, map[], None, now, false, false, High, 3)
  }

  datatype Step =
    | Submit(request: Request, at: int)
    | Read(worker: nat, now: int, allowed: Option<set<JobType>>)
    | Commit
    | Finish(worker: nat, result: Option<PayloadValue>)
    | GiveUp(worker: nat)
    | Abandon(worker: nat)
    | Progress(worker: nat, updates: Payload)
    | CancelKey(key: DedupeKey)
    | DropClaim
    | Trim(keepRecent: nat)
    | Restart

  /** A trim that deletes no row whose job a worker is running. */
  predicate SparesHeld(s: State, keepRecent: nat) {
    forall w :: w in s.held ==> s.held[w] >= |s.jobs| - keepRecent
  }

  /** Which steps the lock, the workers and the handlers allow; trims are taken to spare held rows. */
  predicate Enabled(s: State, step: Step) {
    match step
    case Read(worker, _, _) => s.claim.None? && worker !in s.held
    case Commit => s.claim.Some?
    case Finish(worker, _) => worker in s.held
    case GiveUp(worker) => worker in s.held
    case Abandon(worker) => worker in s.held
    case Progress(worker, updates) =>
      worker in s.held && s.held[worker] < |s.jobs|
      && LeavesResourcesAlone(s.jobs[s.held[worker]].jobType, updates)
    case DropClaim => s.claim.Some?
    case Trim(keepRecent) => SparesHeld(s, keepRecent)
    case _ => true
  }

  /**
   The effect of a step. `Abandon` is a worker that ends without recording how its job went;
   `DropClaim` is a claim that ends by an error or a cancellation between its phases; `Restart` kills
   the workers and the claim in flight and fails the running jobs.
   */
  function Apply(s: State, step: Step): State
    requires Enabled(s, step)
  {
    match step
    case Submit(request, at) => s.(jobs := Enqueued(s.jobs, EnqueueArgs(request, at)))
    case Read(worker, now, allowed) =>
      (match Candidate(s.jobs, now, allowed)
       case None => s
       case Some(id) => s.(claim := Some(PendingClaim(worker, id))))
    case Commit =>
      var PendingClaim(worker, id) := s.claim.value;
      State(Claimed(s.jobs, id, worker), None, if IsPendingAt(s.jobs, id) then s.held[worker := id] else s.held)
    case Finish(worker, result) => State(WithCompleted(s.jobs, s.held[worker], result), s.claim, s.held - {worker})
    case GiveUp(worker) => State(WithFailed(s.jobs, s.held[worker]), s.claim, s.held - {worker})
    case Abandon(worker) => s.(held := s.held - {worker})
    case Progress(worker, updates) => s.(jobs := WithUpdates(s.jobs, s.held[worker], updates))
    case CancelKey(key) => s.(jobs := CancelPending(s.jobs, key))
    case DropClaim => s.(claim := None)
    case Trim(keepRecent) => s.(jobs := Trimmed(s.jobs, keepRecent))
    case Restart => State(ResetStale(s.jobs), None, map[])
  }

  // -------------------------------------------------------------------------------------------
  // Invariants

  /** A job that was picked and did not start since: pending, canceled, or its row deleted. */
  predicate IsUnstarted(job: Job) {
    job.status.Pending? || job.status.Canceled? || job.status.Deleted?
  }

  /** The job picked by the claim in flight does not clash with any running job and has not started. */
  ghost predicate ClaimIsSafe(s: State) {
    s.claim.Some? ==>
      && s.claim.value.id < |s.jobs|
      && s.claim.value.worker !in s.held
      && IsUnstarted(s.jobs[s.claim.value.id])
      && forall i :: 0 <= i < |s.jobs| && s.jobs[i].status.Running?
                     ==> JobResources(s.jobs[i]) !! JobResources(s.jobs[s.claim.value.id])
  }

  /** Every busy worker runs a job that is running on its behalf. */
  ghost predicate WorkersOwn(s: State) {
    WorkersHold(s.jobs, s.held)
  }

  ghost predicate WorkersHold(jobs: seq<Job>, held: map<nat, nat>) {
    forall w :: w in held ==>
      held[w] < |jobs| && jobs[held[w]].status.Running? && jobs[held[w]].claimedBy == Some(w)
  }

  /** A job was started once if it left the pending state by a claim, and not otherwise. */
  predicate AttemptsMatch(job: Job) {
    match job.status
    case Pending | Canceled => job.attempts == 0
    case Running | Completed | Failed => job.attempts == 1
    case Deleted => job.attempts <= 1
  }

  ghost predicate StartedOnce(jobs: seq<Job>) {
    forall i :: 0 <= i < |jobs| ==> AttemptsMatch(jobs[i])
  }

  /** Two jobs occupy the same dedupe slot: active runs of one task, or pending jobs replacing each other. */
  predicate SameSlot(a: Job, b: Job) {
    a.key.Some? && a.key == b.key &&
    if a.key.value.TaskKey? then IsActive(a) && IsActive(b) else a.status.Pending? && b.status.Pending?
  }

  ghost predicate Deduped(jobs: seq<Job>) {
    forall i, j :: 0 <= i < j < |jobs| ==> !SameSlot(jobs[i], jobs[j])
  }

  ghost predicate Inv(s: State) {
    Exclusive(s.jobs) && ClaimIsSafe(s) && WorkersOwn(s) && StartedOnce(s.jobs) && Deduped(s.jobs)
  }

  // -------------------------------------------------------------------------------------------
  // How one step may change a job

  predicate StatusMoves(from: Status, to: Status) {
    from == to
    || (from.Pending? && (to.Running? || to.Canceled?))
    || (from.Running? && (to.Completed? || to.Failed?))
    || to.Deleted?
  }

  /** No id disappears; each job keeps its identity and its status only moves forward. */
  ghost predicate Advances(before: seq<Job>, after: seq<Job>) {
    && |before| <= |after|
    && forall i :: 0 <= i < |before| ==>
         && StatusMoves(before[i].status, after[i].status)
         && after[i].jobType == before[i].jobType && after[i].key == before[i].key
         && after[i].priority == before[i].priority && after[i].scheduledAt == before[i].scheduledAt
         && JobResources(after[i]) == JobResources(before[i])
         && after[i].attempts == before[i].attempts
                                 + if before[i].status.Pending? && after[i].status.Running? then 1 else 0
  }

  /** One row that advances is all that a table of advancing rows needs. */
  lemma RowAdvances(jobs: seq<Job>, id: nat, job: Job)
    requires id < |jobs| && Advances([jobs[id]], [job])
    ensures Advances(jobs, jobs[id := job])
  {
    assert [jobs[id]][0] == jobs[id] && [job][0] == job;
  }

  lemma EnqueueAdvances(jobs: seq<Job>, args: Enqueue)
    ensures Advances(jobs, Enqueued(jobs, args))
  {
  }

  lemma ClaimAdvances(jobs: seq<Job>, id: nat, worker: nat)
    ensures Advances(jobs, Claimed(jobs, id, worker))
  {
    if IsPendingAt(jobs, id) {
      RowAdvances(jobs, id, StartedBy(jobs[id], worker));
    }
  }

  lemma FinishAdvances(jobs: seq<Job>, id: nat, result: Option<PayloadValue>)
    requires IsRunningAt(jobs, id)
    ensures Advances(jobs, WithCompleted(jobs, id, result)) && Advances(jobs, WithFailed(jobs, id))
  {
    CompletedKeepsResources(jobs[id], result);
    RowAdvances(jobs, id, CompletedWith(jobs[id], result));
    RowAdvances(jobs, id, jobs[id].(status := Failed));
  }

  lemma UpdateAdvances(jobs: seq<Job>, id: nat, updates: Payload)
    requires id < |jobs| && LeavesResourcesAlone(jobs[id].jobType, updates)
    ensures Advances(jobs, WithUpdates(jobs, id, updates))
  {
    MergeKeepsResources(jobs[id].jobType, jobs[id].payload, updates);
    RowAdvances(jobs, id, jobs[id].(payload := jobs[id].payload + updates));
  }

  lemma CancelAdvances(jobs: seq<Job>, key: DedupeKey)
    ensures Advances(jobs, CancelPending(jobs, key))
  {
  }

  lemma ResetAdvances(jobs: seq<Job>)
    ensures Advances(jobs, ResetStale(jobs))
  {
  }

  lemma TrimAdvances(jobs: seq<Job>, keepRecent: nat)
    ensures Advances(jobs, Trimmed(jobs, keepRecent))
  {
  }

  lemma StepAdvances(s: State, step: Step)
    requires Inv(s) && Enabled(s, step)
    ensures Advances(s.jobs, Apply(s, step).jobs)
  {
    match step
    case Submit(request, at) => EnqueueAdvances(s.jobs, EnqueueArgs(request, at));
    case Commit => ClaimAdvances(s.jobs, s.claim.value.id, s.claim.value.worker);
    case Finish(worker, result) => FinishAdvances(s.jobs, s.held[worker], result);
    case GiveUp(worker) => FinishAdvances(s.jobs, s.held[worker], None);
    case Progress(worker, updates) => UpdateAdvances(s.jobs, s.held[worker], updates);
    case CancelKey(key) => CancelAdvances(s.jobs, key);
    case Trim(keepRecent) => TrimAdvances(s.jobs, keepRecent);
    case Restart => ResetAdvances(s.jobs);
    case _ =>
  }

  /** Only the commit of a claim starts a job, and no step sends one back to pending. */
  lemma OnlyCommitStarts(s: State, step: Step, i: nat)
    requires Inv(s) && Enabled(s, step) && i < |Apply(s, step).jobs|
    requires Apply(s, step).jobs[i].status.Running?
    ensures i < |s.jobs|
    ensures s.jobs[i].status.Running? || (step.Commit? && i == s.claim.value.id && s.jobs[i].status.Pending?)
  {
  }

  // -------------------------------------------------------------------------------------------
  // Every step keeps the invariants

  lemma ExclusiveKept(s: State, step: Step)
    requires Inv(s) && Enabled(s, step)
    ensures Exclusive(Apply(s, step).jobs)
  {
    StepAdvances(s, step);
    var after := Apply(s, step).jobs;
    forall i, j | 0 <= i < j < |after| && after[i].status.Running? && after[j].status.Running?
      ensures JobResources(after[i]) !! JobResources(after[j])
    {
      OnlyCommitStarts(s, step, i);
      OnlyCommitStarts(s, step, j);
    }
  }

  lemma ClaimKept(s: State, step: Step)
    requires Inv(s) && Enabled(s, step)
    ensures ClaimIsSafe(Apply(s, step))
  {
    StepAdvances(s, step);
    var s' := Apply(s, step);
    if s'.claim.Some? {
      var id := s'.claim.value.id;
      if step.Read? {
        CandidateIsOptimal(s.jobs, step.now, step.allowed);
        if Candidate(s.jobs, step.now, step.allowed).Some? { PickedIsCompatible(s.jobs, id); }
      } else {
        forall i | 0 <= i < |s'.jobs| && s'.jobs[i].status.Running?
          ensures JobResources(s'.jobs[i]) !! JobResources(s'.jobs[id])
        {
          OnlyCommitStarts(s, step, i);
        }
        if s'.jobs[id].status.Running? { OnlyCommitStarts(s, step, id); }
      }
    }
  }

  /** A worker's job is left alone by what happens to another row. */
  lemma OthersRowKept(jobs: seq<Job>, held: map<nat, nat>, id: nat, job: Job)
    requires WorkersHold(jobs, held) && id < |jobs|
    requires forall w :: w in held && held[w] == id ==> job.status.Running? && job.claimedBy == Some(w)
    ensures WorkersHold(jobs[id := job], held)
  {
  }

  lemma FewerWorkersHold(jobs: seq<Job>, held: map<nat, nat>, id: nat, job: Job, worker: nat)
    requires WorkersHold(jobs, held) && worker in held && held[worker] == id
    ensures WorkersHold(jobs[id := job], held - {worker})
  {
    forall w | w in held - {worker}
      ensures held[w] != id
    {
      assert jobs[held[w]].claimedBy == Some(w) && jobs[id].claimedBy == Some(worker);
    }
  }

  /** Workers keep their jobs when running rows stay as they are. */
  lemma RunningRowsKept(before: seq<Job>, after: seq<Job>, held: map<nat, nat>)
    requires WorkersHold(before, held) && |before| <= |after|
    requires forall i :: 0 <= i < |before| && before[i].status.Running? ==> after[i] == before[i]
    ensures WorkersHold(after, held)
  {
  }

  lemma TrimKeepsOwners(jobs: seq<Job>, held: map<nat, nat>, keepRecent: nat)
    requires WorkersHold(jobs, held) && forall w :: w in held ==> held[w] >= |jobs| - keepRecent
    ensures WorkersHold(Trimmed(jobs, keepRecent), held)
  {
  }

  lemma WorkersKept(s: State, step: Step)
    requires Inv(s) && Enabled(s, step)
    ensures WorkersOwn(Apply(s, step))
  {
    match step
    case Commit =>
      if IsPendingAt(s.jobs, s.claim.value.id) {
        OthersRowKept(s.jobs, s.held, s.claim.value.id, StartedBy(s.jobs[s.claim.value.id], s.claim.value.worker));
      }
    case Finish(worker, result) =>
      FewerWorkersHold(s.jobs, s.held, s.held[worker], CompletedWith(s.jobs[s.held[worker]], result), worker);
    case GiveUp(worker) =>
      FewerWorkersHold(s.jobs, s.held, s.held[worker], s.jobs[s.held[worker]].(status := Failed), worker);
    case Progress(worker, updates) =>
      var job := s.jobs[s.held[worker]];
      OthersRowKept(s.jobs, s.held, s.held[worker], job.(payload := job.payload + updates));
    case Submit(request, at) => RunningRowsKept(s.jobs, Enqueued(s.jobs, EnqueueArgs(request, at)), s.held);
    case CancelKey(key) => RunningRowsKept(s.jobs, CancelPending(s.jobs, key), s.held);
    case Trim(keepRecent) => TrimKeepsOwners(s.jobs, s.held, keepRecent);
    case _ =>
  }

  lemma AttemptsKept(s: State, step: Step)
    requires Inv(s) && Enabled(s, step)
    ensures StartedOnce(Apply(s, step).jobs)
  {
  }

  lemma SubmitKeepsDeduped(s: State, request: Request, at: int)
    requires Inv(s)
    ensures Deduped(Enqueued(s.jobs, EnqueueArgs(request, at)))
  {
    var args := EnqueueArgs(request, at);
    var replaced := Replaced(s.jobs, args);
    var after := Enqueued(s.jobs, args);
    assert Deduped(replaced);
    if !IsSkipped(s.jobs, args) {
      forall i | 0 <= i < |replaced| ensures !SameSlot(replaced[i], NewJob(args)) {
        if replaced[i].key == args.key && args.key.Some? {
          assert !HasActive(replaced, args.key.value) || !args.skipIfActive;
        }
      }
    }
  }

  /** A job that advances takes no slot it did not have. */
  lemma SlotsOnlyShrink(before: seq<Job>, after: seq<Job>, i: nat, j: nat)
    requires Advances(before, after) && i < |before| && j < |before|
    ensures SameSlot(after[i], after[j]) ==> SameSlot(before[i], before[j])
  {
  }

  lemma DedupedKept(s: State, step: Step)
    requires Inv(s) && Enabled(s, step)
    ensures Deduped(Apply(s, step).jobs)
  {
    if step.Submit? {
      SubmitKeepsDeduped(s, step.request, step.at);
    } else {
      StepAdvances(s, step);
      var after := Apply(s, step).jobs;
      assert |after| == |s.jobs|;
      forall i, j | 0 <= i < j < |after|
        ensures !SameSlot(after[i], after[j])
      {
        SlotsOnlyShrink(s.jobs, after, i, j);
      }
    }
  }

  lemma StepKeepsInv(s: State, step: Step)
    requires Inv(s) && Enabled(s, step)
    ensures Inv(Apply(s, step))
  {
    ExclusiveKept(s, step);
    ClaimKept(s, step);
    WorkersKept(s, step);
    AttemptsKept(s, step);
    DedupedKept(s, step);
  }

  // -------------------------------------------------------------------------------------------
  // Whole runs

  function Initial(): State {
    State([], None, map[])
  }

  /** Every step of a run is enabled where it is taken. */
  predicate Legal(s: State, steps: seq<Step>)
    decreases |steps|
  {
    steps == [] || (Enabled(s, steps[0]) && Legal(Apply(s, steps[0]), steps[1..]))
  }

  function Run(s: State, steps: seq<Step>): State
    requires Legal(s, steps)
    decreases |steps|
  {
    if steps == [] then s else Run(Apply(s, steps[0]), steps[1..])
  }

  lemma {:induction false} RunKeepsInv(s: State, steps: seq<Step>)
    requires Inv(s) && Legal(s, steps)
    ensures Inv(Run(s, steps))
    decreases |steps|
  {
    if steps != [] {
      StepKeepsInv(s, steps[0]);
      RunKeepsInv(Apply(s, steps[0]), steps[1..]);
    }
  }

  /**
   Mutual exclusion over every run: no two running jobs share a resource, so that at most one task run,
   one job that works on the media services and one delivery per endpoint run at a time.
   */
  lemma MutualExclusion(steps: seq<Step>, i: nat, j: nat)
    requires Legal(Initial(), steps)
    requires i < j < |Run(Initial(), steps).jobs|
    requires Run(Initial(), steps).jobs[i].status.Running? && Run(Initial(), steps).jobs[j].status.Running?
    ensures var a, b := Run(Initial(), steps).jobs[i], Run(Initial(), steps).jobs[j];
            JobResources(a) !! JobResources(b) && !Clash(a.jobType, a.payload, b.jobType, b.payload)
  {
    RunKeepsInv(Initial(), steps);
    var a, b := Run(Initial(), steps).jobs[i], Run(Initial(), steps).jobs[j];
    ResourcesMeetExactlyOnClash(a.jobType, a.payload, b.jobType, b.payload);
    assert JobResources(a) !! JobResources(b);
  }

  /**
   Over every run, a service toggle, a file operation or a duplicate deletion never runs beside a run
   of one of the eight tasks that work on the media services.
   */
  lemma ServicesAreExclusive(steps: seq<Step>, i: nat, j: nat)
    requires Legal(Initial(), steps)
    requires i < |Run(Initial(), steps).jobs| && j < |Run(Initial(), steps).jobs|
    requires Run(Initial(), steps).jobs[i].status.Running? && Run(Initial(), steps).jobs[j].status.Running?
    requires Run(Initial(), steps).jobs[i].jobType in {ServiceToggle, CandidateFileOp, DuplicateDelete}
    requires Run(Initial(), steps).jobs[j].jobType == TaskRun
    ensures TaskOf(Run(Initial(), steps).jobs[j].payload)
            !in {Some(SyncMedia), Some(ResyncMedia), Some(SyncMediaLibraries), Some(SyncLinkedData),
                 Some(RefreshPlaybackHistory), Some(ScanCleanupCandidates),
                 Some(TagCleanupCandidates), Some(DeleteCleanupCandidates)}
  {
    var a, b := Run(Initial(), steps).jobs[i], Run(Initial(), steps).jobs[j];
    RunKeepsInv(Initial(), steps);
    assert JobResources(a) !! JobResources(b);
    WhoHolds(a.jobType, a.payload);
    TasksHold(b.payload);
    assert ServiceRuntime in JobResources(a) && ServiceRuntime !in JobResources(b);
  }

  /** Over every run, the jobs that two workers are running do not clash. */
  lemma WorkersNeverClash(steps: seq<Step>, v: nat, w: nat)
    requires Legal(Initial(), steps) && v != w
    requires v in Run(Initial(), steps).held && w in Run(Initial(), steps).held
    ensures var s := Run(Initial(), steps);
            && s.held[v] < |s.jobs| && s.held[w] < |s.jobs| && s.held[v] != s.held[w]
            && var a, b := s.jobs[s.held[v]], s.jobs[s.held[w]];
            !Clash(a.jobType, a.payload, b.jobType, b.payload)
  {
    RunKeepsInv(Initial(), steps);
    var s := Run(Initial(), steps);
    var i, j := s.held[v], s.held[w];
    assert s.jobs[i].claimedBy == Some(v) && s.jobs[j].claimedBy == Some(w);
    if i < j {
      MutualExclusion(steps, i, j);
    } else {
      MutualExclusion(steps, j, i);
      var a, b := s.jobs[i], s.jobs[j];
      assert Clash(a.jobType, a.payload, b.jobType, b.payload) == Clash(b.jobType, b.payload, a.jobType, a.payload);
    }
  }

  /** Over every run, no task has two active jobs for one service configuration. */
  lemma NoDuplicateRuns(steps: seq<Step>, i: nat, j: nat)
    requires Legal(Initial(), steps)
    requires i < j < |Run(Initial(), steps).jobs|
    requires var a, b := Run(Initial(), steps).jobs[i], Run(Initial(), steps).jobs[j];
             a.key.Some? && b.key.Some? && a.key.value.TaskKey? && KeyText(a.key.value) == KeyText(b.key.value)
    ensures !(IsActive(Run(Initial(), steps).jobs[i]) && IsActive(Run(Initial(), steps).jobs[j]))
  {
    RunKeepsInv(Initial(), steps);
    var a, b := Run(Initial(), steps).jobs[i], Run(Initial(), steps).jobs[j];
    KeyTextIsInjective(a.key.value, b.key.value);
    assert !SameSlot(a, b);
  }

  /** How often a run starts a job. */
  function Starts(s: State, steps: seq<Step>, id: nat): nat
    requires Legal(s, steps)
    decreases |steps|
  {
    if steps == [] then 0
    else
      (if steps[0].Commit? && s.claim.value.id == id && IsPendingAt(s.jobs, id) then 1 else 0)
      + Starts(Apply(s, steps[0]), steps[1..], id)
  }

  function AttemptsOf(jobs: seq<Job>, id: nat): nat {
    if id < |jobs| then jobs[id].attempts else 0
  }

  lemma {:induction false} StartsAreAttempts(s: State, steps: seq<Step>, id: nat)
    requires Inv(s) && Legal(s, steps)
    ensures AttemptsOf(Run(s, steps).jobs, id) == AttemptsOf(s.jobs, id) + Starts(s, steps, id)
    decreases |steps|
  {
    if steps != [] {
      StepKeepsInv(s, steps[0]);
      StepAttempts(s, steps[0], id);
      StartsAreAttempts(Apply(s, steps[0]), steps[1..], id);
    }
  }

  lemma StepAttempts(s: State, step: Step, id: nat)
    requires Inv(s) && Enabled(s, step)
    ensures AttemptsOf(Apply(s, step).jobs, id)
            == AttemptsOf(s.jobs, id)
               + if step.Commit? && s.claim.value.id == id && IsPendingAt(s.jobs, id) then 1 else 0
  {
    StepAdvances(s, step);
    if id < |s.jobs| && Apply(s, step).jobs[id].status.Running? { OnlyCommitStarts(s, step, id); }
  }

  /** At-most-once execution: no run, whatever restarts it contains, starts a job twice. */
  lemma StartedAtMostOnce(steps: seq<Step>, id: nat)
    requires Legal(Initial(), steps)
    ensures Starts(Initial(), steps, id) <= 1
    ensures id < |Run(Initial(), steps).jobs| ==>
              var status := Run(Initial(), steps).jobs[id].status;
              !status.Deleted? ==> (Starts(Initial(), steps, id) == 0 <==> status.Pending? || status.Canceled?)
  {
    RunKeepsInv(Initial(), steps);
    StartsAreAttempts(Initial(), steps, id);
  }

  // -------------------------------------------------------------------------------------------
  // What the steps leave behind

  /** Only row `id` differs, in its status and its payload. */
  predicate OnlyStatusAt(before: seq<Job>, after: seq<Job>, id: nat, status: Status) {
    && |after| == |before| && id < |before|
    && (forall i :: 0 <= i < |before| && i != id ==> after[i] == before[i])
    && after[id] == before[id].(status := status, payload := after[id].payload)
  }

  /** A worker's job ends as completed or failed, or keeps running when the worker ends without a word. */
  lemma WorkerStepsEnd(s: State, worker: nat, result: Option<PayloadValue>)
    requires Inv(s) && worker in s.held
    ensures OnlyStatusAt(s.jobs, Apply(s, Finish(worker, result)).jobs, s.held[worker], Completed)
    ensures OnlyStatusAt(s.jobs, Apply(s, GiveUp(worker)).jobs, s.held[worker], Failed)
    ensures OnlyStatusAt(s.jobs, Apply(s, Abandon(worker)).jobs, s.held[worker], Running)
    ensures forall step :: step in {Finish(worker, result), GiveUp(worker), Abandon(worker)} ==>
              Apply(s, step).held == s.held - {worker} && Apply(s, step).claim == s.claim
  {
  }

  /** Progress adds to the payload of the worker's own job, and a dropped claim changes no job. */
  lemma QuietSteps(s: State, worker: nat, updates: Payload)
    requires Inv(s)
    ensures Enabled(s, Progress(worker, updates)) ==>
              && Apply(s, Progress(worker, updates)).jobs[s.held[worker]].payload
                 == s.jobs[s.held[worker]].payload + updates
              && OnlyStatusAt(s.jobs, Apply(s, Progress(worker, updates)).jobs, s.held[worker], Running)
              && Apply(s, Progress(worker, updates)).held == s.held
    ensures Enabled(s, DropClaim) ==> Apply(s, DropClaim) == State(s.jobs, None, s.held)
  {
  }

  /** What may happen: a read needs a free lock and an idle worker, a trim must leave every held row. */
  lemma WhatMayHappen(s: State, worker: nat, now: int, allowed: Option<set<JobType>>, keepRecent: nat)
    requires Inv(s)
    ensures Enabled(s, Read(worker, now, allowed)) <==> s.claim == None && worker !in s.held
    ensures Enabled(s, Commit) <==> s.claim != None
    ensures Enabled(s, Trim(keepRecent)) <==> forall w :: w in s.held ==> |s.jobs| - s.held[w] <= keepRecent
    ensures forall updates: Payload :: TaskEntry !in updates && EndpointEntry !in updates && worker in s.held
              ==> Enabled(s, Progress(worker, updates))
  {
  }

  /** A restart fails exactly the running jobs, and forgets workers and claim. */
  lemma RestartFailsTheRunning(s: State, i: nat)
    requires i < |s.jobs|
    ensures var after := Apply(s, Restart);
            && after.claim.None? && after.held == map[] && |after.jobs| == |s.jobs|
            && after.jobs[i] == if s.jobs[i].status == Running then s.jobs[i].(status := Failed) else s.jobs[i]
  {
  }

  /** Some job with this key waits or runs. */
  predicate SomeActive(jobs: seq<Job>, key: DedupeKey) {
    exists i :: 0 <= i < |jobs| && jobs[i].key == Some(key) && jobs[i].status in {Pending, Running}
  }

  /** A task that waits or runs is not submitted again; otherwise its run is added, below everything if scheduled. */
  lemma SubmittedTask(s: State, task: Task, config: Option<nat>, scheduled: bool, at: int)
    ensures var key := TaskKey(task, config);
            var run := Job(TaskRun, Pending, map[TaskEntry := TaskText(task)], Some(key),
                           if scheduled then Low else Normal, at, 0, 3, None);
            Apply(s, Submit(RunTask(task, config, scheduled), at)).jobs
            == if SomeActive(s.jobs, key) then s.jobs else s.jobs + [run]
  {
    var key := TaskKey(task, config);
    if i :| 0 <= i < |s.jobs| && s.jobs[i].key == Some(key) && s.jobs[i].status in {Pending, Running} {
      assert IsActive(s.jobs[i]);
    }
  }

  /** Other requests are always added, first in line; a toggle or a delivery replaces the waiting one with its key. */
  lemma SubmittedOthers(s: State, service: nat, delivery: nat, endpoint: Option<nat>, at: int)
    ensures Apply(s, Submit(ToggleService(service), at)).jobs
            == CancelPending(s.jobs, ToggleKey(service))
               + [Job(ServiceToggle, Pending, map[], Some(ToggleKey(service)), High, at, 0, 3, None)]
    ensures var named := if endpoint.Some? then IntValue(endpoint.value) else OtherValue(0);
            Apply(s, Submit(DeliverWebhook(delivery, endpoint), at)).jobs
            == CancelPending(s.jobs, DeliveryKey(delivery))
               + [Job(WebhookDelivery, Pending, map[EndpointEntry := named], Some(DeliveryKey(delivery)), High, at, 0, 1,
                      None)]
    ensures Apply(s, Submit(RunFileOp, at)).jobs
            == s.jobs + [Job(CandidateFileOp, Pending, map[], None, High, at, 0, 3, None)]
    ensures Apply(s, Submit(DeleteDuplicates, at)).jobs
            == s.jobs + [Job(DuplicateDelete, Pending, map[], None, High, at, 0, 3, None)]
  {
  }

  // -------------------------------------------------------------------------------------------
  // Only finitely much happens without new requests

  function Weight(status: Status): nat {
    match status
    case Pending => 2
    case Running => 1
    case _ => 0
  }

  /** Two for every pending job and one for every running job. */
  function TotalWeight(jobs: seq<Job>): nat {
    if jobs == [] then 0 else Weight(jobs[0].status) + TotalWeight(jobs[1..])
  }

  function Statuses(jobs: seq<Job>): multiset<Status> {
    if jobs == [] then multiset{} else multiset{jobs[0].status} + Statuses(jobs[1..])
  }

  lemma {:induction false} WeightCounts(jobs: seq<Job>)
    ensures TotalWeight(jobs) == 2 * Statuses(jobs)[Pending] + Statuses(jobs)[Running]
  {
    if jobs != [] {
      WeightCounts(jobs[1..]);
    }
  }

  /** No status changed, except that rows of jobs that were over may be gone. */
  predicate SameStatuses(before: seq<Job>, after: seq<Job>) {
    |before| == |after| && forall i :: 0 <= i < |before| ==> SameStatus(before[i].status, after[i].status)
  }

  predicate SameStatus(before: Status, after: Status) {
    before == after || (after.Deleted? && Weight(before) == 0)
  }

  lemma {:induction false} WeightDrops(before: seq<Job>, after: seq<Job>)
    requires |before| == |after|
    requires forall i :: 0 <= i < |before| ==> StatusMoves(before[i].status, after[i].status)
    ensures TotalWeight(after) <= TotalWeight(before)
    ensures !SameStatuses(before, after) ==> TotalWeight(after) < TotalWeight(before)
  {
    if before != [] {
      WeightDrops(before[1..], after[1..]);
      if SameStatuses(before[1..], after[1..]) && SameStatus(before[0].status, after[0].status) {
        forall i | 0 <= i < |before| ensures SameStatus(before[i].status, after[i].status) {
          if i > 0 { assert before[1..][i - 1] == before[i] && after[1..][i - 1] == after[i]; }
        }
      }
    }
  }

  /** How many steps of a run change the status of some job that was not over. */
  function EffectiveSteps(s: State, steps: seq<Step>): nat
    requires Legal(s, steps)
    decreases |steps|
  {
    if steps == [] then 0
    else
      (if SameStatuses(s.jobs, Apply(s, steps[0]).jobs) then 0 else 1)
      + EffectiveSteps(Apply(s, steps[0]), steps[1..])
  }

  /** Without new requests, at most two effective steps per pending job and one per running job remain. */
  lemma {:induction false} FinitelyManyEffectiveSteps(s: State, steps: seq<Step>)
    requires Inv(s) && Legal(s, steps)
    requires forall step :: step in steps ==> !step.Submit?
    ensures EffectiveSteps(s, steps) + TotalWeight(Run(s, steps).jobs) <= TotalWeight(s.jobs)
    decreases |steps|
  {
    if steps != [] {
      StepKeepsInv(s, steps[0]);
      StepAdvances(s, steps[0]);
      assert steps[0] in steps;
      WeightDrops(s.jobs, Apply(s, steps[0]).jobs);
      FinitelyManyEffectiveSteps(Apply(s, steps[0]), steps[1..]);
    }
  }

  // -------------------------------------------------------------------------------------------
  // A claim between other steps

  /** The step cancels the pending jobs with the key of this job. */
  predicate Cancels(step: Step, job: Job) {
    match step
    case CancelKey(key) => job.key == Some(key)
    case Submit(request, at) =>
      EnqueueArgs(request, at).replacePending && job.key.Some? && job.key == EnqueueArgs(request, at).key
    case _ => false
  }

  /** The step takes job `id` from a claim: it cancels the job or deletes its row. */
  predicate Takes(s: State, step: Step, id: nat)
    requires id < |s.jobs|
  {
    Cancels(step, s.jobs[id]) || (step.Trim? && id < |s.jobs| - step.keepRecent)
  }

  /** Some step of a run takes job `id` from a claim. */
  predicate SomeTakes(s: State, steps: seq<Step>, id: nat)
    requires Legal(s, steps) && id < |s.jobs|
    decreases |steps|
  {
    steps != []
    && (Takes(s, steps[0], id)
        || (id < |Apply(s, steps[0]).jobs| && SomeTakes(Apply(s, steps[0]), steps[1..], id)))
  }

  /** Steps that may come between the read and the commit of a claim that does not end before. */
  predicate KeepClaim(steps: seq<Step>) {
    forall step :: step in steps ==> !step.Commit? && !step.DropClaim? && !step.Restart?
  }

  /** What a cancel or a request does to a job that is pending or canceled. */
  lemma CancelOrSubmit(s: State, step: Step, id: nat)
    requires id < |s.jobs| && Enabled(s, step) && (step.CancelKey? || step.Submit?)
    ensures var after := Apply(s, step).jobs;
            && id < |after| && after[id].key == s.jobs[id].key
            && (after[id].status.Pending? <==> s.jobs[id].status.Pending? && !Cancels(step, s.jobs[id]))
  {
  }

  lemma ClaimWaitsOneStep(s: State, step: Step)
    requires Inv(s) && s.claim.Some? && Enabled(s, step) && !step.Commit? && !step.DropClaim? && !step.Restart?
    ensures var s', id := Apply(s, step), s.claim.value.id;
            && s'.claim == s.claim && id < |s'.jobs|
            && (s'.jobs[id].status.Pending? <==> s.jobs[id].status.Pending? && !Takes(s, step, id))
  {
    var id := s.claim.value.id;
    match step
    case Submit(_, _) => CancelOrSubmit(s, step, id);
    case CancelKey(_) => CancelOrSubmit(s, step, id);
    case Finish(worker, _) => assert s.held[worker] != id;
    case GiveUp(worker) => assert s.held[worker] != id;
    case Progress(worker, _) => assert s.held[worker] != id;
    case Trim(_) =>
    case Abandon(_) =>
  }

  /** A claim in flight waits, whatever happens: only a cancel or a trim of its job can take the job from it. */
  lemma {:induction false} ClaimWaits(s: State, steps: seq<Step>)
    requires Inv(s) && s.claim.Some? && Legal(s, steps) && KeepClaim(steps)
    ensures var s', id := Run(s, steps), s.claim.value.id;
            && Inv(s') && s'.claim == s.claim && id < |s'.jobs|
            && (s'.jobs[id].status.Pending? <==> s.jobs[id].status.Pending? && !SomeTakes(s, steps, id))
    decreases |steps|
  {
    if steps != [] {
      var first, rest := steps[0], steps[1..];
      ClaimWaitsOneStep(s, first);
      StepKeepsInv(s, first);
      ClaimWaits(Apply(s, first), rest);
    }
  }

  /** The job runs on behalf of the worker. */
  predicate HasStarted(s: State, worker: nat, id: nat) {
    id < |s.jobs| && s.jobs[id].status.Running? && worker in s.held && s.held[worker] == id
  }

  /**
   A whole claim in any interleaving: the read picks the first claimable job, none only when there is
   none; as long as the claim is not dropped the commit stays possible, and starts that job unless a step
   in between canceled it or deleted its row, in which case it changes nothing.
   */
  lemma InterleavedClaim(s: State, worker: nat, now: int, allowed: Option<set<JobType>>, steps: seq<Step>)
    requires Inv(s) && Enabled(s, Read(worker, now, allowed))
    requires Legal(Apply(s, Read(worker, now, allowed)), steps) && KeepClaim(steps)
    ensures var s1 := Apply(s, Read(worker, now, allowed));
            match s1.claim
            case None => s1 == s && forall j :: 0 <= j < |s.jobs| ==> !IsClaimable(s.jobs, j, now, allowed)
            case Some(claim) =>
              var s2 := Run(s1, steps);
              && claim.worker == worker && IsFirstClaimable(s.jobs, claim.id, now, allowed)
              && Enabled(s2, Commit)
              && if SomeTakes(s1, steps, claim.id)
                 then
                   && claim.id < |s2.jobs| && (s2.jobs[claim.id].status.Canceled? || s2.jobs[claim.id].status.Deleted?)
                   && Apply(s2, Commit) == s2.(claim := None)
                 else HasStarted(Apply(s2, Commit), worker, claim.id)
  {
    CandidateIsOptimal(s.jobs, now, allowed);
    StepKeepsInv(s, Read(worker, now, allowed));
    var s1 := Apply(s, Read(worker, now, allowed));
    if s1.claim.Some? {
      ClaimWaits(s1, steps);
    }
  }

  /**
   With nothing running, a due and allowed job always leads to a start: the read picks a job, and after
   any steps that do not take it the commit starts it.
   */
  lemma IdleQueueAlwaysStarts(
    s: State, worker: nat, now: int, allowed: Option<set<JobType>>, id: nat, steps: seq<Step>
  )
    requires Inv(s) && Enabled(s, Read(worker, now, allowed))
    requires forall i :: 0 <= i < |s.jobs| ==> !s.jobs[i].status.Running?
    requires id < |s.jobs| && IsDue(s.jobs[id], now, allowed)
    requires Legal(Apply(s, Read(worker, now, allowed)), steps) && KeepClaim(steps)
    ensures var s1 := Apply(s, Read(worker, now, allowed));
            && s1.claim.Some? && IsFirstClaimable(s.jobs, s1.claim.value.id, now, allowed)
            && Enabled(Run(s1, steps), Commit)
            && (HasStarted(Apply(Run(s1, steps), Commit), worker, s1.claim.value.id)
                <==> !SomeTakes(s1, steps, s1.claim.value.id))
  {
    assert BusyResources(s.jobs) == {};
    assert IsClaimable(s.jobs, id, now, allowed);
    InterleavedClaim(s, worker, now, allowed, steps);
  }

  // -------------------------------------------------------------------------------------------
  // What the rules of the workers are needed for

  /**
   Finishing a job moves the table forward exactly when it is running, was finished like that before,
   or does not exist: without the rule that only its worker finishes it, a pending job could complete.
   */
  lemma FinishAdvancesExactly(jobs: seq<Job>, id: nat, result: Option<PayloadValue>)
    ensures Advances(jobs, WithCompleted(jobs, id, result))
            <==> !IsRowAt(jobs, id) || jobs[id].status.Running? || jobs[id].status.Completed?
    ensures Advances(jobs, WithFailed(jobs, id))
            <==> !IsRowAt(jobs, id) || jobs[id].status.Running? || jobs[id].status.Failed?
  {
    if id < |jobs| {
      CompletedKeepsResources(jobs[id], result);
    }
  }

  /** Updates that can never take a resource of another running job. */
  predicate IsHarmless(jobType: JobType, updates: Payload) {
    && (jobType.TaskRun? ==> !TouchesServices(TaskRun, updates))
    && (jobType.WebhookDelivery? ==> EndpointEntry !in updates)
  }

  /** Two running jobs that do not clash, until the updates are merged into the first. */
  function TableThatWouldClash(jobType: JobType, updates: Payload): seq<Job> {
    if jobType.TaskRun? then
      [RunningJob(TaskRun, map[]), RunningJob(ServiceToggle, map[])]
    else
      [RunningJob(jobType, PayloadThatChanges(jobType, updates)), RunningJob(jobType, updates)]
  }

  function RunningJob(jobType: JobType, payload: Payload): Job {
    Job(jobType, Running, payload, None, Normal, 0, 1, 3, Some(0))
  }

  lemma HarmfulUpdateClashes(jobType: JobType, updates: Payload)
    requires !IsHarmless(jobType, updates)
    ensures var jobs := TableThatWouldClash(jobType, updates);
            && Exclusive(jobs) && |jobs| == 2 && jobs[0].jobType == jobType
            && !Exclusive(WithUpdates(jobs, 0, updates))
  {
    var jobs := TableThatWouldClash(jobType, updates);
    var after := WithUpdates(jobs, 0, updates);
    ResourcesMeetExactlyOnClash(jobs[0].jobType, jobs[0].payload, jobs[1].jobType, jobs[1].payload);
    ResourcesMeetExactlyOnClash(after[0].jobType, after[0].payload, after[1].jobType, after[1].payload);
    WhoHolds(jobType, updates);
    WhoHolds(jobType, after[0].payload);
  }

  lemma HarmlessUpdateKeepsExclusion(jobs: seq<Job>, id: nat, updates: Payload)
    requires Exclusive(jobs) && id < |jobs| && IsHarmless(jobs[id].jobType, updates)
    ensures Exclusive(WithUpdates(jobs, id, updates))
  {
    var after := WithUpdates(jobs, id, updates);
    forall i, j | 0 <= i < j < |after| && after[i].status.Running? && after[j].status.Running?
      ensures JobResources(after[i]) !! JobResources(after[j])
    {
      assert JobResources(jobs[i]) !! JobResources(jobs[j]);
      ResourcesMeetExactlyOnClash(jobs[i].jobType, jobs[i].payload, jobs[j].jobType, jobs[j].payload);
      ResourcesMeetExactlyOnClash(after[i].jobType, after[i].payload, after[j].jobType, after[j].payload);
      WhoHolds(jobs[id].jobType, updates);
    }
  }

  /**
   Payload updates of a running job keep exclusion in every table exactly when they do not turn a task
   run into one that works on the media services, and do not point a delivery elsewhere.
   */
  lemma UpdatesKeepExclusionExactly(jobType: JobType, updates: Payload)
    ensures (forall jobs: seq<Job>, id: nat :: Exclusive(jobs) && id < |jobs| && jobs[id].jobType == jobType ==>
               Exclusive(WithUpdates(jobs, id, updates)))
            <==> IsHarmless(jobType, updates)
  {
    if IsHarmless(jobType, updates) {
      forall jobs: seq<Job>, id: nat | Exclusive(jobs) && id < |jobs| && jobs[id].jobType == jobType
        ensures Exclusive(WithUpdates(jobs, id, updates))
      {
        HarmlessUpdateKeepsExclusion(jobs, id, updates);
      }
    } else {
      HarmfulUpdateClashes(jobType, updates);
    }
  }

  /** An update of `task` makes a running task run clash with a running service toggle. */
  lemma TaskUpdateWouldClash()
    ensures var jobs := [RunningJob(TaskRun, map[TaskEntry := TaskText(WeeklyHouseKeeping)]),
                         RunningJob(ServiceToggle, map[])];
            Exclusive(jobs) && !Exclusive(WithUpdates(jobs, 0, map[TaskEntry := TaskText(SyncMedia)]))
  {
    var housekeeping: Payload := map[TaskEntry := TaskText(WeeklyHouseKeeping)];
    var sync: Payload := map[TaskEntry := TaskText(SyncMedia)];
    var jobs := [RunningJob(TaskRun, housekeeping), RunningJob(ServiceToggle, map[])];
    var after := WithUpdates(jobs, 0, sync);
    assert ServiceRuntime in JobResources(after[0]) && ServiceRuntime in JobResources(after[1]);
  }

  /** After a trim every worker still owns the row of its job exactly when the trim spares held rows. */
  lemma TrimKeepsOwnersExactly(s: State, keepRecent: nat)
    requires Inv(s)
    ensures WorkersHold(Trimmed(s.jobs, keepRecent), s.held) <==> SparesHeld(s, keepRecent)
  {
    var after := Trimmed(s.jobs, keepRecent);
    if WorkersHold(after, s.held) {
      forall w | w in s.held
        ensures s.held[w] >= |s.jobs| - keepRecent
      {
        assert after[s.held[w]].status.Running?;
      }
    }
  }

  /** The only due job of a table with nothing running is the one a read picks. */
  lemma OnlyDueIsPicked(s: State, worker: nat, id: nat)
    requires s.claim.None? && worker !in s.held
    requires id < |s.jobs| && IsDue(s.jobs[id], 0, None)
    requires forall i :: 0 <= i < |s.jobs| && i != id ==> !s.jobs[i].status.Pending?
    requires forall i :: 0 <= i < |s.jobs| ==> !s.jobs[i].status.Running?
    ensures var steps := [Read(worker, 0, None), Commit];
            && Legal(s, steps)
            && Run(s, steps) == State(Claimed(s.jobs, id, worker), None, s.held[worker := id])
  {
    var steps := [Read(worker, 0, None), Commit];
    CandidateIsOptimal(s.jobs, 0, None);
    assert BusyResources(s.jobs) == {};
    assert IsClaimable(s.jobs, id, 0, None);
    assert Candidate(s.jobs, 0, None) == Some(id);
    var s1 := Apply(s, steps[0]);
    assert steps[1..] == [Commit] && steps[1..][1..] == [];
    assert Legal(s1, [Commit]) && Run(s1, [Commit]) == Apply(s1, Commit);
  }

  /** A running service toggle on behalf of worker 1, and nothing else. */
  function OneToggle(): State {
    State([StartedBy(NewJob(EnqueueArgs(ToggleService(1), 0)), 1)], None, map[1 := 0])
  }

  lemma OneToggleIsReachable()
    ensures Legal(Initial(), [Submit(ToggleService(1), 0), Read(1, 0, None), Commit])
    ensures Run(Initial(), [Submit(ToggleService(1), 0), Read(1, 0, None), Commit]) == OneToggle()
  {
    var steps := [Submit(ToggleService(1), 0), Read(1, 0, None), Commit];
    var s := Apply(Initial(), steps[0]);
    assert s == State([NewJob(EnqueueArgs(ToggleService(1), 0))], None, map[]);
    OnlyDueIsPicked(s, 1, 0);
    assert steps[1..] == [Read(1, 0, None), Commit];
  }

  /**
   Where a trim does not spare held rows, two workers can end up running clashing jobs: here the row of
   a running toggle is deleted and the next toggle starts beside it.
   */
  lemma CarelessTrimLetsJobsClash()
    ensures Legal(Initial(), [Submit(ToggleService(1), 0), Read(1, 0, None), Commit])
    ensures var s := Run(Initial(), [Submit(ToggleService(1), 0), Read(1, 0, None), Commit]);
            var trimmed := s.(jobs := Trimmed(s.jobs, 0));
            var steps := [Submit(ToggleService(2), 0), Read(2, 0, None), Commit];
            && !SparesHeld(s, 0) && Legal(trimmed, steps)
            && var after := Run(trimmed, steps);
            && after.held == map[1 := 0, 2 := 1] && |after.jobs| == 2
            && Clash(after.jobs[0].jobType, after.jobs[0].payload, after.jobs[1].jobType, after.jobs[1].payload)
  {
    OneToggleIsReachable();
    var s := OneToggle();
    var trimmed := s.(jobs := Trimmed(s.jobs, 0));
    var steps := [Submit(ToggleService(2), 0), Read(2, 0, None), Commit];
    var next := Apply(trimmed, steps[0]);
    assert s.held[1] == 0;
    assert next.jobs == trimmed.jobs + [NewJob(EnqueueArgs(ToggleService(2), 0))];
    assert trimmed.jobs[0].status.Deleted?;
    OnlyDueIsPicked(next, 2, 1);
    assert steps[1..] == [Read(2, 0, None), Commit];
  }
}
