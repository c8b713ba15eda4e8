/**
 The background job table and the transactions that change it. A job's id is its position in the table;
 a row that house-keeping deleted keeps its position, marked `Deleted`, and no query sees it.
 */
module JobQueue {
  import opened Basics
  import opened JobPolicy

  datatype Status = Pending | Running | Completed | Failed | Canceled | Deleted
  datatype Priority = Low | Normal | High

  datatype Job = Job(
    jobType: JobType,
    status: Status,
    payload: Payload,
    key: Option<DedupeKey>,
    priority: Priority,
    scheduledAt: int,
    attempts: nat,
    maxAttempts: nat,
    claimedBy: Option<nat>
  )

  predicate IsActive(job: Job) {
    job.status.Pending? || job.status.Running?
  }

  function JobResources(job: Job): set<Resource> {
    Resources(job.jobType, job.payload)
  }

  // -------------------------------------------------------------------------------------------
  // What each transaction does to the table

  function CanceledIf(job: Job, key: DedupeKey): Job {
    if job.key == Some(key) && job.status.Pending? then job.(status := Canceled) else job
  }

  /** Cancels the pending jobs with a dedupe key. */
  function CancelPending(jobs: seq<Job>, key: DedupeKey): (result: seq<Job>)
    ensures |result| == |jobs|
    ensures forall i :: 0 <= i < |jobs| ==> result[i] == CanceledIf(jobs[i], key)
  {
    seq(|jobs|, i requires 0 <= i < |jobs| => CanceledIf(jobs[i], key))
  }

  /** Exactly the pending rows with the key become canceled. */
  lemma CanceledRows(jobs: seq<Job>, key: DedupeKey, i: nat)
    requires i < |jobs|
    ensures CancelPending(jobs, key)[i]
            == if jobs[i].key == Some(key) && jobs[i].status == Pending then jobs[i].(status := Canceled) else jobs[i]
  {
  }

  /** How many of the first `bound` jobs are pending with a dedupe key. */
  function CountPending(jobs: seq<Job>, key: DedupeKey, bound: nat): nat
    requires bound <= |jobs|
  {
    if bound == 0 then 0
    else
      CountPending(jobs, key, bound - 1)
      + if jobs[bound - 1].key == Some(key) && jobs[bound - 1].status.Pending? then 1 else 0
  }

  predicate HasActive(jobs: seq<Job>, key: DedupeKey) {
    exists i :: 0 <= i < |jobs| && jobs[i].key == Some(key) && IsActive(jobs[i])
  }

  datatype Enqueue = Enqueue(
    jobType: JobType,
    payload: Payload,
    key: Option<DedupeKey>,
    scheduledAt: int,
    replacePending: bool,
    skipIfActive: bool,
    priority: Priority,
    maxAttempts: nat
  )

  function NewJob(args: Enqueue): Job {
    Job(args.jobType, Pending, args.payload, args.key, args.priority, args.scheduledAt, 0, args.maxAttempts, None)
  }

  /** The table after the pending jobs an enqueue replaces were canceled. */
  function Replaced(jobs: seq<Job>, args: Enqueue): seq<Job> {
    if args.replacePending && args.key.Some? then CancelPending(jobs, args.key.value) else jobs
  }

  predicate IsSkipped(jobs: seq<Job>, args: Enqueue) {
    args.skipIfActive && args.key.Some? && HasActive(Replaced(jobs, args), args.key.value)
  }

  /** A skipped enqueue ends without a commit, so what it canceled is rolled back. */
  function Enqueued(jobs: seq<Job>, args: Enqueue): seq<Job> {
    if IsSkipped(jobs, args) then jobs else Replaced(jobs, args) + [NewJob(args)]
  }

  function FailedIfRunning(job: Job): Job {
    if job.status.Running? then job.(status := Failed) else job
  }

  function ResetStale(jobs: seq<Job>): (result: seq<Job>)
    ensures |result| == |jobs|
    ensures forall i :: 0 <= i < |jobs| ==> result[i] == FailedIfRunning(jobs[i])
  {
    seq(|jobs|, i requires 0 <= i < |jobs| => FailedIfRunning(jobs[i]))
  }

  function StartedBy(job: Job, worker: nat): Job {
    job.(status := Running, claimedBy := Some(worker), attempts := job.attempts + 1)
  }

  predicate IsRunningAt(jobs: seq<Job>, id: nat) {
    id < |jobs| && jobs[id].status.Running?
  }

  predicate IsPendingAt(jobs: seq<Job>, id: nat) {
    id < |jobs| && jobs[id].status.Pending?
  }

  /** The guarded second half of a claim: it starts the job only if it is still pending. */
  function Claimed(jobs: seq<Job>, id: nat, worker: nat): seq<Job> {
    if IsPendingAt(jobs, id) then jobs[id := StartedBy(jobs[id], worker)] else jobs
  }

  function CompletedWith(job: Job, result: Option<PayloadValue>): Job {
    job.(status := Completed,
         payload := if result.Some? then job.payload[ResultEntry := result.value] else job.payload)
  }

  predicate IsRowAt(jobs: seq<Job>, id: nat) {
    id < |jobs| && !jobs[id].status.Deleted?
  }

  function WithCompleted(jobs: seq<Job>, id: nat, result: Option<PayloadValue>): seq<Job> {
    if IsRowAt(jobs, id) then jobs[id := CompletedWith(jobs[id], result)] else jobs
  }

  function WithFailed(jobs: seq<Job>, id: nat): seq<Job> {
    if IsRowAt(jobs, id) then jobs[id := jobs[id].(status := Failed)] else jobs
  }

  function WithUpdates(jobs: seq<Job>, id: nat, updates: Payload): seq<Job> {
    if IsRowAt(jobs, id) then jobs[id := jobs[id].(payload := jobs[id].payload + updates)] else jobs
  }

  // -------------------------------------------------------------------------------------------
  // Resources in use

  function BusyResources(jobs: seq<Job>): set<Resource> {
    set i, r | 0 <= i < |jobs| && jobs[i].status.Running? && r in JobResources(jobs[i]) :: r
  }

  /** Running jobs hold pairwise disjoint resources. */
  ghost predicate Exclusive(jobs: seq<Job>) {
    forall i, j :: 0 <= i < j < |jobs| && jobs[i].status.Running? && jobs[j].status.Running?
                   ==> JobResources(jobs[i]) !! JobResources(jobs[j])
  }

  /** Only row `id` differs, and it is the same job: type, key, order of claim, attempts and resources. */
  ghost predicate SameJobAt(before: seq<Job>, after: seq<Job>, id: nat) {
    && |after| == |before|
    && (forall i :: 0 <= i < |before| && i != id ==> after[i] == before[i])
    && (id < |before| ==>
          && after[id].jobType == before[id].jobType && after[id].key == before[id].key
          && after[id].priority == before[id].priority && after[id].scheduledAt == before[id].scheduledAt
          && after[id].attempts == before[id].attempts && after[id].maxAttempts == before[id].maxAttempts
          && JobResources(after[id]) == JobResources(before[id]))
  }

  /** Starting a job adds exactly its resources to those in use, and keeps exclusion if they were free. */
  lemma StartingOccupies(jobs: seq<Job>, id: nat, worker: nat)
    requires IsPendingAt(jobs, id)
    ensures BusyResources(Claimed(jobs, id, worker)) == BusyResources(jobs) + JobResources(jobs[id])
    ensures Exclusive(jobs) && JobResources(jobs[id]) !! BusyResources(jobs) ==> Exclusive(Claimed(jobs, id, worker))
  {
    var after := Claimed(jobs, id, worker);
    forall r | r in BusyResources(jobs)
      ensures r in BusyResources(after)
    {
      var i :| 0 <= i < |jobs| && jobs[i].status.Running? && r in JobResources(jobs[i]);
      assert after[i] == jobs[i];
    }
    forall r | r in JobResources(jobs[id])
      ensures r in BusyResources(after)
    {
      assert after[id].status.Running? && r in JobResources(after[id]);
    }
    forall r | r in BusyResources(after)
      ensures r in BusyResources(jobs) + JobResources(jobs[id])
    {
      var i :| 0 <= i < |after| && after[i].status.Running? && r in JobResources(after[i]);
      assert i != id ==> after[i] == jobs[i];
    }
    PickedIsCompatible(jobs, id);
  }

  lemma PickedIsCompatible(jobs: seq<Job>, id: nat)
    requires id < |jobs|
    ensures JobResources(jobs[id]) !! BusyResources(jobs)
            <==> forall i :: 0 <= i < |jobs| && jobs[i].status.Running? ==> JobResources(jobs[i]) !! JobResources(jobs[id])
  {
    forall i, r | 0 <= i < |jobs| && jobs[i].status.Running? && r in JobResources(jobs[i])
      ensures r in BusyResources(jobs)
    {
    }
  }

  /** A running job that ends frees exactly its resources. */
  lemma EndingFrees(jobs: seq<Job>, id: nat, ended: Job)
    requires id < |jobs| && jobs[id].status.Running? && !ended.status.Running? && Exclusive(jobs)
    ensures BusyResources(jobs[id := ended]) == BusyResources(jobs) - JobResources(jobs[id])
    ensures Exclusive(jobs[id := ended])
  {
    var after := jobs[id := ended];
    forall r | r in BusyResources(after)
      ensures r in BusyResources(jobs) - JobResources(jobs[id])
    {
      var i :| 0 <= i < |after| && after[i].status.Running? && r in JobResources(after[i]);
      assert jobs[i] == after[i] && i != id;
      assert JobResources(jobs[i]) !! JobResources(jobs[id]);
    }
    forall r | r in BusyResources(jobs) - JobResources(jobs[id])
      ensures r in BusyResources(after)
    {
      var i :| 0 <= i < |jobs| && jobs[i].status.Running? && r in JobResources(jobs[i]);
      assert after[i] == jobs[i];
    }
  }

  /** A row that keeps its status and its resources leaves those in use as they are. */
  lemma SameResourcesInUse(jobs: seq<Job>, id: nat, job: Job)
    requires id < |jobs| && job.status == jobs[id].status && JobResources(job) == JobResources(jobs[id])
    ensures BusyResources(jobs[id := job]) == BusyResources(jobs)
    ensures Exclusive(jobs) ==> Exclusive(jobs[id := job])
  {
    var after := jobs[id := job];
    forall r | r in BusyResources(jobs)
      ensures r in BusyResources(after)
    {
      var i :| 0 <= i < |jobs| && jobs[i].status.Running? && r in JobResources(jobs[i]);
      assert after[i].status.Running? && r in JobResources(after[i]);
    }
    forall r | r in BusyResources(after)
      ensures r in BusyResources(jobs)
    {
      var i :| 0 <= i < |after| && after[i].status.Running? && r in JobResources(after[i]);
      assert jobs[i].status.Running? && r in JobResources(jobs[i]);
    }
  }

  lemma CompletedKeepsResources(job: Job, result: Option<PayloadValue>)
    ensures JobResources(CompletedWith(job, result)) == JobResources(job)
  {
    if result.Some? {
      MergeKeepsResources(job.jobType, job.payload, map[ResultEntry := result.value]);
      assert job.payload + map[ResultEntry := result.value] == job.payload[ResultEntry := result.value];
    }
  }

  // -------------------------------------------------------------------------------------------
  // Choosing the job to claim

  function Rank(priority: Priority): nat {
    match priority
    case High => 3
    case Normal => 2
    case Low => 1
  }

  /** The claim order: priority, then due time, then age. */
  predicate Precedes(jobs: seq<Job>, i: nat, j: nat)
    requires i < |jobs| && j < |jobs|
  {
    var a, b := jobs[i], jobs[j];
    || Rank(a.priority) > Rank(b.priority)
    || (Rank(a.priority) == Rank(b.priority)
        && (a.scheduledAt < b.scheduledAt || (a.scheduledAt == b.scheduledAt && i < j)))
  }

  /** High before normal before low. */
  predicate IsHigher(a: Priority, b: Priority) {
    match (a, b)
    case (High, Normal) => true
    case (High, Low) => true
    case (Normal, Low) => true
    case _ => false
  }

  /** The claim order told from the priorities. */
  lemma ClaimOrderIs(jobs: seq<Job>, i: nat, j: nat)
    requires i < |jobs| && j < |jobs|
    ensures Precedes(jobs, i, j)
            == (|| IsHigher(jobs[i].priority, jobs[j].priority)
                || (jobs[i].priority == jobs[j].priority && jobs[i].scheduledAt < jobs[j].scheduledAt)
                || (jobs[i].priority == jobs[j].priority && jobs[i].scheduledAt == jobs[j].scheduledAt && i < j))
  {
  }

  /** Of two different jobs exactly one precedes the other, and the order is transitive. */
  lemma ClaimOrderIsTotal(jobs: seq<Job>, i: nat, j: nat, k: nat)
    requires i < |jobs| && j < |jobs| && k < |jobs|
    ensures i != j ==> Precedes(jobs, i, j) != Precedes(jobs, j, i)
    ensures !Precedes(jobs, i, i)
    ensures Precedes(jobs, i, j) && Precedes(jobs, j, k) ==> Precedes(jobs, i, k)
  {
  }

  /** A pending job that is due and of an allowed type. */
  predicate IsDue(job: Job, now: int, allowed: Option<set<JobType>>) {
    job.status.Pending? && job.scheduledAt <= now && (allowed.Some? ==> job.jobType in allowed.value)
  }

  predicate IsClaimable(jobs: seq<Job>, id: nat, now: int, allowed: Option<set<JobType>>)
    requires id < |jobs|
  {
    IsDue(jobs[id], now, allowed) && JobResources(jobs[id]) !! BusyResources(jobs)
  }

  /** A claimable job before every other one in claim order. */
  predicate IsFirstClaimable(jobs: seq<Job>, id: nat, now: int, allowed: Option<set<JobType>>) {
    && id < |jobs| && IsClaimable(jobs, id, now, allowed)
    && forall j :: 0 <= j < |jobs| && IsClaimable(jobs, j, now, allowed) ==> j == id || Precedes(jobs, id, j)
  }

  predicate ValidIds(jobs: seq<Job>, ids: seq<nat>) {
    forall k :: 0 <= k < |ids| ==> ids[k] < |jobs|
  }

  /** `id` precedes every job of a list. */
  ghost predicate PrecedesAll(jobs: seq<Job>, id: nat, ids: seq<nat>)
    requires ValidIds(jobs, ids) && id < |jobs|
  {
    forall x :: x in ids ==> Precedes(jobs, id, x)
  }

  ghost predicate IsOrdered(jobs: seq<Job>, ids: seq<nat>)
    requires ValidIds(jobs, ids)
  {
    ids != [] ==> PrecedesAll(jobs, ids[0], ids[1..]) && IsOrdered(jobs, ids[1..])
  }

  function InsertById(jobs: seq<Job>, ids: seq<nat>, id: nat): (result: seq<nat>)
    requires ValidIds(jobs, ids) && id < |jobs|
    ensures ValidIds(jobs, result)
    ensures forall x: nat :: x in result <==> x == id || x in ids
  {
    if ids == [] || Precedes(jobs, id, ids[0]) then [id] + ids
    else [ids[0]] + InsertById(jobs, ids[1..], id)
  }

  lemma {:induction false} InsertKeepsOrder(jobs: seq<Job>, ids: seq<nat>, id: nat)
    requires ValidIds(jobs, ids) && id < |jobs| && id !in ids && IsOrdered(jobs, ids)
    ensures IsOrdered(jobs, InsertById(jobs, ids, id))
  {
    if ids != [] {
      if Precedes(jobs, id, ids[0]) {
        assert ids == [ids[0]] + ids[1..];
        assert ([id] + ids)[1..] == ids;
      } else {
        var rest := InsertById(jobs, ids[1..], id);
        InsertKeepsOrder(jobs, ids[1..], id);
        assert ([ids[0]] + rest)[1..] == rest;
      }
    }
  }

  /** The due jobs among the first `upTo` rows, in claim order. */
  function DueInOrder(jobs: seq<Job>, upTo: nat, now: int, allowed: Option<set<JobType>>): (ids: seq<nat>)
    requires upTo <= |jobs|
    ensures ValidIds(jobs, ids)
    ensures forall x: nat :: x in ids <==> x < upTo && IsDue(jobs[x], now, allowed)
  {
    if upTo == 0 then []
    else
      var before := DueInOrder(jobs, upTo - 1, now, allowed);
      if IsDue(jobs[upTo - 1], now, allowed) then InsertById(jobs, before, upTo - 1) else before
  }

  lemma {:induction false} DueIsOrdered(jobs: seq<Job>, upTo: nat, now: int, allowed: Option<set<JobType>>)
    requires upTo <= |jobs|
    ensures IsOrdered(jobs, DueInOrder(jobs, upTo, now, allowed))
  {
    if upTo > 0 {
      DueIsOrdered(jobs, upTo - 1, now, allowed);
      DueStep(jobs, upTo - 1, now, allowed);
    }
  }

  lemma DueStep(jobs: seq<Job>, last: nat, now: int, allowed: Option<set<JobType>>)
    requires last < |jobs| && IsOrdered(jobs, DueInOrder(jobs, last, now, allowed))
    ensures IsOrdered(jobs, DueInOrder(jobs, last + 1, now, allowed))
  {
    var before := DueInOrder(jobs, last, now, allowed);
    assert last !in before;
    InsertKeepsOrder(jobs, before, last);
  }

  function FirstCompatible(jobs: seq<Job>, ids: seq<nat>, busy: set<Resource>): Option<nat>
    requires ValidIds(jobs, ids)
  {
    if ids == [] then None
    else if JobResources(jobs[ids[0]]) !! busy then Some(ids[0])
    else FirstCompatible(jobs, ids[1..], busy)
  }

  /** The job the read phase of a claim picks. */
  function Candidate(jobs: seq<Job>, now: int, allowed: Option<set<JobType>>): Option<nat> {
    FirstCompatible(jobs, DueInOrder(jobs, |jobs|, now, allowed), BusyResources(jobs))
  }

  lemma {:induction false} FirstCompatibleIsFirst(jobs: seq<Job>, ids: seq<nat>, busy: set<Resource>)
    requires ValidIds(jobs, ids) && IsOrdered(jobs, ids)
    ensures match FirstCompatible(jobs, ids, busy)
            case None => forall x :: x in ids ==> !(JobResources(jobs[x]) !! busy)
            case Some(id) =>
              && id in ids && JobResources(jobs[id]) !! busy
              && forall x :: x in ids && JobResources(jobs[x]) !! busy ==> x == id || Precedes(jobs, id, x)
  {
    if ids != [] && !(JobResources(jobs[ids[0]]) !! busy) {
      FirstCompatibleIsFirst(jobs, ids[1..], busy);
    }
  }

  /**
   The read phase is optimal and work-conserving: it picks the first claimable job in claim order,
   and picks none only when no job is claimable.
   */
  lemma CandidateIsOptimal(jobs: seq<Job>, now: int, allowed: Option<set<JobType>>)
    ensures match Candidate(jobs, now, allowed)
            case None => forall j :: 0 <= j < |jobs| ==> !IsClaimable(jobs, j, now, allowed)
            case Some(id) => IsFirstClaimable(jobs, id, now, allowed)
  {
    DueIsOrdered(jobs, |jobs|, now, allowed);
    FirstCompatibleIsFirst(jobs, DueInOrder(jobs, |jobs|, now, allowed), BusyResources(jobs));
  }

  /** The job can run now: pending, due, of an allowed type, and in nobody's way. */
  ghost predicate MayRun(jobs: seq<Job>, id: nat, now: int, allowed: Option<set<JobType>>)
    requires id < |jobs|
  {
    && jobs[id].status == Pending && jobs[id].scheduledAt <= now
    && (allowed.None? || jobs[id].jobType in allowed.value)
    && forall i :: 0 <= i < |jobs| && jobs[i].status == Running ==>
         !Clash(jobs[i].jobType, jobs[i].payload, jobs[id].jobType, jobs[id].payload)
  }

  lemma ClaimableMayRun(jobs: seq<Job>, id: nat, now: int, allowed: Option<set<JobType>>)
    requires id < |jobs|
    ensures IsClaimable(jobs, id, now, allowed) == MayRun(jobs, id, now, allowed)
  {
    PickedIsCompatible(jobs, id);
    forall i | 0 <= i < |jobs|
      ensures JobResources(jobs[i]) !! JobResources(jobs[id])
              <==> !Clash(jobs[i].jobType, jobs[i].payload, jobs[id].jobType, jobs[id].payload)
    {
      ResourcesMeetExactlyOnClash(jobs[i].jobType, jobs[i].payload, jobs[id].jobType, jobs[id].payload);
    }
  }

  /** The candidate can run now, and whatever else can has a lower priority, or is due later, or is younger. */
  lemma CandidateIsNext(jobs: seq<Job>, now: int, allowed: Option<set<JobType>>, j: nat)
    requires j < |jobs| && MayRun(jobs, j, now, allowed)
    ensures match Candidate(jobs, now, allowed)
            case None => false
            case Some(id) =>
              && id < |jobs| && MayRun(jobs, id, now, allowed)
              && (|| id == j || IsHigher(jobs[id].priority, jobs[j].priority)
                  || (jobs[id].priority == jobs[j].priority
                      && (|| jobs[id].scheduledAt < jobs[j].scheduledAt
                          || (jobs[id].scheduledAt == jobs[j].scheduledAt && id < j))))
  {
    CandidateIsOptimal(jobs, now, allowed);
    ClaimableMayRun(jobs, j, now, allowed);
    var id := Candidate(jobs, now, allowed).value;
    ClaimableMayRun(jobs, id, now, allowed);
    ClaimOrderIs(jobs, id, j);
  }

  /** Without a candidate no job can run now, and a candidate always can. */
  lemma CandidateMayRun(jobs: seq<Job>, now: int, allowed: Option<set<JobType>>)
    ensures match Candidate(jobs, now, allowed)
            case None => forall j :: 0 <= j < |jobs| ==> !MayRun(jobs, j, now, allowed)
            case Some(id) => id < |jobs| && MayRun(jobs, id, now, allowed)
  {
    CandidateIsOptimal(jobs, now, allowed);
    forall j | 0 <= j < |jobs|
      ensures IsClaimable(jobs, j, now, allowed) == MayRun(jobs, j, now, allowed)
    {
      ClaimableMayRun(jobs, j, now, allowed);
    }
  }

  // -------------------------------------------------------------------------------------------
  // Enqueueing, told from the rows

  /** An active job that an enqueue does not replace: a running one, or a pending one that is to stay. */
  predicate IsInTheWay(job: Job, args: Enqueue) {
    job.key == args.key && (job.status == Running || (job.status == Pending && !args.replacePending))
  }

  /** An enqueue is skipped exactly when it may be and an active job with its key stays. */
  lemma SkippedExactly(jobs: seq<Job>, args: Enqueue)
    ensures IsSkipped(jobs, args)
            <==> args.skipIfActive && args.key.Some?
                 && exists i :: 0 <= i < |jobs| && IsInTheWay(jobs[i], args)
  {
    if args.key.Some? {
      forall i | 0 <= i < |jobs|
        ensures IsInTheWay(jobs[i], args)
                == (Replaced(jobs, args)[i].key == args.key && IsActive(Replaced(jobs, args)[i]))
      {
      }
      if i :| 0 <= i < |jobs| && IsInTheWay(jobs[i], args) {
        assert HasActive(Replaced(jobs, args), args.key.value);
      }
    }
  }

  /** Otherwise one pending job is added, and the pending ones it replaces are canceled. */
  lemma EnqueuedRows(jobs: seq<Job>, args: Enqueue, i: nat)
    requires !IsSkipped(jobs, args) && i <= |jobs|
    ensures |Enqueued(jobs, args)| == |jobs| + 1
    ensures Enqueued(jobs, args)[i]
            == if i == |jobs| then
                 Job(args.jobType, Pending, args.payload, args.key, args.priority, args.scheduledAt,
                     0, args.maxAttempts, None)
               else if args.replacePending && args.key.Some? && jobs[i].key == args.key && jobs[i].status == Pending then
                 jobs[i].(status := Canceled)
               else jobs[i]
  {
  }

  /** The ids below `bound` of the pending jobs with a dedupe key. */
  ghost function PendingIds(jobs: seq<Job>, key: DedupeKey, bound: nat): set<nat>
    requires bound <= |jobs|
  {
    set i: nat | i < bound && jobs[i].key == Some(key) && jobs[i].status == Pending
  }

  lemma OneMorePending(jobs: seq<Job>, key: DedupeKey, last: nat)
    requires last < |jobs|
    ensures PendingIds(jobs, key, last + 1)
            == PendingIds(jobs, key, last)
               + if jobs[last].key == Some(key) && jobs[last].status == Pending then {last} else {}
    ensures last !in PendingIds(jobs, key, last)
  {
  }

  /** The count of a cancellation is the number of its rows. */
  lemma {:induction false} CountIsSize(jobs: seq<Job>, key: DedupeKey, bound: nat)
    requires bound <= |jobs|
    ensures CountPending(jobs, key, bound) == |PendingIds(jobs, key, bound)|
  {
    if bound > 0 {
      CountIsSize(jobs, key, bound - 1);
      OneMorePending(jobs, key, bound - 1);
    }
  }

  // -------------------------------------------------------------------------------------------
  // The table

  class JobTable {
    var jobs: seq<Job>

    constructor ()
      ensures jobs == []
    {
      jobs := [];
    }

    method CancelPendingByKey(key: DedupeKey) returns (count: nat)
      modifies this
      ensures jobs == CancelPending(old(jobs), key)
      ensures count == CountPending(old(jobs), key, |old(jobs)|)
    {
      ghost var before := jobs;
      count := 0;
      var i := 0;
      while i < |jobs|
        invariant 0 <= i <= |jobs| == |before|
        invariant forall k :: 0 <= k < i ==> jobs[k] == CanceledIf(before[k], key)
        invariant forall k :: i <= k < |jobs| ==> jobs[k] == before[k]
        invariant count == CountPending(before, key, i)
      {
        if jobs[i].key == Some(key) && jobs[i].status.Pending? {
          jobs := jobs[i := jobs[i].(status := Canceled)];
          count := count + 1;
        }
        i := i + 1;
      }
    }

    method EnqueueJob(args: Enqueue) returns (id: Option<nat>)
      modifies this
      ensures jobs == Enqueued(old(jobs), args)
      ensures id == if IsSkipped(old(jobs), args) then None else Some(|old(jobs)|)
    {
      var stored := jobs;
      if args.replacePending && args.key.Some? {
        var _ := CancelPendingByKey(args.key.value);
      }
      if args.skipIfActive && args.key.Some? {
        var i := 0;
        while i < |jobs|
          invariant 0 <= i <= |jobs|
          invariant jobs == Replaced(stored, args)
          invariant forall k :: 0 <= k < i ==> !(jobs[k].key == args.key && IsActive(jobs[k]))
        {
          if jobs[i].key == args.key && IsActive(jobs[i]) {
            assert HasActive(Replaced(stored, args), args.key.value);
            jobs := stored;
            return None;
          }
          i := i + 1;
        }
      }
      jobs := jobs + [NewJob(args)];
      return Some(|jobs| - 1);
    }

    method ResetStaleJobs()
      modifies this
      ensures jobs == ResetStale(old(jobs))
    {
      ghost var before := jobs;
      var i := 0;
      while i < |jobs|
        invariant 0 <= i <= |jobs| == |before|
        invariant forall k :: 0 <= k < i ==> jobs[k] == FailedIfRunning(before[k])
        invariant forall k :: i <= k < |jobs| ==> jobs[k] == before[k]
      {
        if jobs[i].status.Running? {
          jobs := jobs[i := jobs[i].(status := Failed)];
        }
        i := i + 1;
      }
    }

    /** The read phase of a claim: busy resources first, then the due jobs in claim order. */
    method FindCandidate(now: int, allowed: Option<set<JobType>>) returns (candidate: Option<nat>)
      ensures candidate == Candidate(jobs, now, allowed)
    {
      var busy := BusyResources(jobs);
      var due := DueInOrder(jobs, |jobs|, now, allowed);
      var k := 0;
      while k < |due|
        invariant 0 <= k <= |due|
        invariant FirstCompatible(jobs, due, busy) == FirstCompatible(jobs, due[k..], busy)
      {
        assert due[k..][1..] == due[k + 1..];
        if JobResources(jobs[due[k]]) !! busy {
          return Some(due[k]);
        }
        k := k + 1;
      }
      return None;
    }

    /** The commit phase of a claim: it starts the job exactly when it is still pending. */
    method CommitClaim(id: nat, worker: nat) returns (claimed: bool)
      modifies this
      ensures jobs == Claimed(old(jobs), id, worker)
      ensures claimed <==> IsPendingAt(old(jobs), id)
      ensures !claimed ==> jobs == old(jobs)
      ensures claimed ==>
                && jobs[id].status.Running? && jobs[id].claimedBy == Some(worker)
                && jobs[id].attempts == old(jobs)[id].attempts + 1
                && BusyResources(jobs) == BusyResources(old(jobs)) + JobResources(old(jobs)[id])
                && (Exclusive(old(jobs)) && JobResources(old(jobs)[id]) !! BusyResources(old(jobs)) ==> Exclusive(jobs))
    {
      claimed := id < |jobs| && jobs[id].status.Pending?;
      if claimed {
        StartingOccupies(jobs, id, worker);
        jobs := jobs[id := StartedBy(jobs[id], worker)];
      }
    }

    /**
     A whole claim. The lock keeps other claims out, but `others` may change the table between its two
     phases. The read picks the first claimable job in claim order, and none only when no job is
     claimable; the commit starts that job unless it is no longer pending.
     */
    method ClaimNext(worker: nat, now: int, allowed: Option<set<JobType>>, others: seq<Job> -> seq<Job>)
      returns (claimed: Option<nat>)
      modifies this
      ensures match Candidate(old(jobs), now, allowed)
              case None =>
                && claimed.None? && jobs == old(jobs)
                && forall j :: 0 <= j < |jobs| ==> !IsClaimable(jobs, j, now, allowed)
              case Some(id) =>
                && IsFirstClaimable(old(jobs), id, now, allowed)
                && claimed == (if IsPendingAt(others(old(jobs)), id) then Some(id) else None)
                && jobs == Claimed(others(old(jobs)), id, worker)
    {
      CandidateIsOptimal(jobs, now, allowed);
      var candidate := FindCandidate(now, allowed);
      if candidate.None? {
        return None;
      }
      jobs := others(jobs);
      var started := CommitClaim(candidate.value, worker);
      claimed := if started then candidate else None;
    }

    /** Completing checks no status: the worker protocol is what keeps it to running jobs. */
    method Complete(id: nat, result: Option<PayloadValue>)
      modifies this
      ensures jobs == WithCompleted(old(jobs), id, result)
      ensures SameJobAt(old(jobs), jobs, id)
      ensures IsRowAt(old(jobs), id) ==> jobs[id].status.Completed?
      ensures !IsRowAt(old(jobs), id) ==> jobs == old(jobs)
      ensures IsRunningAt(old(jobs), id) && Exclusive(old(jobs)) ==>
                Exclusive(jobs) && BusyResources(jobs) == BusyResources(old(jobs)) - JobResources(old(jobs)[id])
    {
      if id < |jobs| && !jobs[id].status.Deleted? {
        CompletedKeepsResources(jobs[id], result);
        if jobs[id].status.Running? && Exclusive(jobs) {
          EndingFrees(jobs, id, CompletedWith(jobs[id], result));
        }
        var payload := jobs[id].payload;
        if result.Some? {
          payload := payload[ResultEntry := result.value];
        }
        jobs := jobs[id := jobs[id].(status := Completed, payload := payload)];
      }
    }

    method Fail(id: nat)
      modifies this
      ensures jobs == WithFailed(old(jobs), id)
      ensures SameJobAt(old(jobs), jobs, id)
      ensures IsRowAt(old(jobs), id) ==> jobs[id].status.Failed? && jobs[id].payload == old(jobs)[id].payload
      ensures !IsRowAt(old(jobs), id) ==> jobs == old(jobs)
      ensures IsRunningAt(old(jobs), id) && Exclusive(old(jobs)) ==>
                Exclusive(jobs) && BusyResources(jobs) == BusyResources(old(jobs)) - JobResources(old(jobs)[id])
    {
      if id < |jobs| && !jobs[id].status.Deleted? {
        if jobs[id].status.Running? && Exclusive(jobs) {
          EndingFrees(jobs, id, jobs[id].(status := Failed));
        }
        jobs := jobs[id := jobs[id].(status := Failed)];
      }
    }

    method UpdatePayload(id: nat, updates: Payload)
      modifies this
      ensures jobs == WithUpdates(old(jobs), id, updates)
      ensures id < |jobs| ==> jobs[id].status == old(jobs)[id].status
      ensures !IsRowAt(old(jobs), id) ==> jobs == old(jobs)
      ensures id < |jobs| && LeavesResourcesAlone(jobs[id].jobType, updates) ==>
                && SameJobAt(old(jobs), jobs, id) && BusyResources(jobs) == BusyResources(old(jobs))
                && (Exclusive(old(jobs)) ==> Exclusive(jobs))
    {
      if id < |jobs| && !jobs[id].status.Deleted? {
        if LeavesResourcesAlone(jobs[id].jobType, updates) {
          MergeKeepsResources(jobs[id].jobType, jobs[id].payload, updates);
          SameResourcesInUse(jobs, id, jobs[id].(payload := jobs[id].payload + updates));
        }
        jobs := jobs[id := jobs[id].(payload := jobs[id].payload + updates)];
      }
    }
  }

  // -------------------------------------------------------------------------------------------
  // Trimming old rows

  /** House-keeping keeps the newest rows and deletes the others, whatever their status. */
  function Trimmed(jobs: seq<Job>, keepRecent: nat): (result: seq<Job>)
    ensures |result| == |jobs|
    ensures forall i :: 0 <= i < |jobs| ==>
              result[i] == if i < |jobs| - keepRecent then jobs[i].(status := Deleted) else jobs[i]
  {
    seq(|jobs|, i requires 0 <= i < |jobs| =>
      if i < |jobs| - keepRecent then jobs[i].(status := Deleted) else jobs[i])
  }

  /** Trimming forgets no resource in use exactly when it deletes no running job. */
  lemma TrimForgetsExactly(jobs: seq<Job>, keepRecent: nat)
    requires Exclusive(jobs)
    ensures Exclusive(Trimmed(jobs, keepRecent))
    ensures BusyResources(Trimmed(jobs, keepRecent)) == BusyResources(jobs)
            <==> forall i :: 0 <= i < |jobs| - keepRecent ==> !jobs[i].status.Running?
  {
    var after := Trimmed(jobs, keepRecent);
    if i :| 0 <= i < |jobs| - keepRecent && i < |jobs| && jobs[i].status.Running? {
      DeletedRowForgets(jobs, keepRecent, i);
    } else {
      forall r | r in BusyResources(jobs)
        ensures r in BusyResources(after)
      {
        var i :| 0 <= i < |jobs| && jobs[i].status.Running? && r in JobResources(jobs[i]);
        assert after[i] == jobs[i];
      }
      forall r | r in BusyResources(after)
        ensures r in BusyResources(jobs)
      {
        var i :| 0 <= i < |after| && after[i].status.Running? && r in JobResources(after[i]);
        assert after[i] == jobs[i];
      }
    }
  }

  lemma DeletedRowForgets(jobs: seq<Job>, keepRecent: nat, i: nat)
    requires Exclusive(jobs) && i < |jobs| && i < |jobs| - keepRecent && jobs[i].status.Running?
    ensures BusyResources(Trimmed(jobs, keepRecent)) != BusyResources(jobs)
  {
    var after := Trimmed(jobs, keepRecent);
    EveryJobHoldsSomething(jobs[i].jobType, jobs[i].payload);
    var r :| r in JobResources(jobs[i]);
    assert r in BusyResources(jobs);
    forall k | 0 <= k < |after| && after[k].status.Running?
      ensures r !in JobResources(after[k])
    {
      assert after[k] == jobs[k] && k > i;
      assert JobResources(jobs[i]) !! JobResources(jobs[k]);
    }
  }
}
