/** Which exclusive resources a background job holds while it runs, and how runs are deduplicated. */
module JobPolicy {
  import opened Basics

  datatype JobType = ServiceToggle | TaskRun | CandidateFileOp | WebhookDelivery | DuplicateDelete

  datatype Task =
    | SyncMedia | ResyncMedia | SyncMediaLibraries | SyncLinkedData
    | ScanCleanupCandidates | TagCleanupCandidates | DeleteCleanupCandidates
    | WeeklyHouseKeeping | BackupDatabase
    | CheckAppUpdates | ImdbRatingsRefresh | AnilistRatingsRefresh | MdblistRatingsRefresh | OmdbRatingsRefresh
    | RefreshPlaybackHistory | ScanUpgradeLeftovers

  /** The entries of a job payload; only `task` and `endpoint_id` decide resources. */
  datatype PayloadKey = TaskEntry | EndpointEntry | ProgressEntry | ResultEntry | OtherEntry(name: string)

  /** `TaskText` is a text that names a task; any other text is `OtherValue`. */
  datatype PayloadValue = TaskText(task: Task) | IntValue(number: int) | OtherValue(tag: int)

  type Payload = map<PayloadKey, PayloadValue>

  datatype Resource =
    | TaskRunResource | ServiceRuntime | CandidateWorkflow | LegacyWebhook | WebhookEndpoint(endpoint: int)

  predicate UsesServiceRuntime(task: Task) {
    task.SyncMedia? || task.ResyncMedia? || task.SyncMediaLibraries? || task.SyncLinkedData?
    || task.RefreshPlaybackHistory? || UsesCandidateWorkflow(task)
  }

  predicate UsesCandidateWorkflow(task: Task) {
    task.ScanCleanupCandidates? || task.TagCleanupCandidates? || task.DeleteCleanupCandidates?
  }

  /** The exclusive resources of a job. */
  function Resources(jobType: JobType, payload: Payload): set<Resource> {
    match jobType
    case TaskRun =>
      if TaskEntry in payload && payload[TaskEntry].TaskText? then
        var task := payload[TaskEntry].task;
        {TaskRunResource}
        + (if UsesServiceRuntime(task) then {ServiceRuntime} else {})
        + (if UsesCandidateWorkflow(task) then {CandidateWorkflow} else {})
      else {TaskRunResource}
    case ServiceToggle => {ServiceRuntime}
    case CandidateFileOp => {CandidateWorkflow, ServiceRuntime}
    case DuplicateDelete => {CandidateWorkflow, ServiceRuntime}
    case WebhookDelivery =>
      if EndpointEntry in payload && payload[EndpointEntry].IntValue? && payload[EndpointEntry].number > 0 then
        {WebhookEndpoint(payload[EndpointEntry].number)}
      else {LegacyWebhook}
  }

  /** The task a payload names, if any. */
  function TaskOf(payload: Payload): Option<Task> {
    if TaskEntry in payload && payload[TaskEntry].TaskText? then Some(payload[TaskEntry].task) else None
  }

  /** The tasks that go through the cleanup candidates, one by one. */
  predicate WorksOnCandidates(task: Task) {
    match task
    case ScanCleanupCandidates | TagCleanupCandidates | DeleteCleanupCandidates => true
    case _ => false
  }

  /** The tasks that work on the media services, one by one. */
  predicate WorksOnServices(task: Task) {
    match task
    case SyncMedia | ResyncMedia | SyncMediaLibraries | SyncLinkedData | RefreshPlaybackHistory => true
    case ScanCleanupCandidates | TagCleanupCandidates | DeleteCleanupCandidates => true
    case _ => false
  }

  /** Jobs that work on the media services: file operations, service toggles and some known tasks. */
  predicate TouchesServices(jobType: JobType, payload: Payload) {
    match jobType
    case CandidateFileOp | DuplicateDelete | ServiceToggle => true
    case TaskRun => TaskOf(payload).Some? && WorksOnServices(TaskOf(payload).value)
    case WebhookDelivery => false
  }

  /** Jobs that go through the cleanup candidates. */
  predicate TouchesCandidates(jobType: JobType, payload: Payload) {
    match jobType
    case CandidateFileOp | DuplicateDelete => true
    case TaskRun => TaskOf(payload).Some? && WorksOnCandidates(TaskOf(payload).value)
    case ServiceToggle | WebhookDelivery => false
  }

  /** The endpoint a delivery names, if any. */
  function EndpointOf(payload: Payload): Option<int> {
    if EndpointEntry in payload && payload[EndpointEntry].IntValue? && payload[EndpointEntry].number > 0 then
      Some(payload[EndpointEntry].number)
    else None
  }

  /** Jobs that must not run side by side, said without resources. */
  predicate Clash(typeA: JobType, payloadA: Payload, typeB: JobType, payloadB: Payload) {
    || (typeA.TaskRun? && typeB.TaskRun?)
    || (TouchesServices(typeA, payloadA) && TouchesServices(typeB, payloadB))
    || (typeA.WebhookDelivery? && typeB.WebhookDelivery? && EndpointOf(payloadA) == EndpointOf(payloadB))
  }

  /** Who holds each resource, told from the type of the job and the task or endpoint it names. */
  lemma WhoHolds(jobType: JobType, payload: Payload)
    ensures TaskRunResource in Resources(jobType, payload) <==> jobType.TaskRun?
    ensures ServiceRuntime in Resources(jobType, payload) <==> TouchesServices(jobType, payload)
    ensures CandidateWorkflow in Resources(jobType, payload) <==> TouchesCandidates(jobType, payload)
    ensures LegacyWebhook in Resources(jobType, payload) <==> jobType.WebhookDelivery? && EndpointOf(payload).None?
    ensures forall e :: WebhookEndpoint(e) in Resources(jobType, payload)
                        <==> jobType.WebhookDelivery? && EndpointOf(payload) == Some(e)
  {
  }

  /** Eight tasks hold the service runtime, and three of them the candidate workflow. */
  lemma TasksHold(payload: Payload)
    ensures ServiceRuntime in Resources(TaskRun, payload)
            <==> TaskOf(payload) in {Some(SyncMedia), Some(ResyncMedia), Some(SyncMediaLibraries), Some(SyncLinkedData),
                                     Some(RefreshPlaybackHistory), Some(ScanCleanupCandidates),
                                     Some(TagCleanupCandidates), Some(DeleteCleanupCandidates)}
    ensures CandidateWorkflow in Resources(TaskRun, payload)
            <==> TaskOf(payload) in {Some(ScanCleanupCandidates), Some(TagCleanupCandidates),
                                     Some(DeleteCleanupCandidates)}
  {
  }

  /** A delivery holds the endpoint it names by a positive number, and without one the shared resource. */
  lemma DeliveriesHold(payload: Payload, endpoint: int)
    ensures WebhookEndpoint(endpoint) in Resources(WebhookDelivery, payload)
            <==> endpoint >= 1 && EndpointEntry in payload && payload[EndpointEntry] == IntValue(endpoint)
    ensures LegacyWebhook in Resources(WebhookDelivery, payload)
            <==> forall e {:trigger IntValue(e)} :: e >= 1 && EndpointEntry in payload ==> payload[EndpointEntry] != IntValue(e)
  {
    if EndpointEntry in payload && payload[EndpointEntry].IntValue? {
      assert payload[EndpointEntry] == IntValue(payload[EndpointEntry].number);
    }
  }

  /**
   Two jobs have a resource in common exactly when they clash. The candidate workflow decides nothing:
   whoever holds it holds the service runtime too.
   */
  lemma ResourcesMeetExactlyOnClash(typeA: JobType, payloadA: Payload, typeB: JobType, payloadB: Payload)
    ensures Resources(typeA, payloadA) !! Resources(typeB, payloadB) <==> !Clash(typeA, payloadA, typeB, payloadB)
  {
    var a, b := Resources(typeA, payloadA), Resources(typeB, payloadB);
    WhoHolds(typeA, payloadA);
    WhoHolds(typeB, payloadB);
    if Clash(typeA, payloadA, typeB, payloadB) {
      var shared :=
        if typeA.TaskRun? && typeB.TaskRun? then TaskRunResource
        else if TouchesServices(typeA, payloadA) then ServiceRuntime
        else if EndpointOf(payloadA).None? then LegacyWebhook
        else WebhookEndpoint(EndpointOf(payloadA).value);
      assert shared in a && shared in b;
    } else {
      forall r | r in a
        ensures r !in b
      {
      }
    }
  }

  /** The updates have no entry that the resources of such a job are read from. */
  predicate LeavesResourcesAlone(jobType: JobType, updates: Payload) {
    && (jobType.TaskRun? ==> TaskEntry !in updates)
    && (jobType.WebhookDelivery? ==> EndpointEntry !in updates)
  }

  lemma MergeKeepsResources(jobType: JobType, payload: Payload, updates: Payload)
    requires LeavesResourcesAlone(jobType, updates)
    ensures Resources(jobType, payload + updates) == Resources(jobType, payload)
  {
  }

  lemma EveryJobHoldsSomething(jobType: JobType, payload: Payload)
    ensures Resources(jobType, payload) != {}
  {
    WhoHolds(jobType, payload);
    if jobType.WebhookDelivery? {
      assert EndpointOf(payload).Some? ==> WebhookEndpoint(EndpointOf(payload).value) in Resources(jobType, payload);
    }
  }

  /** A payload whose resources the updates change, when they have such an entry. */
  function PayloadThatChanges(jobType: JobType, updates: Payload): Payload {
    if jobType.TaskRun? then
      var named := Resources(TaskRun, updates);
      if ServiceRuntime in named then map[] else map[TaskEntry := TaskText(SyncMedia)]
    else if EndpointOf(updates).None? then map[EndpointEntry := IntValue(1)]
    else map[]
  }

  /**
   Payload updates change the resources of no job of a type exactly when they have no `task` entry for
   a task run and no `endpoint_id` entry for a delivery.
   */
  lemma UpdatesKeepResources(jobType: JobType, updates: Payload)
    ensures (forall payload: Payload :: Resources(jobType, payload + updates) == Resources(jobType, payload))
            <==> LeavesResourcesAlone(jobType, updates)
  {
    if LeavesResourcesAlone(jobType, updates) {
      forall payload: Payload
        ensures Resources(jobType, payload + updates) == Resources(jobType, payload)
      {
        MergeKeepsResources(jobType, payload, updates);
      }
    } else {
      var payload := PayloadThatChanges(jobType, updates);
      WhoHolds(jobType, updates);
      WhoHolds(jobType, payload);
      WhoHolds(jobType, payload + updates);
      assert Resources(jobType, payload + updates) != Resources(jobType, payload);
    }
  }

  // -------------------------------------------------------------------------------------------
  // Dedupe keys

  /** The dedupe keys the application uses. */
  datatype DedupeKey =
    | TaskKey(task: Task, config: Option<nat>)
    | ToggleKey(service: nat)
    | DeliveryKey(delivery: nat)

  function TaskName(task: Task): string {
    match task
    case SyncMedia => "sync_media"
    case ResyncMedia => "resync_media"
    case SyncMediaLibraries => "sync_media_libraries"
    case SyncLinkedData => "sync_linked_data"
    case ScanCleanupCandidates => "scan_cleanup_candidates"
    case TagCleanupCandidates => "tag_cleanup_candidates"
    case DeleteCleanupCandidates => "delete_cleanup_candidates"
    case WeeklyHouseKeeping => "weekly_house_keeping"
    case BackupDatabase => "backup_database"
    case CheckAppUpdates => "check_app_updates"
    case ImdbRatingsRefresh => "imdb_ratings_refresh"
    case AnilistRatingsRefresh => "anilist_ratings_refresh"
    case MdblistRatingsRefresh => "mdblist_ratings_refresh"
    case OmdbRatingsRefresh => "omdb_ratings_refresh"
    case RefreshPlaybackHistory => "refresh_playback_history"
    case ScanUpgradeLeftovers => "scan_upgrade_leftovers"
  }

  /** The text stored in the `dedupe_key` column. */
  function KeyText(key: DedupeKey): string {
    match key
    case TaskKey(task, None) => "task-run-" + TaskName(task)
    case TaskKey(task, Some(config)) => "task-run-" + (TaskName(task) + ("-config-" + Decimal(config)))
    case ToggleKey(config) => "service-toggle-" + Decimal(config)
    case DeliveryKey(delivery) => "webhook-delivery:" + Decimal(delivery)
  }

  /** Letters and underscores only, so that a task name ends where the first dash stands. */
  predicate IsTaskWord(s: string) {
    '-' !in s
  }

  lemma WorkflowTaskNameIsWord(task: Task)
    requires UsesCandidateWorkflow(task)
    ensures IsTaskWord(TaskName(task))
  {
  }

  lemma SyncTaskNameIsWord(task: Task)
    requires UsesServiceRuntime(task) && !UsesCandidateWorkflow(task)
    ensures IsTaskWord(TaskName(task))
  {
  }

  predicate RefreshesRatings(task: Task) {
    task.ImdbRatingsRefresh? || task.AnilistRatingsRefresh? || task.MdblistRatingsRefresh? || task.OmdbRatingsRefresh?
  }

  lemma RatingsTaskNameIsWord(task: Task)
    requires RefreshesRatings(task)
    ensures IsTaskWord(TaskName(task))
  {
  }

  lemma OtherTaskNameIsWord(task: Task)
    requires !UsesServiceRuntime(task) && !RefreshesRatings(task)
    ensures IsTaskWord(TaskName(task))
  {
  }

  lemma TaskNameIsWord(task: Task)
    ensures IsTaskWord(TaskName(task))
  {
    if UsesCandidateWorkflow(task) {
      WorkflowTaskNameIsWord(task);
    } else if UsesServiceRuntime(task) {
      SyncTaskNameIsWord(task);
    } else if RefreshesRatings(task) {
      RatingsTaskNameIsWord(task);
    } else {
      OtherTaskNameIsWord(task);
    }
  }

  lemma TaskNamesDiffer(a: Task, b: Task)
    requires TaskName(a) == TaskName(b)
    ensures a == b
  {
    assert |TaskName(a)| == |TaskName(b)|;
    assert TaskName(a)[0] == TaskName(b)[0];
  }

  lemma SamePrefix(prefix: string, a: string, b: string)
    requires prefix + a == prefix + b
    ensures a == b
  {
    assert (prefix + a)[|prefix|..] == a;
    assert (prefix + b)[|prefix|..] == b;
  }

  /** A word ends no earlier than any other word the whole text starts with. */
  lemma WordReaches(a: string, restA: string, b: string, restB: string)
    requires IsTaskWord(b)
    requires restA == [] || restA[0] == '-'
    requires a + restA == b + restB
    ensures |b| <= |a|
  {
    var whole := a + restA;
    if |a| < |whole| { assert whole[|a|] == restA[0]; }
    assert forall k :: 0 <= k < |b| ==> whole[k] == b[k] && b[k] in b;
  }

  /** Two words followed by nothing or by a dash are equal when the whole texts are. */
  lemma SameWord(a: string, restA: string, b: string, restB: string)
    requires IsTaskWord(a) && IsTaskWord(b)
    requires restA == [] || restA[0] == '-'
    requires restB == [] || restB[0] == '-'
    requires a + restA == b + restB
    ensures a == b && restA == restB
  {
    WordReaches(a, restA, b, restB);
    WordReaches(b, restB, a, restA);
    assert (a + restA)[..|a|] == a && (b + restB)[..|b|] == b;
    assert (a + restA)[|a|..] == restA && (b + restB)[|b|..] == restB;
  }

  function ConfigSuffix(config: Option<nat>): string {
    match config
    case None => ""
    case Some(id) => "-config-" + Decimal(id)
  }

  lemma TaskKeyText(task: Task, config: Option<nat>)
    ensures KeyText(TaskKey(task, config)) == "task-run-" + (TaskName(task) + ConfigSuffix(config))
  {
    if config.None? { ConcatEmpty(TaskName(task)); }
  }

  lemma TaskKeyTextsDiffer(taskA: Task, configA: Option<nat>, taskB: Task, configB: Option<nat>)
    requires KeyText(TaskKey(taskA, configA)) == KeyText(TaskKey(taskB, configB))
    ensures taskA == taskB && configA == configB
  {
    TaskKeyText(taskA, configA);
    TaskKeyText(taskB, configB);
    SamePrefix("task-run-", TaskName(taskA) + ConfigSuffix(configA), TaskName(taskB) + ConfigSuffix(configB));
    TaskNameIsWord(taskA);
    TaskNameIsWord(taskB);
    SameWord(TaskName(taskA), ConfigSuffix(configA), TaskName(taskB), ConfigSuffix(configB));
    TaskNamesDiffer(taskA, taskB);
    ConfigSuffixesDiffer(configA, configB);
  }

  lemma ConfigSuffixesDiffer(a: Option<nat>, b: Option<nat>)
    requires ConfigSuffix(a) == ConfigSuffix(b)
    ensures a == b
  {
    if a.Some? && b.Some? {
      SamePrefix("-config-", Decimal(a.value), Decimal(b.value));
      assert ParseDecimal(Decimal(a.value)) == ParseDecimal(Decimal(b.value));
    }
  }

  /** Different runs never share a dedupe key, nor do different kinds of jobs. */
  lemma KeyTextIsInjective(a: DedupeKey, b: DedupeKey)
    requires KeyText(a) == KeyText(b)
    ensures a == b
  {
    assert KeyText(a)[0] == KeyText(b)[0];
    match (a, b) {
      case (TaskKey(taskA, configA), TaskKey(taskB, configB)) =>
        TaskKeyTextsDiffer(taskA, configA, taskB, configB);
      case (ToggleKey(configA), ToggleKey(configB)) =>
        SamePrefix("service-toggle-", Decimal(configA), Decimal(configB));
        assert ParseDecimal(Decimal(configA)) == ParseDecimal(Decimal(configB));
      case (DeliveryKey(deliveryA), DeliveryKey(deliveryB)) =>
        SamePrefix("webhook-delivery:", Decimal(deliveryA), Decimal(deliveryB));
        assert ParseDecimal(Decimal(deliveryA)) == ParseDecimal(Decimal(deliveryB));
      case _ =>
    }
  }
}
