# Reclaimerr, verified model

Reclaimerr decides which media files may be deleted and runs the deletions through a durable job
queue. This project models the parts where a mistake deletes the wrong file or runs work twice, and
proves what they promise for every input and every run. `dafny verify dfyconfig.toml` checks it all.

| module | models |
|---|---|
| `Basics` | options, sequences, trimming and decimal text |
| `RuleOperators` | the comparison operators of a rule condition |
| `OperatorMeaning` | what each operator answers, told from the values and the text helpers |
| `RuleTree` | three-valued evaluation of AND/OR trees with disabled nodes, and what a run records |
| `RuleEvaluator` | the boolean evaluator that fills `matched` and `reasons` in place |
| `RuleExplainer` | rule validation and the explainer |
| `VerdictMeaning` | what the verdict of a group and the state of its explanation are, told from the children |
| `JobPolicy` | which resources a job occupies, and dedupe keys |
| `JobQueue` | the job table and its operations |
| `JobProtocol` | workers, claims split into a read and a commit, restarts: whole runs |
| `RateLimiter` | the sliding window of request timestamps |
| `OperationRecorder` | the bounded step log that prefers failures |
| `SeerrIdentity` | parsing and printing of qualified requester ids |
| `RuleActions`, `SeerrRewrites`, `SeerrQualifying` | in-place rewrites of JSON rule trees |
| `ProtectionScope` | which protections cover a target, and the upsert |
| `WatchProgress` | season and series watch progress |
| `DiskStats` | path variants under mappings, and the longest-mount lookup over service entries |
| `DiskCache` | the local lookup through mappings, and the cache of the disk resolver |
| `ImdbCache` | the batched rebuild and chunked read of the ratings cache |

How the code maps to Dafny: objects that the code updates in place (the accumulators of the boolean
evaluator, the job table, the timestamp deque, the step log, the protection table, the disk resolver
and the ratings cache) are classes whose methods are proved against functions of the old state; the
properties of whole runs are lemmas about those functions. Pure recursion stays functions and lemmas.
A committed transaction is one step. Text, path, number, date and language helpers of the rule
operators are the fields of a `Library` record, so the results hold whatever they compute.

## Results that deserve attention

Where a property one would expect turned out false, the code is modelled as it is; there is a lemma with
an input that fails and the exact condition under which the property holds.

- An enabled group whose children are all disabled passes, even below an OR, so a rule can match
  without any condition deciding it and without a reason (`EmptiedGroupMatchesWithoutReasons`). Such a
  match holds in every context (`ReasonlessMatchIsUnconditional`), and the shape of the rule tells
  exactly whether one is possible (`ReasonlessMatchesExactlyWhen`).
- Validation does not look below a disabled group but the explainer does: a rule that validates and
  evaluates can make the explainer raise (`DisabledRubbishRaises`, exact in `ExplainerRaises`).
- The series overlap clause selects exactly the covering protections for every row if and only if an
  episode target names its season (`OverlapNeedsTheSeason`, whose proof gives the row that is missed),
  and covering rows only if and only if the target names no other season (`OverlapOnlyCoversExactly`).
- A protection that is neither permanent nor has an expiry is in force forever, yet an upsert with an
  expiry cuts it short (`OpenEndIsCutShort`, exact in `WidenedGrants`). Runs that never create such a
  row only widen protection (`RunOnlyWidens`).
- The disk cache is keyed by the normal form of a path, but where no mapping matches the raw text is
  looked up, and the normal form of the root is empty like that of a blank path. So a path can be
  answered with another one's result (`RawTextIsRemembered`, `RootIsAnsweredAsBlank`, exact in
  `CacheIsTransparentInEveryWorldExactlyWhen` and, by texts, in `AlikeExactly`).
- A payload update can make two running jobs clash (`TaskUpdateWouldClash`, exact in
  `UpdatesKeepExclusionExactly`; what keeps the resources themselves is exact in `UpdatesKeepResources`).
- Completing and failing check no status, so they can finish a job that never ran; that only the owner
  finishes a running job is a rule of the worker loop (exact in `FinishAdvancesExactly`).
- House-keeping deletes old job rows whatever their status, and with the row of a running job its
  resources are forgotten, so that clashing jobs can run side by side (`CarelessTrimLetsJobsClash`, exact
  in `TrimForgetsExactly` and `TrimKeepsOwnersExactly`).
- An undated episode with a negative view count is neither watched nor never watched (exact in
  `WatchedIsNotNeverWatched`).
- A rounded 100 percent does not always mean completion (`FullPercentWithoutCompletion`, exact in
  `NearestShowsFullExactly` for halves rounded up); however floating point rounds, it does up to ten
  thousand expected episodes (`ShownPercent`).

The documentation of `strip_seerr_config_from_definition` says that `not_contains_any` with an empty list
matches everything. The operator returns false without a usable expected value
(`backend/core/rule_engine.py:3818`); the model follows the code (`FactsDecide`).

## Model

| member | source | states |
|---|---|---|
| RuleOperators.NegatedOperatorsAreComplements | backend/core/rule_engine.py:3652-3740 | for every operator with a negated form and every kind of field, exactly one of the two holds when the value is available and the comparison is decidable, and neither holds otherwise |
| RuleOperators.FactsDecide | backend/core/rule_engine.py:3743-3836 | a list comparison is decided exactly when the condition names a usable value and, for language and country fields, so does the actual value |
| RuleOperators.ListNegations | backend/core/rule_engine.py:3743-3836 | the `any`, `in` and `all` operators and their negations never both hold, in the path, alias, language, country and plain branches |
| RuleOperators.ContainsAllImpliesAny | backend/core/rule_engine.py:3743-3836 | `contains_all` implies `contains_any` for every kind of field |
| OperatorMeaning.OrderingMeans | backend/core/rule_engine.py:3728-3740 | with numbers a and b for the two scalars `greater_than` holds exactly when a > b, and so for the other three; without both numbers none holds |
| OperatorMeaning.DatingMeans | backend/core/rule_engine.py:3692-3705 | the four date operators compare the days of the two scalars, and none holds without both |
| OperatorMeaning.TruthMeans | backend/core/rule_engine.py:3666-3669 | `is_true` and `is_false` hold for exactly the values true and false, whatever the kind of field |
| OperatorMeaning.PresenceMeans | backend/core/rule_engine.py:3658-3665 | `exists` holds exactly when the value has content, or for a language field when it lists a known language; `not_exists` is its negation |
| OperatorMeaning.ContentMeans | backend/core/rule_engine.py:4046-4054 | exactly null, blank texts and lists of values without content have none |
| OperatorMeaning.ScalarEqualityMeans | backend/core/rule_engine.py:3707-3726 | for fields of one value `equals` holds exactly when both have numbers and these are equal, or else their normalized texts are; neither operator holds when a scalar is missing |
| OperatorMeaning.ListOperatorsMean | backend/core/rule_engine.py:3743-3836 | for every kind of field: `in` and `contains_any` hold exactly when some usable expected value is found among the actual ones, `contains_all` when each is, their negations when not, and none without the usable values an answer needs; found means the same path or one below, an alias, or the same language, country or text |
| OperatorMeaning.ListEqualityMeans | backend/core/rule_engine.py:3684-3691 | for fields of several values `equals` is `contains_any`, and `not_equals` its negation |
| OperatorMeaning.PathPrefixMeans | backend/core/rule_engine.py:3872-3878 | a path matches a prefix exactly when it is that path or continues it after a slash |
| OperatorMeaning.RegexMeans | backend/core/rule_engine.py:3881-3907 | `matches_any_regex` holds exactly when some pattern that compiles matches the text of some value with content, its negation when none does, and neither without such a pattern |
| OperatorMeaning.SubstringMeans | backend/core/rule_engine.py:3677-3683 | `contains_substring` holds exactly when some expected text occurs at some place of some actual one, its negation when none does, and neither without an expected text |
| RuleTree.UnknownDataNeverDecides | backend/core/rule_engine.py:2301-2356 | a pass or fail reached with unavailable data stands in every context that keeps the available fields and gives the others any value |
| RuleTree.RefinedTree | backend/core/rule_engine.py:2301-2356 | turning unknown leaves into any verdict never changes a known verdict of a tree of any shape |
| VerdictMeaning.AndGroupVerdict | backend/core/rule_engine.py:2318-2327 | an enabled well-shaped AND fails exactly when some active child fails, passes exactly when every active child passes, and is unknown exactly when none fails and one is unknown |
| VerdictMeaning.OrGroupVerdict | backend/core/rule_engine.py:2318-2330 | an enabled well-shaped OR passes exactly when some active child passes or none is active, fails exactly when there are active children and all fail, and is unknown exactly when none passes and one is unknown |
| VerdictMeaning.OddNodeVerdicts | backend/core/rule_engine.py:2306-2334 | disabled nodes pass; enabled nodes of another type, and groups without a known operator or without a non-empty list of objects, fail |
| VerdictMeaning.ConditionVerdict | backend/core/rule_engine.py:2335-2356 | a condition on one value is unknown exactly when the value could not be fetched, and passes or fails by its operator otherwise; a field without an entry reads as null |
| RuleTree.TraceIsSupport | backend/core/rule_engine.py:3557-3602 | what a passing evaluation records is exactly the conditions reached through passing groups only |
| RuleTree.TraceIsSound | backend/core/rule_engine.py:3557-3649 | everything recorded, even by a branch that fails in the end, is an enabled condition that holds |
| RuleTree.TraceSuffices | backend/core/rule_engine.py:3557-3602 | with only the recorded conditions true and all others arbitrary the tree still passes |
| RuleTree.PruneChangesNothing | backend/core/rule_engine.py:2312-2320 | deleting disabled children from groups that keep an enabled one changes neither verdict nor record |
| RuleEvaluator.EvaluateNode | backend/core/rule_engine.py:3557-3602 | the boolean evaluator answers true exactly when the three-valued one passes, and appends exactly the trace to the accumulators |
| RuleEvaluator.EvaluateCondition | backend/core/rule_engine.py:3605-3649 | without any test for unavailable data, a condition passes exactly when the three-valued evaluator passes it; it records its field and reason then and nothing otherwise |
| RuleEvaluator.EvaluateAnd | backend/core/rule_engine.py:3594-3597 | an AND passes when every active child does, and leaves the records made before it failed |
| RuleEvaluator.EvaluateOr | backend/core/rule_engine.py:3580-3592 | an OR passes when some active child does or none is active; only passing branches are merged |
| RuleEvaluator.EvaluateBranches | backend/core/rule_engine.py:3581-3588 | the kept branches are those of the passing active children, in order, each recorded apart |
| RuleEvaluator.EvaluateBranch | backend/core/rule_engine.py:3582-3586 | a branch of an OR is recorded apart from everything before it |
| RuleEvaluator.MergeBranches | backend/core/rule_engine.py:3589-3591 | merging adds the records of the passing branches in order |
| RuleEvaluator.Accumulator.Record | backend/core/rule_engine.py:3636-3648 | one condition more in both accumulators, which stay in step |
| RuleEvaluator.Accumulator.Merge | backend/core/rule_engine.py:3589-3591 | the records of another branch appended, later values winning |
| RuleEvaluator.EvaluateRule | backend/core/rule_engine.py:2062-2109 | a rule matches exactly when it passes and some chain of enabled nodes leads from its root to a condition, so always when a condition supports it; the reasons are then the supporting conditions and `matched` their fields, and both are empty otherwise |
| RuleEvaluator.EnabledConditionExactly | backend/core/rule_engine.py:2655-2666 | the search for an enabled condition succeeds exactly when some chain of nodes, each a child of the one before and none disabled, leads from the root to a condition |
| RuleEvaluator.SupportIsReached | backend/core/rule_engine.py:2655-2666 | so it never misses when some condition supports the rule |
| RuleEvaluator.MatchedFields | backend/core/rule_engine.py:3636-3648 | `matched` has exactly the fields of the reasons |
| RuleEvaluator.LastReasonWins | backend/core/rule_engine.py:3636-3648 | and for each field the value of the last reason for it |
| RuleEvaluator.TraceReasons | backend/core/rule_engine.py:3557-3649 | the reasons of a passing rule are exactly its supporting conditions |
| RuleEvaluator.ReasonsSuffice | backend/core/rule_engine.py:3557-3649 | the reasons alone make the rule pass, whatever all other conditions evaluate to |
| RuleEvaluator.SupportHolds | backend/core/rule_engine.py:3557-3649 | every reason names an enabled condition that holds |
| RuleEvaluator.ReasonlessMatchIsUnconditional | backend/core/rule_engine.py:3577-3579 | a match without reasons passes in every context |
| RuleEvaluator.VacuousPassesAnyway | backend/core/rule_engine.py:2301-2356 | exactly the trees that pass on their shape alone pass while every condition fails |
| RuleEvaluator.ReasonlessMatchesExactlyWhen | backend/core/rule_engine.py:2062-2109 | some context makes a rule match without reasons exactly when it has an enabled condition and passes on its shape alone |
| RuleEvaluator.EmptiedGroupMatchesWithoutReasons | backend/core/rule_engine.py:3577-3579 | such matches exist: an enabled group with only disabled children below an OR |
| RuleEvaluator.PassingUser | backend/core/rule_engine.py:2256-2298 | a user-scoped condition is unknown exactly without activity data or a selected user; otherwise it passes, with that user's total, exactly when one selected user's own total satisfies the operator, and fails when none does |
| RuleTree.UserTotalIsMaximum | backend/core/rule_engine.py:2291-2294 | a user's total is the largest of those recorded under the name and its aliases, where an account without activity counts as 0 |
| RuleTree.UserTotalOfRecorded | backend/core/rule_engine.py:2291-2294 | a user none of whose accounts has activity totals 0, and no account's activity exceeds the total |
| RuleEvaluator.AndVerdict | backend/core/rule_engine.py:2318-2327 | the verdicts of active children combine to a pass of the AND exactly when every child passes, disabled ones included |
| RuleEvaluator.OrVerdict | backend/core/rule_engine.py:2318-2330 | the verdicts of active children combine to a pass of the OR exactly when an active child passes or none is active |
| RuleExplainer.ExplainerAgrees | backend/core/rule_engine.py:2190-2253 | for a validated rule the explanation of every node, at any depth, is disabled below a disabled node and the three-valued verdict elsewhere |
| VerdictMeaning.GroupIsExplained | backend/core/rule_engine.py:2190-2222 | the report of a group has one report per child in order, disabled when the group is; an enabled group shows fail, pass or unknown by the states of its children, as an AND when the operator is missing |
| RuleExplainer.ExplainerRaises | backend/core/rule_engine.py:2190-2253 | the explanation of a validated rule raises exactly when some node, wherever it is, cannot be read |
| RuleExplainer.DisabledRubbishRaises | backend/core/rule_engine.py:2605-2647 | a rule that validates and evaluates and whose explanation raises |
| RuleExplainer.ValidatesExactly | backend/core/rule_engine.py:2605-2647 | a rule validates exactly when every node without a disabled one above it is disabled or sound: an accepted condition, or an AND or OR with children; no other type is accepted, disabled or not |
| RuleExplainer.PruneStaysValid | backend/core/rule_engine.py:2605-2647 | deleting disabled children keeps a rule valid |
| RuleExplainer.PrunedGroupsAreClean | backend/core/rule_engine.py:2312-2320 | pruning leaves no group, at any depth, with both enabled and disabled children |
| RuleExplainer.PruneExplainsAlike | backend/core/rule_engine.py:2190-2253 | deleting disabled children keeps a rule explainable; the enabled nodes before and after correspond in both directions, each to its pruned form, and corresponding nodes show the same pass, fail or unknown |
| RuleExplainer.PathBeforePruning | backend/core/rule_engine.py:2190-2253 | every enabled node of the pruned rule is the pruned form of an enabled node of the rule |
| RuleExplainer.PathAfterPruning | backend/core/rule_engine.py:2190-2253 | and every enabled node of the rule is left, pruned, in the pruned rule |
| JobPolicy.ResourcesMeetExactlyOnClash | backend/jobs/policy.py:33-63 | two jobs share a resource exactly when both are task runs, both work on the media services, or both deliver to the same endpoint or to none; the candidate-workflow resource decides nothing |
| JobPolicy.TasksHold | backend/jobs/policy.py:11-51 | exactly the eight tasks that work on the media services hold the service runtime, and exactly the three on cleanup candidates the candidate workflow |
| JobPolicy.WhoHolds | backend/jobs/policy.py:33-63 | who holds each resource, told from the type of the job and the task or endpoint it names |
| JobPolicy.DeliveriesHold | backend/jobs/policy.py:56-61 | a delivery holds the endpoint it names by a positive number, and the shared resource exactly when it names none |
| JobPolicy.UpdatesKeepResources | backend/jobs/policy.py:33-63 | payload updates change the resources of no job of a type exactly when they have no `task` entry for a task run and no `endpoint_id` entry for a delivery |
| JobPolicy.TaskKeyTextsDiffer | backend/core/task_runtime.py:101-109 | task runs with the same dedupe text are the same task for the same configuration |
| JobPolicy.KeyTextIsInjective | backend/core/task_runtime.py:101-109 | no two dedupe keys share a text |
| JobQueue.JobTable.EnqueueJob | backend/jobs/queue.py:24-93 | check, replacement and insert as one step: nothing changes when an active job has the key, and otherwise one pending job is added |
| JobQueue.SkippedExactly | backend/jobs/queue.py:38-76 | an enqueue is skipped exactly when it may be, has a key, and a job with that key is running, or pending and not to be replaced |
| JobQueue.EnqueuedRows | backend/jobs/queue.py:44-89 | otherwise one pending job with the given fields is added, and of the other rows exactly the pending ones it replaces are canceled |
| JobQueue.JobTable.CancelPendingByKey | backend/jobs/queue.py:283-309 | cancels and counts exactly the pending jobs with the key |
| JobQueue.CountIsSize | backend/jobs/queue.py:283-309 | the count is the number of pending rows with the key |
| JobQueue.JobTable.ResetStaleJobs | backend/jobs/queue.py:96-124 | fails exactly the jobs left running by a previous process |
| JobQueue.JobTable.FindCandidate | backend/jobs/queue.py:136-184 | the read phase picks the specified candidate |
| JobQueue.JobTable.CommitClaim | backend/jobs/queue.py:194-214 | starts the job exactly when it is still pending, and then adds exactly its resources to those in use, keeping exclusion if they were free; otherwise nothing changes |
| JobQueue.JobTable.ClaimNext | backend/jobs/queue.py:127-218 | whatever other sessions do to the table between its two phases, the claim picks the first job by rank, time and id among those claimable at the read, none exactly when there is none, and starts it exactly when it is still pending at the commit |
| JobQueue.JobTable.Complete | backend/jobs/queue.py:221-243 | only that row changes, and neither its key, attempts nor resources; completing a running job frees exactly its resources; an unknown or deleted id changes nothing |
| JobQueue.JobTable.Fail | backend/jobs/queue.py:268-280 | only that row changes, and neither its key, attempts, payload nor resources; failing a running job frees exactly its resources; an unknown or deleted id changes nothing |
| JobQueue.JobTable.UpdatePayload | backend/jobs/queue.py:246-265 | the status stays; updates without the entries resources are read from leave the resources in use, exclusion and every other row alone; an unknown or deleted id changes nothing |
| JobQueue.CandidateIsOptimal | backend/jobs/queue.py:147-184 | the candidate precedes every other due, allowed and compatible pending job; none only when there is no such job |
| JobQueue.CandidateIsNext | backend/jobs/queue.py:136-184 | the candidate is pending, due, of an allowed type and clashes with no running job, and any other such job has a lower priority, or the same and is due later, or is also due then and younger |
| JobQueue.CandidateMayRun | backend/jobs/queue.py:136-184 | there is no candidate exactly when no job can run now |
| JobQueue.ClaimOrderIsTotal | backend/jobs/queue.py:157-171 | the claim order is a strict total order of the jobs |
| JobQueue.DueIsOrdered | backend/jobs/queue.py:153-171 | the due jobs are read in claim order |
| JobQueue.InsertKeepsOrder | backend/jobs/queue.py:157-171 | inserting by rank, time and id keeps that order |
| JobQueue.FirstCompatibleIsFirst | backend/jobs/queue.py:177-184 | the scan stops at the first job compatible with all running ones |
| JobQueue.StartingOccupies | backend/jobs/queue.py:194-214 | starting a job adds exactly its resources to those in use, and keeps exclusion if they were free |
| JobQueue.EndingFrees | backend/jobs/queue.py:221-243 | ending a running job frees exactly its resources |
| JobQueue.TrimForgetsExactly | backend/tasks/house_keeping.py:38-55 | trimming old rows forgets no resource in use exactly when it deletes no running job |
| JobProtocol.StepKeepsInv | backend/jobs/queue.py:24-309 | every step of every operation keeps exclusion, a safe pending claim, ownership, attempts and dedupe |
| JobProtocol.RunKeepsInv | backend/core/worker.py:61-129 | so does every run of any number of workers |
| JobProtocol.MutualExclusion | backend/jobs/policy.py:33-63 | in every reachable state running jobs do not clash: at most one task run, one job on the media services (file operation, duplicate deletion, service toggle or one of eight tasks, named one by one) and one delivery per endpoint |
| JobProtocol.ServicesAreExclusive | backend/jobs/policy.py:11-55 | in every reachable state a running toggle, file operation or duplicate deletion excludes a running task run of each of the eight tasks on the media services |
| JobProtocol.WorkersNeverClash | backend/core/worker.py:61-129 | in every reachable state, trims that spare held rows included, the jobs two workers are running do not clash |
| JobProtocol.TrimKeepsOwnersExactly | backend/tasks/house_keeping.py:38-55 | after a trim every worker still owns the row of its job exactly when the trim deletes none of these rows |
| JobProtocol.CarelessTrimLetsJobsClash | backend/tasks/house_keeping.py:38-55 | a trim that deletes the row of a running toggle lets the next toggle start beside it |
| JobProtocol.ClaimKept | backend/jobs/queue.py:136-214 | between the read and the commit of a claim no step makes the picked job clash with a running one |
| JobProtocol.ExclusiveKept | backend/jobs/queue.py:194-214 | every step keeps running jobs on disjoint resources |
| JobProtocol.OnlyCommitStarts | backend/jobs/queue.py:194-214 | only the commit of a claim starts a job |
| JobProtocol.StepAdvances | backend/jobs/queue.py:96-309 | no step sends a job back to pending, revives one that is over, or changes its type, key or resources |
| JobProtocol.NoDuplicateRuns | backend/core/task_runtime.py:112-162 | in every reachable state no task has two pending or running jobs for one configuration |
| JobProtocol.SubmittedTask | backend/core/task_runtime.py:145-162 | submitting a task changes nothing when a run with its key waits or runs; otherwise it adds one pending run, of low priority when scheduled |
| JobProtocol.SubmittedOthers | backend/jobs/candidate_file_ops.py:71-75 | file operations and duplicate deletions are always added; toggles and deliveries too, after the waiting one with their key is canceled |
| JobProtocol.WorkerStepsEnd | backend/core/worker.py:81-129 | a worker's job ends as completed or failed, changing no other row, and stays running when the worker ends without a word |
| JobProtocol.QuietSteps | backend/jobs/queue.py:246-265 | progress adds to the payload of the worker's own job and changes nothing else; a claim dropped between its phases changes no job |
| JobProtocol.StartsAreAttempts | backend/jobs/queue.py:194-214 | `attempts` counts the starts of a job over any run |
| JobProtocol.StartedAtMostOnce | backend/jobs/queue.py:96-309 | over any run, restarts included, a job starts at most once, and unless its row was deleted has not started exactly when it is pending or canceled |
| JobProtocol.FinitelyManyEffectiveSteps | backend/jobs/queue.py:127-309 | without new requests at most two effective steps per pending and one per running job remain |
| JobProtocol.WeightDrops | backend/jobs/queue.py:127-309 | every status change strictly lowers that bound, except the deletion of a row whose job was over |
| JobProtocol.WeightCounts | backend/jobs/queue.py:127-309 | the bound is twice the number of pending jobs plus the number of running ones |
| JobProtocol.IdleQueueAlwaysStarts | backend/jobs/queue.py:136-214 | with nothing running and a job due and allowed, a read picks one, and after any other steps the commit starts it exactly when none of them canceled it or deleted its row |
| JobProtocol.InterleavedClaim | backend/jobs/queue.py:127-218 | from any reachable state and with any steps between read and commit that leave the claim alive: the read picks the first claimable job, none exactly when there is none; the commit starts that job, unless a step canceled it or deleted its row, and then it changes nothing |
| JobProtocol.ClaimWaits | backend/jobs/queue.py:136-214 | only a cancel or a trim of its job can take the job from a claim in flight |
| JobProtocol.FinishAdvancesExactly | backend/jobs/queue.py:221-280 | completing or failing moves the table forward exactly when the job is running, was finished that way before, or has no row |
| JobProtocol.UpdatesKeepExclusionExactly | backend/jobs/queue.py:246-265 | payload updates keep exclusion in every table exactly when they do not turn a task run into one that works on the media services, and do not set the endpoint of a delivery |
| JobProtocol.TaskUpdateWouldClash | backend/jobs/queue.py:246-265 | a payload update of `task` makes a running task run clash with a running service toggle |
| RateLimiter.Limiter.WaitForRateLimit | backend/core/tmdb.py:66-85 | without fifty requests younger than a second the request is recorded at once; with them exactly when the fiftieth last is a second old (plus what the wake-up adds), unless canceled, when nothing is recorded; the deque keeps exactly the younger requests, and the history stays spaced |
| RateLimiter.BusyMeansFifty | backend/core/tmdb.py:70-76 | the limiter waits exactly when each of the last fifty requests is younger than a second |
| RateLimiter.Limiter.DropExpired | backend/core/tmdb.py:70-74 | drops exactly the timestamps at least a second old |
| RateLimiter.Limiter.Record | backend/core/tmdb.py:84-85 | a record never makes the bounded deque discard an entry |
| RateLimiter.RecordKeepsSpacing | backend/core/tmdb.py:66-85 | recording when fewer than fifty are younger than a second keeps the whole history spaced |
| RateLimiter.NoSecondIsOverfull | backend/core/tmdb.py:66-85 | no window of one second, wherever it starts, holds more than fifty requests |
| RateLimiter.OverfullSecondWithoutSpacing | backend/core/tmdb.py:66-85 | and spacing is needed for that: without it some window holds more |
| OperationRecorder.Recorder.Append | backend/core/operation_diagnostics.py:47-57 | one append computes the specified log and counts what is lost |
| OperationRecorder.AppendMeans | backend/core/operation_diagnostics.py:47-57 | with room a step is added; in a full log a failed or deferred step replaces the first success, and any other step, or one that finds no success, is lost |
| OperationRecorder.LogIsBoundedPart | backend/core/operation_diagnostics.py:47-57 | over any history the log is an ordered part of it, within the bound; kept and dropped add up to all, and nothing is dropped before the log is full |
| OperationRecorder.KeepsEarliestFailures | backend/core/operation_diagnostics.py:47-57 | the kept failed and deferred steps are a prefix of all of them, and all of them unless the log is full of steps that did not succeed |
| OperationRecorder.FailuresStay | backend/core/operation_diagnostics.py:47-57 | a kept failed or deferred step is never given up |
| OperationRecorder.KeptFailureStays | backend/core/operation_diagnostics.py:47-57 | a step with outcome failed or deferred that is in the log stays in it, whatever is appended |
| OperationRecorder.AllFailuresAre | backend/core/operation_diagnostics.py:50 | the failures of a history are exactly its failed and deferred steps, in order |
| OperationRecorder.AppendedSteps | backend/core/operation_diagnostics.py:47-57 | positions and steps of the log evolve alike |
| SeerrIdentity.ParsesExactly | backend/core/seerr_identity.py:40-56 | a text parses to a pair of ids exactly when it is, but for white space around it, two digit runs that denote them around one colon |
| SeerrIdentity.ParseOfQualify | backend/core/seerr_identity.py:35-56 | parsing the printed form of any two ids returns them |
| SeerrIdentity.NormalizeIsCanonical | backend/core/seerr_identity.py:88-91 | normalising keeps the identity and is idempotent |
| SeerrIdentity.NormalFormsIdentify | backend/core/seerr_identity.py:88-91 | two texts have the same normal form exactly when they name the same identity |
| SeerrIdentity.BareTextDoesNotParse | backend/core/seerr_identity.py:40-56 | a text without the separator is no identity |
| RuleActions.RewriteAppliesRule | backend/core/rule_actions.py:80-125 | a rewrite applies its rule to every requester list, in order, at any depth |
| RuleActions.RewriteKeepsTheRest | backend/core/rule_actions.py:173-214 | and touches nothing else in the tree |
| RuleActions.RewriteKeepsPlaces | backend/core/rule_actions.py:173-214 | every place outside requester values is there after a rewrite: the same scalar, a list of the same length, or an object with the same keys in order |
| RuleActions.MaskShowsPlaces | backend/core/rule_actions.py:173-214 | the masked tree shows every such place, so that equal masks differ in requester values only |
| RuleActions.RewriteChangesExactly | backend/core/rule_actions.py:80-125 | and leaves the tree as it is exactly when the rule keeps every requester value |
| RuleActions.RequesterListsAre | backend/core/rule_actions.py:154-170 | the requester lists are exactly the values of the objects, anywhere in the tree, whose `field` is the requester field |
| RuleActions.OnlyTextsNameInstances | backend/core/seerr_identity.py:40-56 | of all values only texts name an instance, and by their parsed form |
| RuleActions.BareValues | backend/core/rule_actions.py:196-198 | the bare ids are exactly the natural numbers and the texts of digits, and a number denotes itself |
| RuleActions.UnqualifiedValues | backend/core/rule_actions.py:143-148 | unqualified are exactly the texts that are neither blank nor an identity, and all other values but null |
| SeerrRewrites.CollectsTheNamed | backend/core/rule_actions.py:154-170 | the collected instances are exactly those some requester value names |
| SeerrRewrites.StripConfig | backend/core/rule_actions.py:80-125 | computes the stripped tree; `changed` exactly when a value named the instance, `emptied` exactly when a list lost its last value |
| SeerrRewrites.StripIsExact | backend/core/rule_actions.py:80-125 | stripping removes exactly that instance from the collected ones, keeps all other values in order and the rest of the tree, and a second strip finds nothing |
| SeerrRewrites.KeptValues | backend/core/rule_actions.py:96-110 | the filter keeps exactly the values of other instances, in order |
| SeerrQualifying.UnqualifiedInLists | backend/core/rule_actions.py:134-151 | the check for unqualified requesters finds exactly the unqualified values of the requester lists |
| SeerrQualifying.QualifyConfig | backend/core/rule_actions.py:173-214 | computes the qualified tree; `changed` exactly when there was a bare id |
| SeerrQualifying.QualifiedNamesUser | backend/core/rule_actions.py:196-203 | a bare value becomes the identity of the given instance and the very user it denotes; any other value stays itself |
| SeerrQualifying.QualifyKeepsUsers | backend/core/rule_actions.py:173-214 | position by position in every requester list of the tree: where a bare id stood, the qualified rule names the instance and that user, and the same value stands everywhere else |
| SeerrQualifying.QualifyKeepsPlaces | backend/core/rule_actions.py:173-214 | the requester lists stay as many and as long as they are |
| SeerrQualifying.QualifyIsComplete | backend/core/rule_actions.py:173-214 | afterwards only values that are neither blank, bare nor qualified are unqualified, qualified values and the rest are untouched, and qualifying again changes nothing |
| SeerrQualifying.QualifyAddsInstance | backend/core/rule_actions.py:173-214 | the collected instances grow by the given one exactly when some value was bare |
| ProtectionScope.OverlapIsContainment | backend/core/protection_scope.py:36-74 | the clauses select exactly the rows whose item is the target or contains it, in both hierarchies |
| ProtectionScope.OverlapNeedsTheSeason | backend/core/protection_scope.py:56-74 | for an episode target that is so for every row exactly when the target names its season |
| ProtectionScope.OverlapOnlyCoversExactly | backend/core/protection_scope.py:36-74 | the clauses select covering rows only, exactly when an episode target names no other season than its own |
| ProtectionScope.ReusableExactly | backend/core/protection_scope.py:77-133 | a row is reused only if no rule made it, it is in force, and its item contains the target, and each such row may be |
| ProtectionScope.WidenedGrants | backend/core/protection_scope.py:138-147 | a reused row grants what was asked; it protects no less exactly when it had an end, or the request has none |
| ProtectionScope.WidenedExactly | backend/core/protection_scope.py:134-144 | a reused row is in force exactly when it was or the request asks for it, unless an open end is cut short; its scope and origin stay |
| ProtectionScope.OpenEndIsCutShort | backend/core/protection_scope.py:138-143 | a row that is in force forever and loses that |
| ProtectionScope.ProtectionTable.Upsert | backend/core/protection_scope.py:91-159 | whichever overlapping active row is picked, it grants the request, and covers the target unless an episode target names another season than its own; a row is inserted only when there is none, no row with an end protects less, and rows made by rules stay as they are |
| ProtectionScope.UpsertOnlyWidens | backend/core/protection_scope.py:91-159 | one upsert takes protection from no item at no time, and protects its target as asked unless that names a wrong season |
| ProtectionScope.NewRowProtectsExactly | backend/core/protection_scope.py:146-159 | an inserted row adds protection for its target and what is below it, for as long as was asked, and nothing else |
| ProtectionScope.WidenedProtectsExactly | backend/core/protection_scope.py:134-144 | a reused row adds protection for its own item and what is below it, for as long as was asked, and nothing else |
| ProtectionScope.RunOnlyWidens | backend/core/protection_scope.py:91-159 | whatever is protected at some point of a run of upserts stays so for the rest of it |
| ProtectionScope.EveryRequestIsHonoured | backend/core/protection_scope.py:91-159 | at the end of a run every requested target, with the right season or none, is protected for as long as was asked |
| WatchProgress.WatchedIsNotNeverWatched | backend/core/rule_engine.py:3921-3954 | watched in the season roll-up is the opposite of never watched, except for an undated episode with a negative view count |
| WatchProgress.WatchedMeans | backend/core/rule_engine.py:3976-3986 | a dated watch counts unless the copy is newer, by the episode's own date first and the season's only without it; an undated one counts when viewed at least once |
| WatchProgress.SeasonWatchCounts | backend/core/rule_engine.py:3957-3998 | none without inventory; otherwise the number of expected episodes with a watched copy, and of all expected ones |
| WatchProgress.CountsTellCompletion | backend/core/rule_engine.py:3957-3998 | however many duplicates occur the counts are ordered, and equal exactly when every expected episode was watched |
| WatchProgress.SeasonWatchProgress | backend/core/rule_engine.py:3990-4003 | unknown exactly without inventory; full exactly when every expected episode was watched; the percentage is the rounded ratio of the counts |
| WatchProgress.AddUpCounts | backend/core/rule_engine.py:4024-4031 | the totals, or none when some season has no inventory |
| WatchProgress.TotalTellsCompletion | backend/core/rule_engine.py:4024-4033 | comparing totals is comparing season by season |
| WatchProgress.TotalOfBoth | backend/core/rule_engine.py:4024-4031 | the totals weigh seasons by episodes: they add up over any split of the list |
| WatchProgress.SeriesWatchProgress | backend/core/rule_engine.py:4006-4033 | unknown exactly when no regular season exists or one has no inventory; full exactly when every regular season is complete; the percentage is the rounded ratio of the totals |
| WatchProgress.RegularKeeps | backend/core/rule_engine.py:4018-4020 | the regular seasons are all but the specials, each as often as it is listed |
| WatchProgress.PercentLiesBetween | backend/core/rule_engine.py:4024-4033 | the shown percentage of a series lies between the smallest and the largest shown for its seasons |
| WatchProgress.ShownPercent | backend/core/rule_engine.py:3991-3998 | the shown percentage is between 0 and 100, completion shows as 100, and up to ten thousand expected episodes nothing else does |
| WatchProgress.NearestShowsFullExactly | backend/core/rule_engine.py:3991-3998 | rounded with halves up, 100 percent shows exactly when at most one of twenty thousand expected episodes is missing |
| WatchProgress.FullPercentWithoutCompletion | backend/core/rule_engine.py:3991-3998 | one episode missing of a hundred thousand shows as 100 percent |
| DiskStats.SortIsStable | backend/core/rule_engine.py:1049-1054 | the sorts lose nothing and keep the order of equals: entries longest path first, mappings longest source first |
| DiskStats.LongestFirst | backend/core/rule_engine.py:1049-1054 | sorted entries and mappings come with the longest path or source first |
| DiskStats.NormalMeans | backend/core/utils/filesystem.py:207-236 | the normal form is the stripped path with slashes for back slashes and without the slashes at its end |
| DiskStats.MappedMeans | backend/core/utils/filesystem.py:163-177 | a mapping swaps its source for its local path exactly where the path is the source or continues it with a slash |
| DiskStats.VariantsAre | backend/core/rule_engine.py:1170-1189 | the variants are the normal form and what each applying mapping makes of it, and of an empty normal form only the root's |
| DiskStats.MediaVariantsAre | backend/core/rule_engine.py:1125-1129 | mappings without a configuration, for all types or that of the media service, apply to the path asked for |
| DiskStats.WithinMountMeans | backend/core/rule_engine.py:1191-1195 | a mount holds exactly itself and what continues it with a slash, and the root what starts with one |
| DiskStats.SkippedExactly | backend/core/rule_engine.py:1133-1143 | an entry is skipped exactly when both service types are known and differ but for case |
| DiskStats.PercentIs | backend/core/rule_engine.py:1161-1167 | the percentage times the total is a hundred times the free space, and 0 for an empty total |
| DiskStats.VariantsDependOnNormalForm | backend/core/rule_engine.py:1170-1189 | paths with the same normal form have the same variants exactly when it is not empty or both or neither are the root |
| DiskStats.LongestMount | backend/core/rule_engine.py:1154-1160 | finds the longest matching mount whatever order the variant sets are visited in |
| DiskStats.ResolveArr | backend/core/rule_engine.py:1117-1168 | the answer is that of the longest matching mount over all entries and variants, the earliest sorted entry winning ties |
| DiskStats.ArrAnswerIsUnique | backend/core/rule_engine.py:1117-1168 | there is only one such answer |
| DiskCache.ResolveUncached | backend/core/rule_engine.py:1087-1093 | an accessible local path first, and the longest mount otherwise |
| DiskCache.Resolver.constructor | backend/core/rule_engine.py:1046-1058 | sorts entries and mappings and starts with an empty cache |
| DiskCache.Resolver.Resolve | backend/core/rule_engine.py:1068-1094 | every call is answered as the first call with its key was without a cache |
| DiskCache.CacheIsTransparentExactlyWhen | backend/core/rule_engine.py:1068-1094 | a run is answered as without a cache exactly when calls that share a key have the same uncached answer |
| DiskCache.CacheIsTransparent | backend/core/rule_engine.py:1068-1094 | every run in which calls that share a key are looked up alike is answered as without a cache |
| DiskCache.CacheIsTransparentInEveryWorldExactlyWhen | backend/core/rule_engine.py:1083-1094 | under given mappings the cache is invisible, whatever the entries and the file system, exactly when calls that share a key have the same local path, and a non-empty normal form or both or neither are the root |
| DiskCache.AlikeExactly | backend/core/utils/filesystem.py:239-330 | calls that share a key are looked up alike exactly when a mapping matches them, or their raw texts are the same local path and they do not differ in being the root |
| DiskCache.MappingForIsPreferred | backend/core/utils/filesystem.py:273-323 | the mapping that decides matches, and none that matches is preferred to it: by naming the very service type, or among equals by a longer source |
| DiskCache.MappingForMeans | backend/core/utils/filesystem.py:273-323 | a mapping for the service type asked for is preferred to one for all types, and among mappings of one kind none with a longer source is passed over |
| DiskCache.MappingForMatches | backend/core/utils/filesystem.py:290-311 | no mapping decides exactly when none matches |
| DiskCache.MatchesLocallyExactly | backend/core/utils/filesystem.py:290-311 | a mapping matches exactly when it has no configuration, is for the type asked for or for all, and its source holds the path; the root is a source of its own |
| DiskCache.MappedLocally | backend/core/utils/filesystem.py:312-314 | the local path is that of the mapping followed by the names after its source |
| DiskCache.NamesSplit | backend/core/utils/filesystem.py:312-314 | the names of a path are those of its parts, split at any slash |
| DiskCache.RawTextIsRemembered | backend/core/utils/filesystem.py:325-330 | a path with a leading blank and then the path itself, which exists: it gets the answer of the padded text |
| DiskCache.RootIsAnsweredAsBlank | backend/core/rule_engine.py:1083-1094 | a blank path and then the root: the root gets the answer of the blank path |
| ImdbCache.Cache.ReplaceCache | backend/core/imdb_cache.py:129-191 | every row is in the new cache and counted, or the old cache stays: exactly when the source fails or has no rows; no temporary file remains |
| ImdbCache.Cache.InsertBatch | backend/core/imdb_cache.py:270-288 | a batch is its rows upserted one by one |
| ImdbCache.UpsertInBatches | backend/core/imdb_cache.py:151-165 | splitting the rows into batches makes no difference |
| ImdbCache.LastRowWins | backend/core/imdb_cache.py:270-288 | the table holds the last row of each title, and of no other |
| ImdbCache.Cache.GetCachedRatings | backend/core/imdb_cache.py:194-223 | the chunks together give the stored map restricted to the requested non-empty ids |
| ImdbCache.ReadBack | backend/core/imdb_cache.py:129-223 | reading back a rebuilt cache gives the last row of each requested title and nothing else |

## Left out

- SQLAlchemy, SQLite, async scheduling and session plumbing: each committed transaction is one step. An enqueue that is skipped after it canceled pending jobs leaves no trace, because its session ends without a commit.
- `_build_context`, the field and operator tables of the rule catalogue and the checks of single conditions in validation: the context is an arbitrary map and the checks are the parameter `accepts`.
- Text for people: reason wording, display values, job messages and timestamps.
- `_support_conditions` and `capture_evaluation`: they observe an evaluation and do not decide it.
- The helpers behind the operators (normal forms of text, paths, languages and countries, account aliases, patterns, numbers and dates) are arbitrary functions.
- JSON trees are passed in and returned: sharing of one subtree by two parents, which an update in place would change in both, is not captured. `StripItems` and `QualifyItems` carry a ghost bound that only serves termination.
- Digits beyond ASCII, float ids and already parsed ids handed to the Seerr parser.
- Boolean endpoint ids in job payloads, and the delay between the polls of an idle worker.
- Fairness of the queue: a job that needs two resources can be overtaken for ever, so no starvation result is claimed.
- A clock that runs backwards and float rounding in the rate limiter.
- The floating-point arithmetic behind a percentage: the model uses only that it is monotone, exact at 0 and 1, and off by less than a hundredth, so how halves round is open.
- Runs of the job protocol contain only trims that delete no row of a job that a worker is running; what others do is in `CarelessTrimLetsJobsClash`. Rows are trimmed in order of creation.
- `shutil.disk_usage` and the existence of paths: an arbitrary function of the local path that does not change during a run. Local paths are read as on POSIX systems. Letter case is ASCII.
- `detach_movie_version_references`, `record_outcome` and `operation_step`: easy members of their files.
- The metadata rows of the IMDb cache other than the counts and stamps of a rebuild, and database errors inside a batch.
- HTTP clients, file deletes and moves, notifications, authentication, settings, the desktop and web front ends.
