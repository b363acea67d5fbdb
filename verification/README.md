# orra core logic in Dafny

This project models the sequential logic of the orra multi-agent orchestration
platform and proves properties of it. The model covers:

- **Workflow** — the Python application object. It covers step registration,
  compiling the registered steps into a linear chain of graph edges, and the
  earlier variant that keeps a bar-joined workflow string.
- **Plane** — the control plane's plan preparation:
  - stripping the `json` code fence from model output;
  - checking a plan against the registered services;
  - detecting plans that cannot be executed;
  - adding service details;
  - resolving `$task.field` references;
  - running parallel groups in order until the first failure.

  It also covers the project lookup by API key and the earlier variants of
  these operations in `controlplane/main.go`.
- **OrchestrationLog** — the append-only orchestration log with dense
  offsets and suffix reads. It also covers orchestration state creation,
  completion, finalisation, failure and stale cleanup, and the sorted values
  of a dependency state.
- **TaskWorker**, **ResultAggregator** and **FailureTracker** — the log
  workers:
  - which entries each worker takes;
  - the dependency gate;
  - when entries are marked processed;
  - the task worker's retry classification and retry loop;
  - the reuse of an existing execution;
  - the idempotency key's input.
- **Idempotency** — the lease-based execution store.
- **WebSocket** — the bounded per-service message queue with drop-oldest and
  expiry, sending queued messages, acknowledgements, error parsing, sending a
  task and dispatching incoming messages.
- **Health** — the coordinator that pauses and resumes orchestrations when a
  service's health changes, and restarts unfinished tasks on recovery.
- **Config** and **Middleware** — the `Status` and `ServiceType` string
  codecs, the dependency-reference pattern and the `Bearer` header check.
- **Base32** — the CLI's custom base-32 encoder and ID generator.
- **ChatApp**, **DeliveryAgent** and **DraftIssues** — helpers from the
  example applications:
  - the chat server's sentence splitter and payload defaults;
  - the delivery agent's backoff retry and fenced-JSON extraction;
  - the dependabot example's package-update formatter.

How the model is built:

- Every operation is a pure function over immutable datatypes. The log, the
  idempotency store, the message queues and the health coordinator are
  explicit state-transition functions, which return the new state with the
  result.
- Collaborators whose code is not part of this model appear as parameters:
  - the LLM decomposition;
  - a parallel group's outcome;
  - the control plane's finalisation;
  - pause checks and task execution;
  - socket writes;
  - JSON parsing.

  Their side effects are returned as values (`Effect` sequences, appended
  log entries).
- Time is an `int` count of nanoseconds, the unit of Go's `time.Duration`.
  The 30-second lease, the 24-hour TTL and the 24-hour message expiry are
  written in that unit.
- Go map iteration order is unspecified. The models iterate maps in
  ascending key order (`Order.SortedKeys`), one instance of that freedom.
  Where the outcome depends on the order, the contracts promise only what
  holds for every order.
- Shared helpers live in three modules:
  - `Wrappers` holds `Option` and `Result`.
  - `Strs` holds ASCII trimming, lower-casing, splitting, joining and
    substring search, modelling the Go and JavaScript library calls the
    source makes.
  - `Order` holds lexicographic order on strings, insertion sort, and
    sorted map keys.
- The Go files come from different refactor stages and do not type-check
  together. Each function is modelled with its own semantics, and the
  differing types are not reconciled.
- Go panics that the source reaches are explicit error variants:
  - the nil dereference in `MarkTaskCompleted`'s error branch;
  - the out-of-range `parts[1]` in `prepareInput` for a reference with no
    dot.

The retry policy of the delivery agent, the log's offsets and the workers'
dependency gates are stated for all inputs, not only for example values.

## Model

| member | source | states |
|---|---|---|
| Workflow.ActionFor | libs/orra/orra/orchestrator.py:73-78 | a coroutine step is registered as a wrapper that runs that very function to completion; a plain function is registered unchanged |
| Workflow.Register | libs/orra/orra/orchestrator.py:72-81 | registering appends the step's name to the step list and adds a node under that name; edges and entry points are untouched |
| Workflow.RegisterAllOrder | libs/orra/orra/orchestrator.py:72-81 | after decorating a list of functions, the step list has grown by their names in decoration order, node i belongs to the i-th function, and no edge is added |
| Workflow.Chain | libs/orra/orra/orchestrator.py:86-88 | for n steps the chain has exactly n-1 edges, the i-th going from step i to step i+1 |
| Workflow.Compile | libs/orra/orra/orchestrator.py:84-95 | with fewer than two steps the flow is unchanged; otherwise the edges grow by one per step (the chain plus the edge to END) and the entry point is the first step; nodes are untouched; the trace string is the names joined by " -> " for two or more steps and empty otherwise |
| Workflow.Execute | libs/orra/orra/orchestrator.py:68-70 | execute keeps the steps, adds the path to the shared flow and invokes it with the empty state |
| Workflow.PathShape | libs/orra/orra/orchestrator.py:84-92 | with distinct names and more than one step, every step has exactly one outgoing edge and every step but the first has exactly one incoming edge, so the edges form a single path |
| Workflow.ShortFlowUnchanged | libs/orra/orra/orchestrator.py:90-92 | with zero or one step, compiling adds no edge and no entry point, and the trace is empty |
| Workflow.RecompileRepeatsPath | libs/orra/orra/orchestrator.py:48-92 | compiling twice into the same flow adds the path's edges and the entry point twice |
| Workflow.NewLegacyOrra | libs/orra/orra/orchestrators.py:31-41 | the earlier object starts with an empty workflow string and the invoked flag false; a missing state definition becomes the empty map |
| Workflow.LegacyStep | libs/orra/orra/orchestrators.py:43-47 | a step name replaces an empty workflow string and is otherwise appended after the bar separator; nothing else changes |
| Workflow.LegacyRun | libs/orra/orra/orchestrators.py:56-60 | run and stop leave the object unchanged, so the invoked flag stays as constructed |
| Workflow.DropLeadingEmpty | libs/orra/orra/orchestrators.py:45 | the names that survive in the workflow string are a suffix of the registered names, starting with a non-empty one |
| Workflow.LegacyStepAllJoin | libs/orra/orra/orchestrators.py:45 | from a non-empty workflow string, registering names gives the string and the names joined by the bar separator, in order |
| Workflow.LegacyWorkflowIsJoin | libs/orra/orra/orchestrators.py:45 | from a fresh object, registering names gives the surviving names joined by the bar separator in decoration order, and the invoked flag never changes |
| Strs.TrimSpace | controlplane/plane.go:543 | trimming removes exactly the leading and trailing white space and keeps the text between as a slice of the input |
| Strs.Split | controlplane/middleware.go:19 | splitting yields at least one piece, and no piece holds a delimiter |
| Strs.SplitJoin | controlplane/middleware.go:19 | joining the pieces of a split at one delimiter with that delimiter gives back the input |
| Order.SortedKeys | controlplane/log.go:200-203 | the keys of a map are listed once each, strictly ascending |
| Order.Sort | controlplane/taskworker.go:353 | sorting gives an ascending permutation of the input |
| Order.LastSortedKeyIsGreatest | controlplane/result.go:111-113 | the last of the sorted keys is the greatest key |
| Plane.TrimPrefix | controlplane/plane.go:547-548 | a present prefix is removed and an absent one leaves the string unchanged |
| Plane.TrimSuffix | controlplane/plane.go:550-551 | a present suffix is removed and an absent one leaves the string unchanged |
| Plane.SanitizeJsonOutput | controlplane/plane.go:541-559 | output whose trimmed form is not fenced is returned unchanged; fenced output gives a text that is already trimmed and at least ten characters (the two fences) shorter than the trimmed output |
| Plane.Unfence | controlplane/plane.go:545-551 | the trimmed output without its seven-character opening fence and its three-character closing fence |
| Plane.SanitizeFencedBody | controlplane/plane.go:541-559 | wrapping a trimmed JSON body in the fences, with any surrounding white space, and sanitizing gives the body back |
| Plane.SanitizeOfFenced | controlplane/plane.go:541-554 | for fenced output the result is the trimmed inside of the fences |
| Plane.ServiceMap | controlplane/plane.go:150-153 | the registry holds exactly the registered service IDs, each mapped to a service with that ID |
| Plane.ServiceMapLastWins | controlplane/plane.go:150-153 | a service with no later service of the same ID is the one the registry keeps for that ID |
| Plane.TaskError | controlplane/plane.go:155-166 | a subtask is rejected exactly when its service is unregistered or one of its input keys is not a property of the service's input schema, with the matching message |
| Plane.FirstInvalid | controlplane/plane.go:155-168 | the reported subtask is the first invalid one, and every subtask before it is valid |
| Plane.ValidateInput | controlplane/plane.go:149-169 | validation succeeds exactly when every subtask is valid; otherwise it reports the first invalid subtask's error |
| Plane.ValidatedInputsAreDeclared | controlplane/plane.go:512-519 | validation passes only when every input key of every subtask is a property its service's input schema declares, and one undeclared key of a registered service makes it fail |
| Plane.AddServiceDetails | controlplane/plane.go:171-186 | details are added exactly when every subtask's service is registered, each subtask getting the "[type] name - description" text of its service; otherwise the call fails with service-not-found for an unregistered service |
| Plane.ServiceInfoString | controlplane/plane.go:537-539 | the description opens with the service type's name in brackets and ends with the service's description |
| Plane.ServiceInfoStringShowsType | controlplane/plane.go:537-539 | the second character is "a" for an agent and "s" for a service, so equal descriptions mean equal service types |
| Plane.AddServiceDetailsKeepsTasks | controlplane/plane.go:177-185 | adding details changes nothing in a subtask but its details |
| Plane.ValidatedPlanGetsDetails | controlplane/plane.go:149-186 | a plan that passes validation always gets its service details |
| Plane.InputOrEmpty | controlplane/plane.go:208 | the error text of a not-actionable plan is the final task's "error" input, or empty when it has none |
| Plane.CannotExecuteActionCases | controlplane/plane.go:227-229 | only a one-task plan can be refused, and exactly when its ID lower-cases to "final": "final", "Final" and "FINAL" are refused and an ID of another length never is |
| Plane.PrepareOrchestration | controlplane/plane.go:188-225 | each outcome is pinned: a project without services, a failed decomposition, a plan that fails validation and a failure to add details each set Failed with the matching message and keep the old plan; a not-actionable plan is recorded with NotActionable and the final task's "error" input; a plan that passes every check is installed with every subtask carrying its service's details and nothing else changes; ID, project and results never change |
| Plane.PrepareOrchestrationOutcome | controlplane/plane.go:188-225 | for an orchestration not already failed or refused: a Failed outcome keeps the old plan; the status is left as it was exactly when the project has services, the decomposition succeeded, the plan is actionable and it passes validation, and then the plan is the decomposed plan with every subtask valid and carrying its service's details |
| Plane.LegacyPrepareOrchestration | controlplane/main.go:125-157 | the earlier preparation fails with the matching message for a project without services, a failed decomposition and a plan that fails validation, records a not-actionable plan with NotActionable, and installs an accepted plan as decomposed, without adding details; a new Failed status keeps the old plan |
| Plane.PrepareVersionsAgree | controlplane/main.go:125-157 | the earlier and later preparations reach the same status and error, and both record a plan or neither does |
| Plane.FirstFailure | controlplane/plane.go:247-254 | the index of the first failing group, with every group before it succeeding |
| Plane.ExecutePlan | controlplane/plane.go:240-268 | groups run in list order; the status is Failed exactly when some group fails, with the first failing group's error; otherwise it is Completed and the results are the last task's result when it exists; the plan is untouched |
| Plane.ApiKeyIndex | controlplane/plane.go:329-332 | the key index maps each API key to a project holding that key |
| Plane.GetProjectByApiKey | controlplane/plane.go:328-339 | the lookup returns a project from the registry whose key matches, and fails with the not-found message exactly when no project holds the key |
| Plane.FindSubTaskById | controlplane/plane.go:387-394 | the first subtask whose ID equals the query ignoring ASCII case, or none when there is no such subtask |
| Strs.Quote | controlplane/plane.go:448 | a constant or field value is wrapped in double quotes: two characters longer, quote first and last, the value unchanged in between |
| Plane.ResolveValue | controlplane/plane.go:425-449 | a value that does not start with "$" is a constant and comes back quoted |
| Plane.LookupField | controlplane/plane.go:429-446 | a reference fails when the task has no result, its result cannot be decoded, or the result has no such field; otherwise it yields the field's value, quoted |
| Plane.ResolveReference | controlplane/plane.go:425-446 | "$t.f" resolves to field f of task t's result, quoted, with an error for a missing task, an undecodable result or a missing field |
| Plane.ResolveReferenceWithoutDot | controlplane/plane.go:426-427 | a reference without a dot is the out-of-range index error |
| Plane.ResolveAll | controlplane/plane.go:423-451 | resolving a whole input succeeds exactly when every value resolves, and then maps each key to its resolved value |
| Plane.PrepareInput | controlplane/plane.go:419-452 | the prepared input has the same keys as the input, each with its resolved value, or the error of some failing value |
| Plane.LegacyResolveValue | controlplane/main.go:281-291 | in the earlier version "$X" is task X's whole stored result, an error when X has none, and other values are quoted |
| Plane.LegacyPrepareInput | controlplane/main.go:276-295 | the earlier input preparation succeeds exactly when every value resolves, keeps the input's keys with their resolved values, and otherwise reports some failing value's error |
| OrchestrationLog.EmptyLog | controlplane/log.go:88-91 | a new log has no entries and its offset equals its length |
| OrchestrationLog.Append | controlplane/log.go:43-55 | appending gives the entry the current offset and advances the offset by one, so entry i has offset i; it never fails |
| OrchestrationLog.ReadFrom | controlplane/log.go:57-66 | reading from an offset at or past the end gives nothing, and otherwise the entries from that offset on |
| OrchestrationLog.ReadFromOffsets | controlplane/log.go:57-66 | every entry read from offset o has an offset of at least o and below the log's current offset |
| OrchestrationLog.ReadAfterAppend | controlplane/log.go:43-66 | reading from the old end after an append gives exactly the appended entry |
| OrchestrationLog.AppendPreservesPrefix | controlplane/log.go:43-66 | appending several entries keeps the earlier entries and puts the new ones after them in order |
| OrchestrationLog.CreateLog | controlplane/log.go:84-107 | creating installs an empty log and a state with status Processing and no completed tasks |
| OrchestrationLog.MarkTaskCompleted | controlplane/log.go:109-122 | on an existing orchestration the task joins the completed tasks, the status becomes Completed and nothing else changes; a missing one is the nil-dereference error |
| OrchestrationLog.FinalizeOrchestration | controlplane/log.go:182-194 | the log and the state are deleted only when the control plane's finalisation succeeds, and otherwise kept with its error returned |
| OrchestrationLog.FailOrchestration | controlplane/log.go:156-180 | an unknown orchestration is left alone; otherwise finalisation as Failed with the reason is requested, and its state and log are removed when that succeeds, or the state records the reason when it fails |
| OrchestrationLog.CleanupKeysEffect | controlplane/log.go:28-34 | cleanup removes exactly the stale keys from both the logs and the states, and keeps every other key with its value |
| OrchestrationLog.CleanupStaleOrchestrations | controlplane/log.go:23-35 | exactly the stale states (Completed and older than the retention period) are removed, together with their logs; everything else is unchanged |
| OrchestrationLog.SortedValues | controlplane/log.go:196-209 | one value per key, in ascending key order |
| OrchestrationLog.SortedValuesAreValues | controlplane/log.go:196-209 | every sorted value is a value of the state and every value of the state appears |
| OrchestrationLog.SortedValuesLast | controlplane/log.go:203-208 | the last sorted value belongs to the greatest key |
| OrchestrationLog.PollOnce | controlplane/taskworker.go:91-104 | one polling round delivers exactly the accepted entries read from the offset, in log order; the offset moves to one past the last delivered entry and stays put when nothing is delivered |
| TaskWorker.Poll | controlplane/taskworker.go:82-113 | the delivered entries are exactly the unread task outputs of unprocessed dependencies; only the offset changes, and it advances exactly when something is delivered, to one past the last delivered entry |
| TaskWorker.MarkingProcessedFiltersOnlyThatEntry | controlplane/taskworker.go:115-119 | only task outputs of dependencies are taken; a processed entry is not taken again, and marking one entry processed changes the decision for no entry with another ID |
| TaskWorker.CheckContainsAll | controlplane/taskworker.go:314-321 | the check holds exactly when every dependency key has a value, and vacuously for no dependencies |
| TaskWorker.ProcessEntry | controlplane/taskworker.go:121-146 | the entry's value is always stored; the task runs only once every dependency has a value, and the entry is marked processed only after a successful run, with a failure appended otherwise |
| TaskWorker.ProcessedOnlyAfterSuccess | controlplane/taskworker.go:130-137 | an entry is marked processed exactly when the task ran and succeeded |
| TaskWorker.NothingRunsBeforeAllDependencies | controlplane/taskworker.go:121-128 | over any sequence of entries, the task runs only at an entry after which every dependency has a value |
| TaskWorker.IsRetryableError | controlplane/taskworker.go:323-333 | an error is retryable exactly when its lower-cased message contains one of the four fixed phrases |
| TaskWorker.RetryableClassification | controlplane/taskworker.go:323-333 | the worker's own timeout and send-failure messages are retryable, and the paused message is not |
| TaskWorker.Operation | controlplane/taskworker.go:152-183 | a failed pause check or a paused task is a permanent error; a failure count above five is permanent; a retryable error is retried with the count raised; another error is permanent; success resets the count |
| TaskWorker.RetryLoop | controlplane/taskworker.go:185-200 | the loop makes at least one attempt and never more than it is given |
| TaskWorker.FailuresAreBounded | controlplane/taskworker.go:169-174 | a task whose every attempt fails ends in an error after at most six attempts from a zero count |
| TaskWorker.PausedStopsAtOnce | controlplane/taskworker.go:158-163 | a paused task stops after one attempt, with the permanent paused error |
| TaskWorker.SuccessAfterRetries | controlplane/taskworker.go:169-182 | a task that succeeds after k retryable failures, with the count staying within five, returns its result after k + 1 attempts |
| TaskWorker.ExecuteTaskStart | controlplane/taskworker.go:203-224 | an existing Completed execution returns its stored result, and a Failed one its stored error, both without sending a task; a task is sent exactly when initialisation hands out a new execution, which the caller then owns; otherwise the caller waits for the running execution |
| TaskWorker.NoResendAfterCompletion | controlplane/taskworker.go:208-217 | once an execution has recorded a result, starting it again never sends the task |
| TaskWorker.FormatInputs | controlplane/taskworker.go:350-352 | one "k:v" line per enumerated dependency entry |
| TaskWorker.SortedInputs | controlplane/taskworker.go:348-355 | the lines form the sorted permutation of one "k:v" line per dependency entry |
| TaskWorker.SortedInputsIgnoreRangeOrder | controlplane/taskworker.go:348-355 | the sorted inputs are the same whichever order the map is enumerated in |
| TaskWorker.IdempotencyPreimage | controlplane/taskworker.go:335-346 | the idempotency key's input is the orchestration ID, the task ID and the sorted inputs, in that order |
| TaskWorker.PreimageIgnoresRangeOrder | controlplane/taskworker.go:335-346 | the idempotency key depends only on the orchestration ID, the task ID and the dependency state, not on map order |
| ResultAggregator.Poll | controlplane/result.go:57-85 | the delivered entries are exactly the unread task outputs of dependencies; only the offset changes, and it advances exactly when something is delivered, to one past the last delivered entry |
| ResultAggregator.RedeliveredOutputIsSkipped | controlplane/result.go:87-96 | the aggregator takes what a task worker with the same dependencies takes, plus the outputs it has already processed, and processing such an output again changes nothing |
| ResultAggregator.ProcessEntry | controlplane/result.go:92-114 | a processed entry is a no-op; otherwise the value is stored, and once every dependency has a value the entry is marked processed and the orchestration is finalised with the value of the greatest dependency key, or the missing-orchestration panic is raised |
| ResultAggregator.FinalizesWithGreatestDependency | controlplane/result.go:105-113 | when the last missing dependency of a known orchestration arrives, the aggregator finalises with the value stored under the greatest dependency key |
| ResultAggregator.HandleEntry | controlplane/result.go:36-54 | a panic crashes the worker; a failed finalisation stops it and fails the orchestration with the aggregator's reason when the orchestration still exists; otherwise it continues with the new state |
| ResultAggregator.FinalizeErrorIsReported | controlplane/result.go:39-48 | a failed finalisation leads to failing the orchestration with that error |
| FailureTracker.Poll | controlplane/failure.go:53-84 | the delivered entries are exactly the unread task failures; only the offset changes, and it advances exactly when something is delivered, to one past the last delivered entry |
| FailureTracker.FailuresReachOnlyTheTracker | controlplane/failure.go:86-88 | a failure entry is taken by the failure tracker and by no task worker or aggregator, whatever their dependencies, and the tracker takes nothing they take |
| FailureTracker.FailureReason | controlplane/failure.go:94-109 | the reason starts with the entry's ID member and ends with the entry's value as the error member |
| FailureTracker.ProcessEntry | controlplane/failure.go:90-117 | the entry is marked processed; an encoding error or a failed status lookup aborts; otherwise the orchestration is finalised with the looked-up status, the reason and no result |
| FailureTracker.ReasonNamesTheEntry | controlplane/failure.go:94-106 | equal reasons for the same orchestration name the same entry, when entry IDs hold no quote |
| Idempotency.ExecutionStateString | controlplane/idempotency.go:24-26 | the name is the entry of the table ["in_progress", "completed", "failed"] at the state's iota code |
| Idempotency.ExecutionStateStringInjective | controlplane/idempotency.go:24-26 | distinct execution states have distinct codes and distinct names |
| Idempotency.NewIdempotencyStore | controlplane/idempotency.go:46-59 | a new store is empty and a TTL of zero becomes 24 hours |
| Idempotency.InitializeExecution | controlplane/idempotency.go:79-112 | an unknown key starts a new InProgress execution with a 30-second lease; a finished one is returned unchanged; an expired lease is taken over with a new execution ID, start time and lease; a live lease is returned unchanged |
| Idempotency.RenewLease | controlplane/idempotency.go:114-125 | the lease is extended only for an InProgress execution held by the same execution ID, and otherwise nothing changes |
| Idempotency.UpdateExecutionResult | controlplane/idempotency.go:127-140 | a known key becomes Completed without an error and Failed with one, with a fresh timestamp; an unknown key is a no-op |
| Idempotency.GetExecutionWithResult | controlplane/idempotency.go:142-158 | the lookup returns the stored execution for a known key and nothing otherwise |
| Idempotency.ClearResult | controlplane/idempotency.go:160-165 | clearing removes exactly that key |
| Idempotency.Cleanup | controlplane/idempotency.go:67-77 | cleanup keeps exactly the executions whose timestamp is not older than the TTL |
| Idempotency.DeleteExpired | controlplane/idempotency.go:72-76 | the remaining keys are exactly those not listed or not expired, with their executions unchanged |
| Idempotency.InitializedOwnerCanRenew | controlplane/idempotency.go:102-125 | whoever starts or takes over an execution can renew its lease |
| Idempotency.TakeoverRevokesPreviousOwner | controlplane/idempotency.go:89-95 | after a takeover the previous owner can no longer renew |
| Idempotency.LiveLeaseIsExclusive | controlplane/idempotency.go:96-98 | while a lease is live, a second caller gets no new execution, the store is unchanged and the owner keeps it |
| Idempotency.RecordedResultIsFinal | controlplane/idempotency.go:85-88 | once a result is recorded, initializing again returns it unchanged and never starts a new execution |
| WebSocket.NewManager | controlplane/websocket.go:13-29 | a new manager has no connections, no queues and a 24-hour expiry |
| WebSocket.Push | controlplane/websocket.go:211-215 | a queue below the bound gets the message appended; a full queue drops its front first, so the bound holds and the message is last |
| WebSocket.QueueMessage | controlplane/websocket.go:200-216 | queueing creates the service's queue on first use and appends the message, dropping the oldest when the queue is full; other queues are untouched |
| WebSocket.QueueMessageKeepsBound | controlplane/websocket.go:211-215 | no queue ever exceeds 1000 messages |
| WebSocket.PushIsWindow | controlplane/websocket.go:211-215 | a push leaves the newest messages, at most the bound, of the old queue plus the message |
| WebSocket.PushAllKeepsNewest | controlplane/websocket.go:200-216 | after any number of pushes the queue holds exactly the newest messages, at most 1000, in arrival order |
| WebSocket.KeepFresh | controlplane/websocket.go:294-300 | only unexpired messages of the queue are kept, and every unexpired one is |
| WebSocket.KeepFreshAppend | controlplane/websocket.go:294-300 | expiry filters the parts of a queue independently |
| WebSocket.KeepFreshIdempotent | controlplane/websocket.go:285-304 | a second cleanup at the same time removes nothing |
| WebSocket.CleanupExpiredMessages | controlplane/websocket.go:285-304 | every queue loses exactly its expired messages and keeps the rest in order |
| WebSocket.SendQueuedMessagesAsWritten | controlplane/websocket.go:60-76 | as written, one call handles only the front message: an empty queue is unchanged; an expired front is dropped unsent; a live front is sent and removed when its write succeeds and stays queued, with nothing sent, when it fails |
| WebSocket.AsWrittenIsFirstFlushStep | controlplane/websocket.go:60-76 | on a working connection the as-written call is the first step of the intended flush: flushing what it leaves and appending the sends gives the full flush of the queue |
| WebSocket.FlushQueue | controlplane/websocket.go:60-76 | what stays queued is a suffix of the queue; when anything stays, its first message is live and exactly the allowed number of writes went out |
| WebSocket.FlushQueueConserves | controlplane/websocket.go:60-76 | the messages sent, followed by the live messages left queued, are exactly the live messages of the queue in order |
| WebSocket.FlushQueueDeliversAll | controlplane/websocket.go:60-76 | on a working connection every live message is sent in order and the queue ends empty |
| WebSocket.SendQueuedMessagesStopsEarly | controlplane/websocket.go:60-76 | with two live messages and a working connection, only the first is sent and the second stays queued |
| WebSocket.SendQueuedMessages | controlplane/websocket.go:48-77 | a service without a queue sends nothing; otherwise only its front message is handled, as the as-written loop does it, the other queues are untouched and the bound still holds |
| WebSocket.SendQueuedMessagesIntended | controlplane/websocket.go:48-77 | with the loop corrected, a service without a queue sends nothing; otherwise its queue is flushed in full, the other queues are untouched and the bound still holds |
| WebSocket.AcknowledgeMessageReceived | controlplane/websocket.go:128-152 | a pong is never acknowledged, and any other ID gets an ACK message carrying that ID |
| WebSocket.ParseError | controlplane/websocket.go:171-176 | the empty string is no error, and any other string is an error with that message |
| Fmt.FormatOfPlainText | controlplane/websocket.go:171-176 | an error text without a percent sign keeps its message verbatim |
| Fmt.FormatOfEscaped | controlplane/websocket.go:171-176 | any text whose percent signs are doubled comes back unchanged |
| Fmt.PercentFlagsVerb | controlplane/websocket.go:175 | a percent sign, flags and a verb letter print that verb's missing-operand text, and formatting resumes after the verb |
| Fmt.DiskFullExample | controlplane/websocket.go:175 | the error text "disk 100% full" becomes the message "disk 100%!f(MISSING)ull" |
| Fmt.TrailingPercent | controlplane/websocket.go:175 | a trailing percent sign prints "%!(NOVERB)" |
| WebSocket.ErrorMessage | controlplane/websocket.go:164-175 | there is an error message exactly when there is an error, and it is the error text as `fmt` prints it with no operands; text without a percent sign is kept verbatim |
| WebSocket.SendTask | controlplane/websocket.go:178-198 | a marshalling error is reported; a task to a service that is not connected is dropped without queueing and without an error; one to a connected service is written |
| WebSocket.HandleMessage | controlplane/websocket.go:87-126 | a message that fails to parse is neither dispatched nor acknowledged; otherwise it is dispatched by type and then acknowledged |
| WebSocket.TaskResultSettlesExecution | controlplane/websocket.go:154-175 | a task result records the execution's outcome: Completed without an error, and Failed with the error text as `fmt` prints it, which is the text itself when it holds no percent sign |
| Health.NewHealthCoordinator | controlplane/health.go:7-14 | a new coordinator has no recorded health |
| Health.RestartTask | controlplane/health.go:68-76 | restarting a task stops its worker and then starts a new one for the same task |
| Health.AllPairs | controlplane/health.go:50-51 | the enumeration lists exactly the (orchestration, task) pairs of the active orchestrations |
| Health.RestartIfUnfinished | controlplane/health.go:51-63 | a task is restarted (stop, then start of the same task) exactly when its completion check says not completed; a completed task causes no stop and no start |
| Health.RestartAll | controlplane/health.go:46-66 | every enumerated task whose completion check says not completed gets exactly one stop of its worker followed at once by a start of the same task; no other task is stopped or started and no update is issued |
| Health.HandleServiceHealthChange | controlplane/health.go:16-31 | a report equal to the recorded one does nothing; any other report is recorded; an unhealthy one pauses Processing orchestrations; a healthy one resumes Paused orchestrations and then restarts tasks |
| Health.RepeatedReportIsIgnored | controlplane/health.go:17-21 | reporting the same health twice makes the second report do nothing |
| Health.UnhealthyRestartsNothing | controlplane/health.go:24-27 | an unhealthy report only pauses orchestrations and restarts no task |
| Health.RecoveryRestartsExactlyUnfinished | controlplane/health.go:29-66 | on recovery a task of an active orchestration is started exactly when its completion check reports it unfinished, a worker is stopped exactly for such a task's ID, and every stop is followed at once by its start |
| Config.StatusCode | controlplane/config.go:43-53 | every status code lies between 1 and 7 |
| Config.CodeString | controlplane/config.go:55-57 | a code has a name exactly when it lies between 1 and 7, and that name is the one at position code - 1 |
| Config.StatusString | controlplane/config.go:55-57 | a status's name is one of the seven names, and the unmarshalling switch maps it back to that status |
| Config.StatusStringInjective | controlplane/config.go:55-57 | distinct statuses have distinct codes and distinct names |
| Config.StatusByNameOfString | controlplane/config.go:68-85 | each status's own name is recognised as that status |
| Config.StatusByNameCorrect | controlplane/config.go:68-85 | a recognised name is exactly the name of the status it gives, and an unrecognised one names no status |
| Config.MarshalStatus | controlplane/config.go:59-61 | a status is marshalled as a JSON string holding its name |
| Config.UnmarshalStatus | controlplane/config.go:63-87 | with the error corrected: a value that is not a JSON string is an error; a parsed status's name equals the text lower-cased and trimmed; an unknown name fails with "invalid Status: " and the input text |
| Config.ReceiverText | controlplane/config.go:55-57 | a code between 1 and 7 prints as its name, and any other code as the recovered index-out-of-range panic of `String` |
| Config.UnmarshalStatusAsWritten | controlplane/config.go:63-87 | as written, decoding succeeds exactly when the corrected decoding does, with the same status, and an unknown name fails with "invalid Status: " and the receiver's text, not the input |
| Config.AsWrittenErrorIgnoresInput | controlplane/config.go:84 | as written, any two unknown names give the same error |
| Config.AsWrittenStatusErrorOnZero | controlplane/config.go:84 | decoding "bogus" into a zero status reports the recovered panic text as written, and "invalid Status: bogus" when corrected |
| Config.StatusRoundTrip | controlplane/config.go:59-87 | unmarshalling a marshalled status gives it back |
| Config.StatusParseIgnoresCaseAndSpace | controlplane/config.go:68 | upper-case letters and surrounding white space do not change the parsed status |
| Config.ServiceTypeCode | controlplane/config.go:89-94 | Agent is 0 and Service is 1 |
| Config.ServiceTypeString | controlplane/config.go:96-98 | the name is "agent" exactly for Agent and "service" exactly for Service |
| Config.MarshalServiceType | controlplane/config.go:100-102 | a service type is marshalled as a JSON string holding its name |
| Config.UnmarshalServiceType | controlplane/config.go:104-118 | a value that is not a JSON string is an error; a parsed type's name equals the text lower-cased and trimmed; an unknown name fails with "invalid ServiceType: " and the input text |
| Config.ServiceTypeRoundTrip | controlplane/config.go:96-118 | unmarshalling a marshalled service type gives it back |
| Config.ExtractDependencyId | controlplane/config.go:24 | where the pattern matches, the text between the leading "$" and the first dot; the empty string exactly when it does not match |
| Config.ExtractDependencyIdOf | controlplane/config.go:24 | "$" followed by a dot-free, non-empty ID and a dot always yields that ID |
| Config.ExtractDependencyIdAt | controlplane/config.go:24 | a value starting with "$" whose first dot follows at least one character yields the text between them |
| Config.ExtractDependencyIdMatches | controlplane/plane_test.go:14 | "$task0.param1" gives "task0" |
| Config.ExtractDependencyIdMatchesDashes | controlplane/plane_test.go:15 | an ID with dashes is extracted whole |
| Config.ExtractDependencyIdRejects | controlplane/plane_test.go:16-19 | "$task0", "$.invalid", "notadependency" and "" give the empty string |
| Middleware.ParseAuthorization | controlplane/middleware.go:13-25 | an empty header is missing; an accepted header splits at single spaces into exactly "Bearer" and the key |
| Middleware.APIKeyMiddleware | controlplane/middleware.go:11-33 | the next handler runs exactly when the header is accepted, with the key stored under "api_key"; a rejection answers Unauthorized with the matching message |
| Middleware.AcceptedHeaders | controlplane/middleware.go:19-25 | a header is accepted with a given key exactly when it is "Bearer " followed by that key and the key has no space |
| Middleware.BearerWithEmptyKey | controlplane/middleware.go:19-25 | "Bearer " is accepted with the empty key |
| Middleware.DoubleSpaceRejected | controlplane/middleware.go:19-23 | a header with two spaces after Bearer is rejected as invalid |
| Middleware.LowerCaseSchemeRejected | controlplane/middleware.go:20 | the scheme is compared case-sensitively, so "bearer" is rejected |
| Base32.Padding | libs/cli/orra_cli/local.py:9 | the padding lies between 0 and 4, makes the length a multiple of 5, and is zero exactly for a multiple of 5 |
| Base32.Zeros | libs/cli/orra_cli/local.py:10 | the padding is that many zero bytes |
| Base32.BlockChars | libs/cli/orra_cli/local.py:13-14 | a block's eight characters are the alphabet characters at its eight 5-bit digits |
| Base32.EncodeBlocks | libs/cli/orra_cli/local.py:11-14 | eight characters per five-byte block |
| Base32.EncodeBlocksAt | libs/cli/orra_cli/local.py:11-14 | the character at position i comes from block i / 8, at digit i mod 8 |
| Base32.EncodedLength | libs/cli/orra_cli/local.py:9-15 | the padded length times eight is a whole number of five-byte blocks times eight, and at least the padding, so the cut is well defined |
| Base32.EncodeWith | libs/cli/orra_cli/local.py:7-15 | the output length is 8(n + padding)/5 - padding |
| Base32.CustomBase32Encode | libs/cli/orra_cli/local.py:7-15 | the output has length 8(n + padding)/5 - padding, is empty exactly for empty input, and takes every character from the alphabet |
| Base32.CustomBase32EncodeIntended | libs/cli/orra_cli/local.py:12-14 | the corrected encoder keeps the length, the empty case and the alphabet of the original |
| Base32.AsWrittenReadsFirstByte | libs/cli/orra_cli/local.py:12-14 | as written, each block's characters are its first byte's low five bits, then its high three bits, then six zero digits |
| Base32.GenId | libs/cli/orra_cli/local.py:18-20 | a generated ID has six characters |
| Base32.GenIdIntended | libs/cli/orra_cli/local.py:18-20 | the corrected ID has six characters |
| Base32.EncodeStrDistinct | libs/cli/orra_cli/local.py:4 | the alphabet's 32 characters are distinct |
| Base32.GenIdDependsOnlyOnFirstByte | libs/cli/orra_cli/local.py:12-14 | as written, two byte strings give the same ID exactly when their first bytes are equal |
| Base32.GenIdCollision | libs/cli/orra_cli/local.py:18-20 | as written, [0,0,0] and [0,1,0] give the same ID |
| Base32.GenIdIntendedInjective | libs/cli/orra_cli/local.py:18-20 | with the corrected encoding, distinct three-byte inputs give distinct IDs |
| ChatApp.TrimNonEmpty | examples/ecommerce-chat-js/chat-app/server.js:33-35 | at most as many parts as pieces, each non-empty and already trimmed, and a text is a part exactly when it is a non-empty trimmed piece |
| ChatApp.TrimNonEmptyCounts | examples/ecommerce-chat-js/chat-app/server.js:33-35 | no part is empty, and each non-empty trimmed piece is kept as many times as it occurs, so nothing is merged or duplicated |
| ChatApp.SplitAndTrim | examples/ecommerce-chat-js/chat-app/server.js:21-36 | a missing or empty message gives no parts; every part is trimmed, non-empty and free of ".", "!", "?" and ":" |
| ChatApp.TrimNonEmptyAvoids | examples/ecommerce-chat-js/chat-app/server.js:27-35 | trimming and filtering keep the parts free of the delimiters |
| ChatApp.Trimmed | examples/ecommerce-chat-js/chat-app/server.js:34 | each piece trimmed, one for one |
| ChatApp.TrimNonEmptyKeepsOrder | examples/ecommerce-chat-js/chat-app/server.js:33-35 | the parts are a subsequence of the trimmed pieces |
| ChatApp.SplitAndTrimKeepsOrder | examples/ecommerce-chat-js/chat-app/server.js:30-35 | the parts keep the order of the message's sentences |
| ChatApp.SelectPayload | examples/ecommerce-chat-js/chat-app/server.js:60-71 | the action is the first part or the default action, and the product description is the second part or the default description |
| ChatApp.TwoSentences | examples/ecommerce-chat-js/chat-app/server.js:60-71 | "a.b" with two clean sentences selects a as the action and b as the product description |
| ChatApp.EmptyMessageGetsDefaults | examples/ecommerce-chat-js/chat-app/server.js:22-24 | a missing or empty message selects both defaults |
| DeliveryAgent.RetryWithBackoff | examples/ecommerce-chat-js/delivery-agent/agent.js:317-329 | only a 429 error is retried, and only while fewer than five retries are made; every earlier call was rate limited; the delay before retry r is 1000 * 2^r ms; the caller sees the last call's outcome |
| DeliveryAgent.AtMostSixCalls | examples/ecommerce-chat-js/delivery-agent/agent.js:321-325 | from the top, the call is made at most six times, waiting 1, 2, 4, 8 and 16 seconds |
| DeliveryAgent.OtherErrorsAreNotRetried | examples/ecommerce-chat-js/delivery-agent/agent.js:320-327 | an error other than 429 is rethrown at once, without waiting |
| DeliveryAgent.PersistentRateLimit | examples/ecommerce-chat-js/delivery-agent/agent.js:321-327 | a call that is always rate limited is made six times and its last error is rethrown |
| DeliveryAgent.FindJsonBlock | examples/ecommerce-chat-js/delivery-agent/agent.js:301 | the match starts at the first opening fence and ends at the first closing fence after it, and there is none when no closing fence follows an opening fence |
| DeliveryAgent.ExtractJson | examples/ecommerce-chat-js/delivery-agent/agent.js:301-307 | fails with the no-JSON message exactly when no block is found; otherwise the text between the found block's fences |
| DeliveryAgent.ExtractAndParseJson | examples/ecommerce-chat-js/delivery-agent/agent.js:299-315 | a missing block is the no-JSON error; otherwise the parsed block, or the parse error's message with the parse-failure prefix |
| DeliveryAgent.ExtractFromDocument | examples/ecommerce-chat-js/delivery-agent/agent.js:301-307 | a block written between fences comes back unchanged, when no opening fence comes earlier and the block holds no closing fence |
| DraftIssues.Details | examples/dependabot/steps/draft_issues/main.py:118-123 | an entry renders as four parts, the first being "- Software Package: " and the package name and the last the separator |
| DraftIssues.EntryBlock | examples/dependabot/steps/draft_issues/main.py:118-124 | an entry's block starts with its package line and ends with a blank line and the separator |
| DraftIssues.Blocks | examples/dependabot/steps/draft_issues/main.py:116-124 | one block per entry, in input order |
| DraftIssues.FormatPackageUpdates | examples/dependabot/steps/draft_issues/main.py:115-126 | the text is empty exactly for no entries, and otherwise starts with the first entry's package line |
| DraftIssues.FormatSnoc | examples/dependabot/steps/draft_issues/main.py:124-125 | one more entry adds a blank line and its block at the end |
| DraftIssues.FormatSingle | examples/dependabot/steps/draft_issues/main.py:115-126 | a single entry renders as its block alone |
| DraftIssues.RunDraftIssues | examples/dependabot/steps/draft_issues/main.py:99-107 | no result exactly for an empty list; otherwise the formatted, non-empty text |

## Left out

- Langgraph's `compile` and `invoke` and FastAPI's route wiring: their code is not part of this model. `Workflow.Execute` records the invocation with the empty state and goes no further.
- HTTP handlers, server bootstrap and logging setup: they are I/O wiring with no logic of their own to model.
- LLM calls (`decomposeAction`, the agent calls, the dependabot crew) and prompt text: their answers are parameters.
- Goroutines, tickers, channels and mutexes: the log workers' polling, `pingRoutine`, `renewLease`, `waitForResult` and the cleanup goroutine are not modelled. Each polling round and each cleanup is one function call with the current time as a parameter.
- The cenkalti backoff timing in `executeTaskWithRetry`: only the retry decisions are modelled.
- `TaskWorker.IdempotencyPreimage`: the key is the pre-image of the SHA-256 hash, because hashing adds nothing to the ordering property.
- JSON marshalling, unmarshalling and escaping: results are `map<string, string>`, the ACK and the failure reason are structured values, and `JSON.parse` is a parameter.
- Unicode white space and case folding: `TrimSpace`, `ToLower`, `EqualFold` and JavaScript's `trim` are modelled for ASCII only.
- `UpdateActiveOrchestrations` and `IsTaskCompleted` are not executed: the update appears as an effect, and an error reported by the completion check is only logged in the source.
- `MarkOrchestrationFailed` is not computed: it is a parameter.
- Types that disagree between the Go files are not reconciled: each function is modelled with its own signature. For example, `MarkTaskCompleted` returns two values while its caller expects one.
- `Idempotency.GetExecutionWithResult`: aliasing of the returned Go value is not modelled. With immutable values every read is a copy, so the copy-on-read property holds trivially.
- `Base32.CustomBase32Encode`: requires an alphabet of at least 32 characters. The source raises an index error for a shorter one.
- `Base32.GenId`: takes the three random bytes as a parameter instead of drawing them.
- `Plane.ValidateInput`: the model reports the least unsupported input key, whereas Go's map order picks one at random. The contract promises only that some unsupported key is reported.
- `Plane.GetProjectByApiKey`: when several projects share a key, the model returns the greatest project ID, whereas Go's map order picks one at random. The contract promises only that the project holds the key.
- `Plane.PrepareInput`: when several values fail, the contract promises the error of some failing value and does not say which, because Go's map order decides it.
- `Workflow.LegacyWorkflowIsJoin`: empty step names registered while the workflow string is still empty leave no trace. The workflow string joins only the surviving names, not all of them.
- `run_draft_issues`' crew output and its JSON decoding are not modelled: they belong to the LLM crew.
- Missing dictionary keys are not modelled: the entries are records, so there is no `KeyError`.
- `WebSocket.ErrorMessage`: `fmt` is modelled for format strings with no operands. Explicit argument indexes such as `%[1]d` are read as an ordinary verb, and widths and precisions are read without Go's limit of 1000000.

## Findings

| source | as written | input that shows it | evidently intended | confidence | as-written member | corrected member |
|---|---|---|---|---|---|---|
| controlplane/websocket.go:60-76 | the loop takes `e.Next()` after `queue.Remove(e)`, and removing clears that link, so one call handles at most the front message | a queue holding two live messages "a" and "b" and a working connection: only "a" is sent and "b" stays queued | send every live message in order, dropping the expired ones | not executed | WebSocket.SendQueuedMessagesStopsEarly | WebSocket.FlushQueueDeliversAll |
| libs/cli/orra_cli/local.py:12-14 | each block's value is read from `h[0]`, its first byte, so the other four bytes never reach the output | `gen_id` with bytes [0,0,0] and [0,1,0] gives the same ID | combine the block's five bytes into a 40-bit value | not executed | Base32.GenIdCollision | Base32.GenIdIntendedInjective |
| controlplane/config.go:84 | the default case formats the receiver `s` with `%+v`, not the decoded text, so the error never names the input; a zero receiver makes `String` index out of range, and `fmt` prints the recovered panic | decoding "bogus" into a zero `Status` gives "invalid Status: %!v(PANIC=String method: runtime error: index out of range [-1])" | name the input, as `ServiceType` does at config.go:115 | not executed | Config.AsWrittenStatusErrorOnZero | Config.UnmarshalStatus |
