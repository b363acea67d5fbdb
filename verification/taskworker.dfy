/**
  The task worker (`controlplane/taskworker.go`): it waits for the outputs
  of the tasks it depends on, runs its own task once all are present, and
  writes the output (or a failure) back to the orchestration log.

  The worker's collaborators are outside this model: the outcome of running
  the task with retries, of `MarkTaskCompleted` and of `AppendFailureToLog`
  are parameters, and what the worker asks of the log manager is returned
  as a list of effects.
 */
module TaskWorker {
  import opened Wrappers
  import opened Strs
  import opened Order
  import opened OrchestrationLog
  import opened Idempotency

  const MaxRetries: nat := 5

  datatype Worker = Worker(serviceId: string, taskId: string, dependencies: set<string>)

  /** `shouldProcess`: an output of a task this worker depends on that it has not handled yet. */
  predicate ShouldProcess(w: Worker, s: LogState, e: LogEntry) {
    e.entryType == TaskOutputType && e.id in w.dependencies && e.id !in s.processed
  }

  /**
    Marking an entry processed stops that entry from being delivered again
    and changes nothing for entries with other IDs, nor for entries of any
    other type or from tasks the worker does not depend on.
   */
  lemma MarkingProcessedFiltersOnlyThatEntry(w: Worker, s: LogState, e: LogEntry, other: LogEntry)
    ensures !ShouldProcess(w, s.(processed := s.processed + {e.id}), e)
    ensures other.id != e.id ==>
      (ShouldProcess(w, s.(processed := s.processed + {e.id}), other) <==> ShouldProcess(w, s, other))
    ensures other.entryType != TaskOutputType || other.id !in w.dependencies ==> !ShouldProcess(w, s, other)
  {
  }

  /**
    One tick of the worker's `PollLog`: entries it should process are
    delivered and move the offset; the others are skipped without moving it.
   */
  method Poll(l: Log, w: Worker, s: LogState) returns (delivered: seq<LogEntry>, r: LogState)
    requires WellFormed(l)
    ensures forall e :: e in delivered <==> e in ReadFrom(l, s.lastOffset) && ShouldProcess(w, s, e)
    ensures r == s.(lastOffset := r.lastOffset)
    ensures |delivered| == 0 <==> r.lastOffset == s.lastOffset
    ensures |delivered| > 0 ==> s.lastOffset < r.lastOffset <= l.currentOffset
    ensures |delivered| > 0 ==> r.lastOffset == delivered[|delivered| - 1].offset + 1
  {
    var newOffset;
    delivered, newOffset := PollOnce(l, s.lastOffset, e => ShouldProcess(w, s, e));
    FilterMembers(ReadFrom(l, s.lastOffset), e => ShouldProcess(w, s, e));
    r := s.(lastOffset := newOffset);
  }

  /** `containsAll` as the Go loop does it: stop at the first dependency without an output. */
  method CheckContainsAll(s: map<string, string>, deps: set<string>) returns (b: bool)
    ensures b <==> deps <= s.Keys
    ensures deps == {} ==> b
  {
    var ids := SortedKeys(deps);
    var i := 0;
    while i < |ids|
      invariant 0 <= i <= |ids|
      invariant forall j :: 0 <= j < i ==> ids[j] in s
    {
      if ids[i] !in s {
        return false;
      }
      i := i + 1;
    }
    return true;
  }

  /** What `processEntry` asks of the log manager, in order. */
  datatype Effect =
    | MarkCompleted(oid: string, taskId: string)
    | AppendFailure(oid: string, taskId: string, serviceId: string, reason: string)
    | AppendOutput(oid: string, entryType: string, id: string, value: string, producerId: string)

  datatype Step = Step(state: LogState, effects: seq<Effect>, error: Option<string>)

  /**
    `processEntry`. `exec` is what `executeTaskWithRetry` returns, `markErr`
    what `MarkTaskCompleted` returns and `appendErr` what
    `AppendFailureToLog` returns (and so what `processEntry` returns on a
    failure path).
   */
  function ProcessEntry(
    w: Worker, s: LogState, entry: LogEntry, oid: string,
    exec: Result<string, string>, markErr: Option<string>, appendErr: Option<string>)
    : (r: Step)
    ensures r.state.dependencyState == s.dependencyState[entry.id := entry.value]
    ensures r.state.lastOffset == s.lastOffset
    ensures !ContainsAll(r.state.dependencyState, w.dependencies) ==>
      r.effects == [] && r.state.processed == s.processed && r.error == None
    ensures ContainsAll(r.state.dependencyState, w.dependencies) && exec.Failure? ==>
      && r.effects == [AppendFailure(oid, w.taskId, w.serviceId, exec.error)]
      && r.state.processed == s.processed
      && r.error == appendErr
    ensures ContainsAll(r.state.dependencyState, w.dependencies) && exec.Success? ==>
      && r.state.processed == s.processed + {entry.id}
      && |r.effects| == 2 && r.effects[0] == MarkCompleted(oid, entry.id)
      && (markErr.Some? ==> r.effects[1] == AppendFailure(oid, w.taskId, w.serviceId, markErr.value) && r.error == appendErr)
      && (markErr.None? ==> r.effects[1] == AppendOutput(oid, TaskOutputType, w.taskId, exec.value, w.serviceId) && r.error == None)
  {
    var stored := s.(dependencyState := s.dependencyState[entry.id := entry.value]);
    if !ContainsAll(stored.dependencyState, w.dependencies) then Step(stored, [], None)
    else if exec.Failure? then
      Step(stored, [AppendFailure(oid, w.taskId, w.serviceId, exec.error)], appendErr)
    else
      var done := stored.(processed := stored.processed + {entry.id});
      if markErr.Some? then
        Step(done, [MarkCompleted(oid, entry.id), AppendFailure(oid, w.taskId, w.serviceId, markErr.value)], appendErr)
      else
        Step(done, [MarkCompleted(oid, entry.id), AppendOutput(oid, TaskOutputType, w.taskId, exec.value, w.serviceId)], None)
  }

  /**
    The entry is marked processed only by a successful execution, and then
    it is not delivered again.
   */
  lemma ProcessedOnlyAfterSuccess(
    w: Worker, s: LogState, entry: LogEntry, oid: string,
    exec: Result<string, string>, markErr: Option<string>, appendErr: Option<string>)
    requires ShouldProcess(w, s, entry)
    ensures var r := ProcessEntry(w, s, entry, oid, exec, markErr, appendErr);
      (entry.id in r.state.processed <==> exec.Success? && w.dependencies <= r.state.dependencyState.Keys)
      && (entry.id in r.state.processed ==> !ShouldProcess(w, r.state, entry))
  {
  }

  /** Handles a run of delivered entries one after another, collecting the effects. */
  function ProcessAll(
    w: Worker, s: LogState, entries: seq<LogEntry>, oid: string,
    exec: Result<string, string>, markErr: Option<string>, appendErr: Option<string>)
    : (r: (LogState, seq<Effect>))
    decreases |entries|
  {
    if |entries| == 0 then (s, [])
    else
      var step := ProcessEntry(w, s, entries[0], oid, exec, markErr, appendErr);
      var rest := ProcessAll(w, step.state, entries[1..], oid, exec, markErr, appendErr);
      (rest.0, step.effects + rest.1)
  }

  /** The IDs of a run of entries. */
  function Ids(entries: seq<LogEntry>): (r: set<string>)
    ensures forall id :: id in r <==> exists i :: 0 <= i < |entries| && entries[i].id == id
  {
    set i | 0 <= i < |entries| :: entries[i].id
  }

  /**
    While some dependency has neither an output in the state nor an entry in
    the run, handling the run only stores values: nothing is executed,
    nothing is appended and nothing is marked processed.
   */
  lemma {:induction false} NothingRunsBeforeAllDependencies(
    w: Worker, s: LogState, entries: seq<LogEntry>, oid: string,
    exec: Result<string, string>, markErr: Option<string>, appendErr: Option<string>, missing: string)
    requires missing in w.dependencies && missing !in s.dependencyState && missing !in Ids(entries)
    ensures var r := ProcessAll(w, s, entries, oid, exec, markErr, appendErr);
      && r.1 == []
      && r.0.processed == s.processed
      && r.0.dependencyState.Keys == s.dependencyState.Keys + Ids(entries)
      && missing !in r.0.dependencyState
    decreases |entries|
  {
    if |entries| > 0 {
      var step := ProcessEntry(w, s, entries[0], oid, exec, markErr, appendErr);
      assert entries[0].id != missing;
      assert !ContainsAll(step.state.dependencyState, w.dependencies);
      assert missing !in Ids(entries[1..]) by {
        forall i | 0 <= i < |entries[1..]| ensures entries[1..][i].id != missing {
          assert entries[1..][i] == entries[i + 1];
        }
      }
      NothingRunsBeforeAllDependencies(w, step.state, entries[1..], oid, exec, markErr, appendErr, missing);
      assert Ids(entries) == {entries[0].id} + Ids(entries[1..]) by {
        forall id | id in Ids(entries) ensures id in {entries[0].id} + Ids(entries[1..]) {
          var i :| 0 <= i < |entries| && entries[i].id == id;
          if i > 0 { assert entries[1..][i - 1] == entries[i]; }
        }
      }
    }
  }

  // ---------------------------------------------------------------------
  // Error classification and the retry operation
  // ---------------------------------------------------------------------

  const RetryablePhrases: seq<string> :=
    ["task execution timed out", "failed to send task", "failed to read result", "rate limit exceeded"]

  /** `isRetryableError`: the lower-cased message contains one of the four phrases. */
  function IsRetryableError(msg: string): (b: bool)
    ensures b <==> exists p :: p in RetryablePhrases && Contains(ToLower(msg), p)
  {
    var m := ToLower(msg);
    Contains(m, RetryablePhrases[0]) || Contains(m, RetryablePhrases[1]) ||
    Contains(m, RetryablePhrases[2]) || Contains(m, RetryablePhrases[3])
  }

  /**
    How the worker's own error messages classify: a result timeout and a
    failed send are retried; a pause is not.
   */
  lemma RetryableClassification(taskId: string, serviceId: string, cause: string)
    ensures IsRetryableError("task execution timed out waiting for result")
    ensures IsRetryableError("failed to send task " + taskId + " for service " + serviceId + ": " + cause)
    ensures !IsRetryableError("task is paused")
  {
    TimeoutIsRetryable();
    SendFailureIsRetryable(taskId, serviceId, cause);
    NoPhraseIn("task is paused");
  }

  lemma TimeoutIsRetryable()
    ensures IsRetryableError("task execution timed out waiting for result")
  {
    var timeout := "task execution timed out waiting for result";
    assert timeout[..24] == RetryablePhrases[0];
    LowerPrefix(timeout, RetryablePhrases[0]);
  }

  lemma SendFailureIsRetryable(taskId: string, serviceId: string, cause: string)
    ensures IsRetryableError("failed to send task " + taskId + " for service " + serviceId + ": " + cause)
  {
    var send := "failed to send task " + taskId + " for service " + serviceId + ": " + cause;
    var prefix := "failed to send task ";
    assert send[..19] == prefix[..19] == RetryablePhrases[1];
    LowerPrefix(send, RetryablePhrases[1]);
  }

  /** A phrase without capitals that starts a message is found in the lower-cased message. */
  lemma LowerPrefix(msg: string, p: string)
    requires IsPrefix(p, msg) && forall k :: 0 <= k < |p| ==> !('A' <= p[k] <= 'Z')
    ensures OccursAt(p, ToLower(msg), 0) && Contains(ToLower(msg), p)
  {
    var m := ToLower(msg);
    forall k | 0 <= k < |p|
      ensures m[k] == p[k]
    {
      assert msg[k] == p[k];
    }
    assert m[0..|p|] == p;
    assert OccursAt(p, m, 0);
  }

  /** A message shorter than every phrase is not retryable. */
  lemma NoPhraseIn(msg: string)
    requires |msg| < 19
    ensures !IsRetryableError(msg)
  {
  }

  /** What one run of the retry `operation` tells the backoff loop. */
  datatype OpResult = Done(output: string) | Permanent(msg: string) | Retryable(msg: string)

  /**
    The `operation` closure: `paused` is what `IsTaskPaused` returns, `exec`
    what `executeTask` returns (only consulted when the task is not paused),
    `failures` the consecutive-failure counter before the call.
   */
  function Operation(paused: Result<bool, string>, exec: Result<string, string>, failures: nat): (r: (OpResult, nat))
    ensures paused.Failure? ==> r == (Permanent("failed to get orchestration status: " + paused.error), failures)
    ensures paused == Success(true) ==> r == (Permanent("task is paused"), failures)
    ensures paused == Success(false) && exec.Success? ==> r == (Done(exec.value), 0)
    ensures paused == Success(false) && exec.Failure? ==>
      && r.1 == failures + 1
      && (r.0.Retryable? <==> failures + 1 <= MaxRetries && IsRetryableError(exec.error))
      && (r.0.Retryable? ==> r.0.msg == exec.error)
      && (failures + 1 > MaxRetries ==> r.0 == Permanent("too many consecutive failures: " + exec.error))
      && (failures + 1 <= MaxRetries && !IsRetryableError(exec.error) ==> r.0 == Permanent(exec.error))
  {
    match paused
    case Failure(e) => (Permanent("failed to get orchestration status: " + e), failures)
    case Success(true) => (Permanent("task is paused"), failures)
    case Success(false) =>
      match exec
      case Success(out) => (Done(out), 0)
      case Failure(e) =>
        var n := failures + 1;
        if n > MaxRetries then (Permanent("too many consecutive failures: " + e), n)
        else if IsRetryableError(e) then (Retryable(e), n)
        else (Permanent(e), n)
  }

  /** The inputs of one run of the operation. */
  datatype Attempt = Attempt(paused: Result<bool, string>, exec: Result<string, string>)

  /**
    `executeTaskWithRetry` over the attempts the backoff schedule allows
    (at least one): stop at the first success or permanent error; when the
    schedule runs out on a retryable error, that error is returned. The
    second component counts the attempts made.
   */
  function RetryLoop(attempts: seq<Attempt>, failures: nat): (r: (Result<string, string>, nat))
    requires |attempts| > 0
    ensures 1 <= r.1 <= |attempts|
    decreases |attempts|
  {
    var (out, n) := Operation(attempts[0].paused, attempts[0].exec, failures);
    match out
    case Done(v) => (Success(v), 1)
    case Permanent(m) => (Failure(m), 1)
    case Retryable(m) =>
      if |attempts| == 1 then (Failure("retryable error: " + m), 1)
      else
        var rest := RetryLoop(attempts[1..], n);
        (rest.0, rest.1 + 1)
  }

  /** Every attempt reaches the task and the task fails. */
  predicate AllFail(attempts: seq<Attempt>) {
    forall i :: 0 <= i < |attempts| ==> attempts[i].paused == Success(false) && attempts[i].exec.Failure?
  }

  /**
    Consecutive failures are bounded: starting from `failures`, at most
    `MaxRetries + 1 - failures` failing executions happen before the worker
    gives up, however long the backoff schedule is.
   */
  lemma {:induction false} FailuresAreBounded(attempts: seq<Attempt>, failures: nat)
    requires |attempts| > 0 && AllFail(attempts) && failures <= MaxRetries
    ensures RetryLoop(attempts, failures).0.Failure?
    ensures RetryLoop(attempts, failures).1 <= MaxRetries + 1 - failures
    decreases |attempts|
  {
    var (out, n) := Operation(attempts[0].paused, attempts[0].exec, failures);
    if out.Retryable? && |attempts| > 1 {
      assert AllFail(attempts[1..]) by {
        forall i | 0 <= i < |attempts[1..]| ensures attempts[1..][i] == attempts[i + 1] {}
      }
      FailuresAreBounded(attempts[1..], n);
    }
  }

  /** A paused task stops the loop at once with a permanent error. */
  lemma PausedStopsAtOnce(attempts: seq<Attempt>, failures: nat)
    requires |attempts| > 0 && attempts[0].paused == Success(true)
    ensures RetryLoop(attempts, failures) == (Failure("task is paused"), 1)
  {
  }

  /** A success after earlier retryable failures is returned as is. */
  lemma {:induction false} SuccessAfterRetries(attempts: seq<Attempt>, failures: nat, k: nat)
    requires k < |attempts| && failures + k <= MaxRetries
    requires forall i :: 0 <= i < k ==>
      attempts[i].paused == Success(false) && attempts[i].exec.Failure? && IsRetryableError(attempts[i].exec.error)
    requires attempts[k].paused == Success(false) && attempts[k].exec.Success?
    ensures RetryLoop(attempts, failures) == (Success(attempts[k].exec.value), k + 1)
    decreases k
  {
    if k > 0 {
      assert attempts[1..][k - 1] == attempts[k];
      forall i | 0 <= i < k - 1
        ensures attempts[1..][i] == attempts[i + 1]
      {
      }
      SuccessAfterRetries(attempts[1..], failures + 1, k - 1);
    }
  }

  // ---------------------------------------------------------------------
  // The existing-execution branch of executeTask
  // ---------------------------------------------------------------------

  /** How `executeTask` proceeds after `InitializeExecution`. */
  datatype ExecuteStart =
    | Finished(output: Option<string>)   // a stored outcome, returned without sending anything
    | Errored(msg: string)
    | WaitForExisting                    // someone else owns a live lease
    | SendNew                            // this worker owns the execution and sends the task

  function ExecuteTaskStart(store: Store, key: string, executionId: string, now: int): (r: (Store, ExecuteStart))
    ensures key in store.executions && store.executions[key].state == ExecutionCompleted ==>
      r == (store, Finished(store.executions[key].result))
    ensures key in store.executions && store.executions[key].state == ExecutionFailed ==>
      r.0 == store &&
      r.1 == (if store.executions[key].error.Some? then Errored(store.executions[key].error.value) else Finished(None))
    ensures r.1 == SendNew <==> InitializeExecution(store, key, executionId, now).isNew
    ensures r.1 == SendNew ==> Owns(r.0, key, executionId)
    ensures r.1 == WaitForExisting ==> r.0 == store && key in store.executions && store.executions[key].state == InProgress
  {
    var init := InitializeExecution(store, key, executionId, now);
    if init.isNew then (init.store, SendNew)
    else
      match init.execution.state
      case ExecutionCompleted => (init.store, Finished(init.execution.result))
      case ExecutionFailed =>
        (init.store, if init.execution.error.Some? then Errored(init.execution.error.value) else Finished(None))
      case InProgress => (init.store, WaitForExisting)
  }

  /** After a successful result is recorded, a re-run returns it and sends no new task. */
  lemma NoResendAfterCompletion(store: Store, key: string, output: Option<string>, t: int, id: string, now: int)
    requires key in store.executions
    ensures var s1 := UpdateExecutionResult(store, key, output, None, t);
      ExecuteTaskStart(s1, key, id, now) == (s1, Finished(output))
  {
  }

  // ---------------------------------------------------------------------
  // sortedInputs and the idempotency key
  // ---------------------------------------------------------------------

  /** One line of `sortedInputs`: the key, a colon, the value. */
  function InputLine(k: string, v: string): string {
    k + ":" + v
  }

  /** The lines of the dependency state, in the order `keys` enumerates it. */
  function FormatInputs(deps: map<string, string>, keys: seq<string>): (r: seq<string>)
    requires forall k :: k in keys ==> k in deps
    ensures |r| == |keys|
    ensures forall i :: 0 <= i < |keys| ==> r[i] == InputLine(keys[i], deps[keys[i]])
  {
    seq(|keys|, i requires 0 <= i < |keys| => InputLine(keys[i], deps[keys[i]]))
  }

  /** `keys` lists every key of the map exactly once, as a Go map range does. */
  predicate Enumerates(keys: seq<string>, deps: map<string, string>) {
    && (forall k :: k in keys ==> k in deps)
    && (forall k :: k in deps ==> k in keys)
    && (forall i, j :: 0 <= i < j < |keys| ==> keys[i] != keys[j])
  }

  /** `sortedInputs` with the map range in the order `keys`. */
  function SortedInputs(deps: map<string, string>, keys: seq<string>): (r: seq<string>)
    requires Enumerates(keys, deps)
    ensures Sorted(r) && |r| == |deps|
    ensures multiset(r) == multiset(FormatInputs(deps, keys))
  {
    DistinctMultiset(keys, deps.Keys);
    Sort(FormatInputs(deps, keys))
  }

  lemma {:induction false} DistinctMultiset(keys: seq<string>, s: set<string>)
    requires forall k :: k in keys <==> k in s
    requires forall i, j :: 0 <= i < j < |keys| ==> keys[i] != keys[j]
    ensures multiset(keys) == multiset(s) && |keys| == |s|
    decreases |keys|
  {
    if |keys| == 0 {
      assert s == {};
    } else {
      var x := keys[0];
      assert x in s;
      DistinctTail(keys, s);
      DistinctMultiset(keys[1..], s - {x});
      SeqMultisetCons(keys);
      SetMultisetRemove(s, x);
    }
  }

  lemma SeqMultisetCons(keys: seq<string>)
    requires |keys| > 0
    ensures multiset(keys) == multiset{keys[0]} + multiset(keys[1..])
  {
    assert keys == [keys[0]] + keys[1..];
  }

  lemma SetMultisetRemove(s: set<string>, x: string)
    requires x in s
    ensures multiset(s) == multiset{x} + multiset(s - {x}) && |s - {x}| == |s| - 1
  {
    assert s == {x} + (s - {x});
  }

  /** Without its first key, a repetition-free enumeration of `s` enumerates the rest of `s`. */
  lemma DistinctTail(keys: seq<string>, s: set<string>)
    requires |keys| > 0
    requires forall k :: k in keys <==> k in s
    requires forall i, j :: 0 <= i < j < |keys| ==> keys[i] != keys[j]
    ensures forall k :: k in keys[1..] <==> k in s - {keys[0]}
    ensures forall i, j :: 0 <= i < j < |keys[1..]| ==> keys[1..][i] != keys[1..][j]
  {
    var x := keys[0];
    forall k
      ensures k in keys[1..] <==> k in s - {x}
    {
      if k in keys[1..] {
        var j :| 0 <= j < |keys[1..]| && keys[1..][j] == k;
        assert keys[j + 1] == k;
      }
      if k in s - {x} {
        assert k in keys;
        var j :| 0 <= j < |keys| && keys[j] == k;
        assert j != 0;
        assert keys[1..][j - 1] == k;
      }
    }
    forall i, j | 0 <= i < j < |keys[1..]|
      ensures keys[1..][i] != keys[1..][j]
    {
      assert keys[1..][i] == keys[i + 1] && keys[1..][j] == keys[j + 1];
    }
  }

  lemma {:induction false} FormatInputsMultiset(deps: map<string, string>, a: seq<string>, b: seq<string>)
    requires forall k :: k in a ==> k in deps
    requires forall k :: k in b ==> k in deps
    requires multiset(a) == multiset(b)
    ensures multiset(FormatInputs(deps, a)) == multiset(FormatInputs(deps, b))
    decreases |a|, 1
  {
    if |a| == 0 {
      assert |multiset(b)| == 0;
    } else {
      assert a[0] in multiset(b);
      var j :| 0 <= j < |b| && b[j] == a[0];
      FormatInputsMultisetAt(deps, a, b, j);
    }
  }

  /** The inductive step: match the first key of `a` with position `j` of `b`. */
  lemma {:induction false} FormatInputsMultisetAt(deps: map<string, string>, a: seq<string>, b: seq<string>, j: nat)
    requires forall k :: k in a ==> k in deps
    requires forall k :: k in b ==> k in deps
    requires multiset(a) == multiset(b)
    requires |a| > 0 && j < |b| && b[j] == a[0]
    ensures multiset(FormatInputs(deps, a)) == multiset(FormatInputs(deps, b))
    decreases |a|, 0
  {
    var rest := b[..j] + b[j + 1..];
    MatchedTails(deps, a, b, j);
    FormatInputsMultiset(deps, a[1..], rest);
    FormatRemoveAt(deps, b, j);
    FormatInputsCons(deps, a);
  }

  /** Taking the first key of `a` and the matching key of `b` away leaves the same keys. */
  lemma MatchedTails(deps: map<string, string>, a: seq<string>, b: seq<string>, j: nat)
    requires forall k :: k in a ==> k in deps
    requires forall k :: k in b ==> k in deps
    requires multiset(a) == multiset(b)
    requires |a| > 0 && j < |b| && b[j] == a[0]
    ensures multiset(a[1..]) == multiset(b[..j] + b[j + 1..])
    ensures forall k :: k in a[1..] ==> k in deps
    ensures forall k :: k in b[..j] + b[j + 1..] ==> k in deps
  {
    var rest := b[..j] + b[j + 1..];
    RemoveAt(b, j);
    assert a == [a[0]] + a[1..];
    assert multiset(a[1..]) == multiset(a) - multiset{a[0]};
    assert forall k :: k in a[1..] ==> k in a;
    assert forall k :: k in rest ==> k in b;
  }

  lemma FormatInputsCons(deps: map<string, string>, a: seq<string>)
    requires |a| > 0 && forall k :: k in a ==> k in deps
    ensures multiset(FormatInputs(deps, a)) == multiset{InputLine(a[0], deps[a[0]])} + multiset(FormatInputs(deps, a[1..]))
  {
    var f := FormatInputs(deps, a);
    var g := FormatInputs(deps, a[1..]);
    forall i | 0 <= i < |g| ensures g[i] == f[i + 1] {
      assert a[1..][i] == a[i + 1];
    }
    assert f == [f[0]] + g;
  }

  lemma RemoveAt(b: seq<string>, j: nat)
    requires j < |b|
    ensures multiset(b[..j] + b[j + 1..]) == multiset(b) - multiset{b[j]}
  {
    assert b == b[..j] + [b[j]] + b[j + 1..];
  }

  lemma FormatRemoveAt(deps: map<string, string>, b: seq<string>, j: nat)
    requires j < |b| && forall k :: k in b ==> k in deps
    ensures multiset(FormatInputs(deps, b)) ==
      multiset(FormatInputs(deps, b[..j] + b[j + 1..])) + multiset{InputLine(b[j], deps[b[j]])}
  {
    var f := FormatInputs(deps, b);
    var rest := b[..j] + b[j + 1..];
    var g := FormatInputs(deps, rest);
    assert |g| == |f| - 1;
    forall i | 0 <= i < |g|
      ensures g[i] == (f[..j] + f[j + 1..])[i]
    {
      if i < j { assert rest[i] == b[i]; } else { assert rest[i] == b[i + 1]; }
    }
    assert g == f[..j] + f[j + 1..];
    RemoveAt(f, j);
  }

  /**
    `sortedInputs` does not depend on the order the map is ranged over, so
    neither does the idempotency key built from it.
   */
  lemma SortedInputsIgnoreRangeOrder(deps: map<string, string>, k1: seq<string>, k2: seq<string>)
    requires Enumerates(k1, deps) && Enumerates(k2, deps)
    ensures SortedInputs(deps, k1) == SortedInputs(deps, k2)
  {
    DistinctMultiset(k1, deps.Keys);
    DistinctMultiset(k2, deps.Keys);
    FormatInputsMultiset(deps, k1, k2);
    SortPermutationInvariant(FormatInputs(deps, k1), FormatInputs(deps, k2));
  }

  /**
    The bytes `generateIdempotencyKey` hashes: the orchestration ID, the task
    ID, then each sorted input. The SHA-256 digest itself is not modelled.
   */
  function IdempotencyPreimage(oid: string, taskId: string, deps: map<string, string>, keys: seq<string>): (r: string)
    requires Enumerates(keys, deps)
    ensures IsPrefix(oid + taskId, r)
    ensures r[|oid + taskId|..] == Concat(SortedInputs(deps, keys))
  {
    oid + taskId + Concat(SortedInputs(deps, keys))
  }

  /** Two workers with the same orchestration, task and dependency outputs hash the same bytes. */
  lemma PreimageIgnoresRangeOrder(oid: string, taskId: string, deps: map<string, string>, k1: seq<string>, k2: seq<string>)
    requires Enumerates(k1, deps) && Enumerates(k2, deps)
    ensures IdempotencyPreimage(oid, taskId, deps, k1) == IdempotencyPreimage(oid, taskId, deps, k2)
  {
    SortedInputsIgnoreRangeOrder(deps, k1, k2);
  }
}
