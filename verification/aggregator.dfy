/**
  The result aggregator (`controlplane/result.go`): it collects the outputs
  of the tasks the orchestration's result depends on and, once all are
  present, finalises the orchestration with the output of the task whose ID
  sorts last.

  The aggregator drives the log manager directly, so its steps are stated
  over the manager of `OrchestrationLog`; what the control plane answers to
  a finalisation is a parameter.
 */
module ResultAggregator {
  import opened Wrappers
  import opened Order
  import opened Config
  import opened OrchestrationLog
  import TaskWorker

  /** `shouldProcess`: an output of a dependency, processed or not. */
  predicate ShouldProcess(deps: set<string>, e: LogEntry) {
    e.entryType == TaskOutputType && e.id in deps
  }

  /**
    The aggregator filters like a task worker with the same dependencies,
    except that it lets through outputs it has already processed;
    `ProcessEntry` then skips those without touching state or manager.
   */
  lemma RedeliveredOutputIsSkipped(
    w: TaskWorker.Worker, s: LogState, e: LogEntry, oid: string, lm: LogManager, now: int, cpError: Option<string>)
    ensures TaskWorker.ShouldProcess(w, s, e) <==> ShouldProcess(w.dependencies, e) && e.id !in s.processed
    ensures ShouldProcess(w.dependencies, e) && e.id in s.processed ==>
      ProcessEntry(w.dependencies, s, e, oid, lm, now, cpError) == Step(s, lm, Skipped)
  {
  }

  /** One tick of the aggregator's `PollLog`. */
  method Poll(l: Log, deps: set<string>, s: LogState) returns (delivered: seq<LogEntry>, r: LogState)
    requires WellFormed(l)
    ensures forall e :: e in delivered <==> e in ReadFrom(l, s.lastOffset) && ShouldProcess(deps, e)
    ensures r == s.(lastOffset := r.lastOffset)
    ensures |delivered| == 0 <==> r.lastOffset == s.lastOffset
    ensures |delivered| > 0 ==> s.lastOffset < r.lastOffset <= l.currentOffset
    ensures |delivered| > 0 ==> r.lastOffset == delivered[|delivered| - 1].offset + 1
  {
    var newOffset;
    delivered, newOffset := PollOnce(l, s.lastOffset, e => ShouldProcess(deps, e));
    FilterMembers(ReadFrom(l, s.lastOffset), e => ShouldProcess(deps, e));
    r := s.(lastOffset := newOffset);
  }

  datatype Outcome =
    | Skipped                                         // already processed
    | Waiting                                         // stored; some dependency still missing
    | Finalizing(call: FinalizeCall, error: Option<string>)
    | Panicked                                        // `MarkTaskCompleted` on an unknown orchestration

  datatype Step = Step(state: LogState, manager: LogManager, outcome: Outcome)

  /**
    `processEntry`: skip a processed entry; otherwise store its value and,
    once every dependency has one, mark the entry processed, mark the task
    completed and finalise with the last of the sorted values.
   */
  function ProcessEntry(
    deps: set<string>, s: LogState, entry: LogEntry, oid: string, lm: LogManager, now: int, cpError: Option<string>)
    : (r: Step)
    ensures entry.id in s.processed ==> r == Step(s, lm, Skipped)
    ensures entry.id !in s.processed ==>
      && r.state.dependencyState == s.dependencyState[entry.id := entry.value]
      && r.state.lastOffset == s.lastOffset
    ensures entry.id !in s.processed && !ContainsAll(r.state.dependencyState, deps) ==>
      r.outcome == Waiting && r.manager == lm && r.state.processed == s.processed
    ensures entry.id !in s.processed && ContainsAll(r.state.dependencyState, deps) ==>
      && r.state.processed == s.processed + {entry.id}
      && (oid !in lm.orchestrations <==> r.outcome == Panicked)
    ensures r.outcome.Finalizing? ==>
      && oid in lm.orchestrations
      && r.outcome.error == cpError
      && r.outcome.call.oid == oid && r.outcome.call.status == Completed && r.outcome.call.reason == ""
      && |r.outcome.call.results| == 1 && r.outcome.call.results[0].Some?
      && exists k :: k in r.state.dependencyState
           && r.outcome.call.results[0].value == r.state.dependencyState[k]
           && forall y :: y in r.state.dependencyState ==> Below(y, k)
    ensures r.outcome.Finalizing? && cpError.None? ==> oid !in r.manager.orchestrations && oid !in r.manager.logs
  {
    if entry.id in s.processed then Step(s, lm, Skipped)
    else
      var stored := s.(dependencyState := s.dependencyState[entry.id := entry.value]);
      if !ContainsAll(stored.dependencyState, deps) then Step(stored, lm, Waiting)
      else
        var done := stored.(processed := stored.processed + {entry.id});
        match MarkTaskCompleted(lm, oid, entry.id, now)
        case Failure(_) => Step(done, lm, Panicked)
        case Success((lm1, completed)) =>
          var results := SortedValues(done.dependencyState);
          SortedValuesLast(done.dependencyState);
          var out := FinalizeOrchestration(lm1, oid, completed, "", Some(results[|results| - 1]), cpError);
          Step(done, out.manager, Finalizing(out.call, out.error))
  }

  /**
    The last missing dependency arrives for a known orchestration: the
    aggregator finalises, and, with the dependency state holding only
    dependencies (which is all the poller delivers), the result handed to
    the control plane is the output of the greatest dependency ID.
   */
  lemma FinalizesWithGreatestDependency(
    deps: set<string>, s: LogState, entry: LogEntry, oid: string, lm: LogManager, now: int, cpError: Option<string>)
    requires s.dependencyState.Keys <= deps && entry.id in deps && entry.id !in s.processed
    requires forall d :: d in deps ==> d == entry.id || d in s.dependencyState
    requires oid in lm.orchestrations
    ensures var r := ProcessEntry(deps, s, entry, oid, lm, now, cpError);
      && r.outcome.Finalizing?
      && (exists k :: k in deps && r.outcome.call.results == [Some(r.state.dependencyState[k])]
            && forall y :: y in deps ==> Below(y, k))
  {
    var r := ProcessEntry(deps, s, entry, oid, lm, now, cpError);
    assert ContainsAll(r.state.dependencyState, deps);
    assert r.state.dependencyState.Keys == deps;
  }

  /** What the `Start` loop does after an entry: keep going, stop after failing the orchestration, or crash. */
  datatype Run = Continue | Stopped(failCall: Option<FinalizeCall>) | Crashed

  /**
    The `Start` loop's handling of one entry: a finalisation error fails the
    orchestration with `"Result aggregator failed: "` and the error, then
    stops the aggregator. `cpFail` is the control plane's answer to that
    second finalisation.
   */
  function HandleEntry(
    deps: set<string>, s: LogState, entry: LogEntry, oid: string, lm: LogManager, now: int,
    cpError: Option<string>, cpFail: Option<string>)
    : (r: (LogState, LogManager, Run))
    ensures var step := ProcessEntry(deps, s, entry, oid, lm, now, cpError);
      && r.0 == step.state
      && (step.outcome.Panicked? <==> r.2 == Crashed)
      && (r.2.Stopped? <==> step.outcome.Finalizing? && step.outcome.error.Some?)
      && (r.2.Stopped? ==> (oid in step.manager.orchestrations <==> r.2.failCall.Some?))
      && (r.2.Stopped? && r.2.failCall.Some? ==>
            r.2.failCall.value == FinalizeCall(oid, Failed, "Result aggregator failed: " + step.outcome.error.value, [None]))
      && (r.2 == Continue ==> r.1 == step.manager)
  {
    var step := ProcessEntry(deps, s, entry, oid, lm, now, cpError);
    match step.outcome
    case Panicked => (step.state, step.manager, Crashed)
    case Finalizing(_, Some(e)) =>
      var (lm1, call) := FailOrchestration(step.manager, oid, "Result aggregator failed: " + e, now, cpFail);
      (step.state, lm1, Stopped(call))
    case _ => (step.state, step.manager, Continue)
  }

  /**
    A failed finalisation leaves the orchestration registered (the manager
    only drops it on success), so the follow-up `FailOrchestration` does
    reach the control plane.
   */
  lemma FinalizeErrorIsReported(
    deps: set<string>, s: LogState, entry: LogEntry, oid: string, lm: LogManager, now: int, e: string, cpFail: Option<string>)
    requires ProcessEntry(deps, s, entry, oid, lm, now, Some(e)).outcome.Finalizing?
    ensures HandleEntry(deps, s, entry, oid, lm, now, Some(e), cpFail).2 ==
      Stopped(Some(FinalizeCall(oid, Failed, "Result aggregator failed: " + e, [None])))
  {
  }
}
