/**
  The failure tracker (`controlplane/failure.go`): it watches the log for
  `task_failure` entries and fails the whole orchestration on the first one
  it handles.

  Encoding the failure payload is modelled as building the JSON object's
  text; whether `json.Marshal` accepts the raw error value, and what
  `MarkOrchestrationFailed` answers, are parameters.
 */
module FailureTracker {
  import opened Wrappers
  import opened Strs
  import opened Config
  import opened OrchestrationLog
  import TaskWorker
  import ResultAggregator

  /** `shouldProcess`: every failure entry, processed or not. */
  predicate ShouldProcess(e: LogEntry) {
    e.entryType == TaskFailureType
  }

  /**
    A failure entry reaches the failure tracker only: no task worker and not
    the aggregator take it, whatever they depend on; and the tracker takes
    no output entry.
   */
  lemma FailuresReachOnlyTheTracker(e: LogEntry, w: TaskWorker.Worker, s: LogState, deps: set<string>)
    ensures ShouldProcess(e) ==> !TaskWorker.ShouldProcess(w, s, e) && !ResultAggregator.ShouldProcess(deps, e)
    ensures TaskWorker.ShouldProcess(w, s, e) || ResultAggregator.ShouldProcess(deps, e) ==> !ShouldProcess(e)
  {
  }

  /** One tick of the tracker's `PollLog`. */
  method Poll(l: Log, s: LogState) returns (delivered: seq<LogEntry>, r: LogState)
    requires WellFormed(l)
    ensures forall e :: e in delivered <==> e in ReadFrom(l, s.lastOffset) && ShouldProcess(e)
    ensures r == s.(lastOffset := r.lastOffset)
    ensures |delivered| == 0 <==> r.lastOffset == s.lastOffset
    ensures |delivered| > 0 ==> s.lastOffset < r.lastOffset <= l.currentOffset
    ensures |delivered| > 0 ==> r.lastOffset == delivered[|delivered| - 1].offset + 1
  {
    var newOffset;
    delivered, newOffset := PollOnce(l, s.lastOffset, ShouldProcess);
    FilterMembers(ReadFrom(l, s.lastOffset), ShouldProcess);
    r := s.(lastOffset := newOffset);
  }

  const IdMemberHead := "{\"id\":\""

  /**
    The text `json.Marshal` gives the payload: an object with the members
    `id`, `producer`, `orchestration` and `error` in that order, the error
    value embedded raw.
   */
  function FailureReason(id: string, producer: string, oid: string, value: string): (r: string)
    ensures IsPrefix(IdMemberHead + id + "\"", r)
    ensures IsSuffix(",\"error\":" + value + "}", r)
  {
    var tail := ",\"producer\":" + Quote(producer) + ",\"orchestration\":" + Quote(oid) + ",\"error\":" + value + "}";
    assert IsSuffix(",\"error\":" + value + "}", tail);
    var r := IdMemberHead + id + "\"" + tail;
    assert r == (IdMemberHead + id + "\"") + tail;
    r
  }

  datatype Outcome =
    | Aborted(reason: string)                          // marshalling or `MarkOrchestrationFailed` failed
    | Finalizing(call: FinalizeCall, error: Option<string>)

  datatype Step = Step(state: LogState, manager: LogManager, outcome: Outcome)

  /**
    `processEntry`: mark the entry processed, build the reason, ask for the
    failed status, then finalise with that status, the reason and no result.
   */
  function ProcessEntry(
    s: LogState, entry: LogEntry, oid: string, lm: LogManager,
    marshalErr: Option<string>, markFailed: Result<Status, string>, cpError: Option<string>)
    : (r: Step)
    ensures r.state == s.(processed := s.processed + {entry.id})
    ensures marshalErr.Some? ==> r.manager == lm && r.outcome == Aborted(marshalErr.value)
    ensures marshalErr.None? && markFailed.Failure? ==> r.manager == lm && r.outcome == Aborted(markFailed.error)
    ensures r.outcome.Finalizing? <==> marshalErr.None? && markFailed.Success?
    ensures r.outcome.Finalizing? ==>
      && r.outcome.call == FinalizeCall(oid, markFailed.value,
           FailureReason(entry.id, entry.producerId, oid, entry.value), [None])
      && r.outcome.error == cpError
      && (cpError.None? ==> oid !in r.manager.orchestrations && oid !in r.manager.logs)
      && (cpError.Some? ==> r.manager == lm)
  {
    var st := s.(processed := s.processed + {entry.id});
    if marshalErr.Some? then Step(st, lm, Aborted(marshalErr.value))
    else
      var reason := FailureReason(entry.id, entry.producerId, oid, entry.value);
      match markFailed
      case Failure(e) => Step(st, lm, Aborted(e))
      case Success(status) =>
        var out := FinalizeOrchestration(lm, oid, status, reason, None, cpError);
        Step(st, out.manager, Finalizing(out.call, out.error))
  }

  /**
    Two failures of different entries never produce the same reason: the
    entry ID can be read back from the front of the text.
   */
  lemma {:induction false} ReasonNamesTheEntry(id1: string, id2: string, p1: string, p2: string, oid: string, v1: string, v2: string)
    requires FailureReason(id1, p1, oid, v1) == FailureReason(id2, p2, oid, v2)
    requires forall k :: 0 <= k < |id1| ==> id1[k] != '"'
    requires forall k :: 0 <= k < |id2| ==> id2[k] != '"'
    ensures id1 == id2
  {
    var r := FailureReason(id1, p1, oid, v1);
    IdEndsAtFirstQuote(id1, r);
    IdEndsAtFirstQuote(id2, r);
    var h := |IdMemberHead|;
    assert id1 == r[h..h + |id1|] == id2;
  }

  /** In a reason, the first quote after the `id` member's opening quote closes the entry ID. */
  lemma IdEndsAtFirstQuote(id: string, r: string)
    requires IsPrefix(IdMemberHead + id + "\"", r)
    requires forall k :: 0 <= k < |id| ==> id[k] != '"'
    ensures IndexOfAny(r[|IdMemberHead|..], {'"'}) == |id|
    ensures r[|IdMemberHead|..|IdMemberHead| + |id|] == id
  {
    var h := |IdMemberHead|;
    var t := r[h..];
    assert forall k :: 0 <= k < |id| ==> t[k] == id[k];
    assert t[|id|] == '"';
  }
}
