/**
  The per-orchestration append-only log and the log manager
  (`controlplane/log.go`), plus the polling step the log workers share.

  Times are integers (Unix nanoseconds); the clock reading an operation
  uses is a parameter. Calls into the control plane whose code is not part
  of this model (`ControlPlane.FinalizeOrchestration`) are recorded as
  values, with their outcome passed in.
 */
module OrchestrationLog {
  import opened Wrappers
  import opened Order
  import opened Config
  import opened Types

  /** Go's zero `time.Time` (1 January of year 1, UTC) in Unix nanoseconds. */
  const ZeroTime: int := -62135596800 * Second

  /** The entry types the workers, the aggregator and the failure tracker filter on. */
  const TaskOutputType := "task_output"
  const TaskFailureType := "task_failure"

  datatype LogEntry = LogEntry(
    offset: nat,
    entryType: string,
    id: string,
    value: string,
    timestamp: int,
    producerId: string,
    attemptNum: int)

  datatype Log = Log(entries: seq<LogEntry>, currentOffset: nat, lastAccessed: int)

  /** Offsets are dense: entry `i` has offset `i`, and the next offset is the length. */
  predicate WellFormed(l: Log) {
    && l.currentOffset == |l.entries|
    && forall i :: 0 <= i < |l.entries| ==> l.entries[i].offset == i
  }

  /** A fresh log as `CreateLog` installs it. */
  function EmptyLog(now: int): (l: Log)
    ensures WellFormed(l) && l.entries == []
  {
    Log([], 0, now)
  }

  /**
    `Log.Append`: the entry gets the current offset and the clock reading,
    goes to the end, and the offset moves on. It never fails (the Go method
    always returns nil), so the model returns only the new log.
   */
  function Append(l: Log, entry: LogEntry, now: int): (r: Log)
    ensures WellFormed(l) ==> WellFormed(r)
    ensures |r.entries| == |l.entries| + 1 && r.entries[..|l.entries|] == l.entries
    ensures r.entries[|l.entries|] == entry.(offset := l.currentOffset, timestamp := now)
    ensures r.currentOffset == l.currentOffset + 1 && r.lastAccessed == now
  {
    var stamped := entry.(offset := l.currentOffset, timestamp := now);
    Log(l.entries + [stamped], l.currentOffset + 1, now)
  }

  /** `Log.ReadFrom`: the entries from `offset` on, or nothing once `offset` reaches the end. */
  function ReadFrom(l: Log, offset: nat): (r: seq<LogEntry>)
    requires WellFormed(l)
    ensures offset >= l.currentOffset ==> r == []
    ensures offset < l.currentOffset ==> |r| == l.currentOffset - offset
    ensures forall i :: 0 <= i < |r| ==> r[i] == l.entries[offset + i] && r[i].offset == offset + i
  {
    if offset >= l.currentOffset then [] else l.entries[offset..]
  }

  /** Everything read from `offset` lies between it and the end of the log. */
  lemma ReadFromOffsets(l: Log, offset: nat)
    requires WellFormed(l)
    ensures forall e :: e in ReadFrom(l, offset) ==> offset <= e.offset < l.currentOffset
  {
    var r := ReadFrom(l, offset);
    forall e | e in r
      ensures offset <= e.offset < l.currentOffset
    {
      var j :| 0 <= j < |r| && r[j] == e;
    }
  }

  /** A reader positioned at the old end sees exactly the appended entry. */
  lemma ReadAfterAppend(l: Log, entry: LogEntry, now: int)
    requires WellFormed(l)
    ensures ReadFrom(Append(l, entry, now), l.currentOffset) == [entry.(offset := l.currentOffset, timestamp := now)]
  {
  }

  /** Appending never changes what a reader already positioned before the end reads first. */
  lemma {:induction false} AppendPreservesPrefix(l: Log, entry: LogEntry, now: int, offset: nat)
    requires WellFormed(l) && offset < l.currentOffset
    ensures ReadFrom(Append(l, entry, now), offset) == ReadFrom(l, offset) + [entry.(offset := l.currentOffset, timestamp := now)]
  {
    var r := Append(l, entry, now);
    assert r.entries == l.entries + [entry.(offset := l.currentOffset, timestamp := now)];
    assert r.entries[offset..] == l.entries[offset..] + [entry.(offset := l.currentOffset, timestamp := now)];
  }

  // ---------------------------------------------------------------------
  // LogManager
  // ---------------------------------------------------------------------

  datatype OrchestrationState = OrchestrationState(
    id: string,
    projectId: string,
    plan: Option<ServiceCallingPlan>,
    completedTasks: set<string>,
    status: Status,
    createdAt: int,
    updatedAt: int,
    error: string)

  datatype LogManager = LogManager(
    logs: map<string, Log>,
    orchestrations: map<string, OrchestrationState>,
    retention: int)

  /** Every log the manager holds is well formed. */
  predicate LogsWellFormed(lm: LogManager) {
    forall id :: id in lm.logs ==> WellFormed(lm.logs[id])
  }

  /**
    `CreateLog`: an empty log and a Processing state with no completed tasks
    for the orchestration, replacing any earlier ones; `UpdatedAt` keeps Go's
    zero time.
   */
  function CreateLog(lm: LogManager, oid: string, plan: Option<ServiceCallingPlan>, now: int): (r: LogManager)
    ensures oid in r.logs && r.logs[oid].entries == [] && WellFormed(r.logs[oid])
    ensures oid in r.orchestrations
    ensures var st := r.orchestrations[oid];
      st.id == oid && st.plan == plan && st.completedTasks == {} && st.status == Processing && st.createdAt == now
    ensures forall id :: id != oid ==>
      (id in r.logs <==> id in lm.logs) && (id in lm.logs ==> r.logs[id] == lm.logs[id])
    ensures forall id :: id != oid ==>
      (id in r.orchestrations <==> id in lm.orchestrations) &&
      (id in lm.orchestrations ==> r.orchestrations[id] == lm.orchestrations[id])
    ensures r.retention == lm.retention
    ensures LogsWellFormed(lm) ==> LogsWellFormed(r)
  {
    var state := OrchestrationState(oid, "", plan, {}, Processing, now, ZeroTime, "");
    lm.(logs := lm.logs[oid := EmptyLog(now)], orchestrations := lm.orchestrations[oid := state])
  }

  /** Outcome of `MarkTaskCompleted` for an unknown orchestration: its error branch dereferences a nil state. */
  datatype Panic = NilDereference

  /**
    `MarkTaskCompleted`: records the task as completed and sets the whole
    orchestration to Completed, returning that status.
   */
  function MarkTaskCompleted(lm: LogManager, oid: string, taskId: string, now: int)
    : (r: Result<(LogManager, Status), Panic>)
    ensures r.Failure? <==> oid !in lm.orchestrations
    ensures r.Success? ==>
      var (m, status) := r.value;
      && status == Completed
      && m.logs == lm.logs
      && m.orchestrations.Keys == lm.orchestrations.Keys
      && m.orchestrations[oid].status == Completed
      && m.orchestrations[oid].completedTasks == lm.orchestrations[oid].completedTasks + {taskId}
      && m.orchestrations[oid].updatedAt == now
      && (forall id :: id in lm.orchestrations && id != oid ==> m.orchestrations[id] == lm.orchestrations[id])
  {
    if oid !in lm.orchestrations then Failure(NilDereference)
    else
      var st := lm.orchestrations[oid];
      var st1 := st.(completedTasks := st.completedTasks + {taskId}, status := Completed, updatedAt := now);
      Success((lm.(orchestrations := lm.orchestrations[oid := st1]), Completed))
  }

  /** The control-plane call `FinalizeOrchestration` makes, with its result list. */
  datatype FinalizeCall = FinalizeCall(oid: string, status: Status, reason: string, results: seq<Option<string>>)

  datatype FinalizeOutcome = FinalizeOutcome(manager: LogManager, call: FinalizeCall, error: Option<string>)

  /**
    `LogManager.FinalizeOrchestration`: hands the status, reason and the
    single (possibly nil) result to the control plane; `cpError` is what
    that call returns. Only when it succeeds are the log and the state
    dropped.
   */
  function FinalizeOrchestration(
    lm: LogManager, oid: string, status: Status, reason: string, result: Option<string>, cpError: Option<string>)
    : (r: FinalizeOutcome)
    ensures r.call == FinalizeCall(oid, status, reason, [result])
    ensures r.error == cpError
    ensures cpError.Some? ==> r.manager == lm
    ensures cpError.None? ==>
      && oid !in r.manager.logs && oid !in r.manager.orchestrations
      && r.manager.logs.Keys == lm.logs.Keys - {oid}
      && r.manager.orchestrations.Keys == lm.orchestrations.Keys - {oid}
      && (forall id :: id in r.manager.logs ==> r.manager.logs[id] == lm.logs[id])
      && (forall id :: id in r.manager.orchestrations ==> r.manager.orchestrations[id] == lm.orchestrations[id])
  {
    var call := FinalizeCall(oid, status, reason, [result]);
    if cpError.Some? then FinalizeOutcome(lm, call, cpError)
    else FinalizeOutcome(lm.(logs := lm.logs - {oid}, orchestrations := lm.orchestrations - {oid}), call, None)
  }

  /**
    `FailOrchestration`: an unknown orchestration is left alone (no call).
    Otherwise the reason and clock go into the state, then it is finalised as
    Failed with that reason and no result. A failed finalisation leaves the
    updated state in place.
   */
  function FailOrchestration(lm: LogManager, oid: string, reason: string, now: int, cpError: Option<string>)
    : (r: (LogManager, Option<FinalizeCall>))
    ensures oid !in lm.orchestrations ==> r == (lm, None)
    ensures oid in lm.orchestrations ==> r.1 == Some(FinalizeCall(oid, Failed, reason, [None]))
    ensures oid in lm.orchestrations && cpError.None? ==>
      oid !in r.0.orchestrations && oid !in r.0.logs
    ensures oid in lm.orchestrations && cpError.Some? ==>
      && r.0.logs == lm.logs
      && oid in r.0.orchestrations
      && r.0.orchestrations[oid] == lm.orchestrations[oid].(error := reason, updatedAt := now)
  {
    if oid !in lm.orchestrations then (lm, None)
    else
      var st := lm.orchestrations[oid].(error := reason, updatedAt := now);
      var lm1 := lm.(orchestrations := lm.orchestrations[oid := st]);
      var out := FinalizeOrchestration(lm1, oid, Failed, reason, None, cpError);
      (out.manager, Some(out.call))
  }

  /** A Completed orchestration last updated more than `retention` before `now`. */
  predicate Stale(st: OrchestrationState, now: int, retention: int) {
    st.status == Completed && now - st.updatedAt > retention
  }

  /** Removes `ids` (those that are stale) one by one, as the Go loop does. */
  function CleanupKeys(lm: LogManager, ids: seq<string>, now: int): LogManager
    decreases |ids|
  {
    if |ids| == 0 then lm
    else
      var id := ids[0];
      var lm1 :=
        if id in lm.orchestrations && Stale(lm.orchestrations[id], now, lm.retention)
        then lm.(orchestrations := lm.orchestrations - {id}, logs := lm.logs - {id})
        else lm;
      CleanupKeys(lm1, ids[1..], now)
  }

  lemma {:induction false} CleanupKeysEffect(lm: LogManager, ids: seq<string>, now: int)
    requires forall i, j :: 0 <= i < j < |ids| ==> ids[i] != ids[j]
    ensures var r := CleanupKeys(lm, ids, now);
      && r.retention == lm.retention
      && (forall id :: id in r.orchestrations <==>
            id in lm.orchestrations && !(id in ids && Stale(lm.orchestrations[id], now, lm.retention)))
      && (forall id :: id in r.orchestrations ==> r.orchestrations[id] == lm.orchestrations[id])
      && (forall id :: id in r.logs <==>
            id in lm.logs && !(id in ids && id in lm.orchestrations && Stale(lm.orchestrations[id], now, lm.retention)))
      && (forall id :: id in r.logs ==> r.logs[id] == lm.logs[id])
    decreases |ids|
  {
    if |ids| > 0 {
      var id := ids[0];
      var lm1 :=
        if id in lm.orchestrations && Stale(lm.orchestrations[id], now, lm.retention)
        then lm.(orchestrations := lm.orchestrations - {id}, logs := lm.logs - {id})
        else lm;
      assert forall k :: k in ids[1..] ==> k != id;
      CleanupKeysEffect(lm1, ids[1..], now);
      assert forall k :: k in ids <==> k == id || k in ids[1..];
    }
  }

  /**
    `cleanupStaleOrchestrations`: exactly the Completed orchestrations older
    than the retention period lose their state and their log; everything
    else is kept as it was.
   */
  function CleanupStaleOrchestrations(lm: LogManager, now: int): (r: LogManager)
    ensures forall id :: id in r.orchestrations <==>
      id in lm.orchestrations && !Stale(lm.orchestrations[id], now, lm.retention)
    ensures forall id :: id in r.orchestrations ==> r.orchestrations[id] == lm.orchestrations[id]
    ensures forall id :: id in r.logs <==>
      id in lm.logs && !(id in lm.orchestrations && Stale(lm.orchestrations[id], now, lm.retention))
    ensures forall id :: id in r.logs ==> r.logs[id] == lm.logs[id]
    ensures r.retention == lm.retention
  {
    var ids := SortedKeys(lm.orchestrations.Keys);
    CleanupKeysEffect(lm, ids, now);
    CleanupKeys(lm, ids, now)
  }

  // ---------------------------------------------------------------------
  // DependencyState.SortedValues
  // ---------------------------------------------------------------------

  /** `SortedValues`: the values of the dependency state, one per key, in ascending key order. */
  function SortedValues(d: map<string, string>): (out: seq<string>)
    ensures |out| == |d|
    ensures forall i :: 0 <= i < |out| ==> out[i] == d[SortedKeys(d.Keys)[i]]
  {
    var keys := SortedKeys(d.Keys);
    seq(|keys|, i requires 0 <= i < |keys| => d[keys[i]])
  }

  /** The sorted values are exactly the values of the map. */
  lemma SortedValuesAreValues(d: map<string, string>)
    ensures forall k :: k in d ==> d[k] in SortedValues(d)
    ensures forall v :: v in SortedValues(d) ==> exists k :: k in d && d[k] == v
  {
    SortedValuesCover(d);
    SortedValuesFromMap(d);
  }

  lemma SortedValuesCover(d: map<string, string>)
    ensures forall k :: k in d ==> d[k] in SortedValues(d)
  {
    var keys := SortedKeys(d.Keys);
    var out := SortedValues(d);
    forall k | k in d ensures d[k] in out {
      assert k in keys;
      var i :| 0 <= i < |keys| && keys[i] == k;
      assert out[i] == d[k];
    }
  }

  lemma SortedValuesFromMap(d: map<string, string>)
    ensures forall v :: v in SortedValues(d) ==> exists k :: k in d && d[k] == v
  {
    var keys := SortedKeys(d.Keys);
    var out := SortedValues(d);
    forall v | v in out ensures exists k :: k in d && d[k] == v {
      var i :| 0 <= i < |out| && out[i] == v;
      var k := keys[i];
      assert k in d && d[k] == v;
    }
  }

  /** The last sorted value belongs to the greatest key. */
  lemma {:induction false} SortedValuesLast(d: map<string, string>)
    requires d != map[]
    ensures |SortedValues(d)| > 0
    ensures exists k :: k in d && SortedValues(d)[|d| - 1] == d[k] && forall y :: y in d ==> Below(y, k)
  {
    var k :| k in d;
    assert d.Keys != {};
    var ks := SortedKeys(d.Keys);
    LastSortedKeyIsGreatest(d.Keys);
    assert ks[|ks| - 1] in d;
  }

  // ---------------------------------------------------------------------
  // Worker state and the polling step
  // ---------------------------------------------------------------------

  /** A worker's position in the log, the entry IDs it has handled, and the outputs it has gathered. */
  datatype LogState = LogState(lastOffset: nat, processed: set<string>, dependencyState: map<string, string>)

  const InitialLogState := LogState(0, {}, map[])

  /** `containsAll`: every dependency has an output; vacuously true without dependencies. */
  predicate ContainsAll(s: map<string, string>, deps: set<string>) {
    forall id :: id in deps ==> id in s
  }

  /** The entries a worker accepts, in log order. */
  function Filter(entries: seq<LogEntry>, accept: LogEntry -> bool): seq<LogEntry>
  {
    if |entries| == 0 then []
    else (if accept(entries[0]) then [entries[0]] else []) + Filter(entries[1..], accept)
  }

  lemma {:induction false} FilterSnoc(entries: seq<LogEntry>, e: LogEntry, accept: LogEntry -> bool)
    ensures Filter(entries + [e], accept) == Filter(entries, accept) + (if accept(e) then [e] else [])
    decreases |entries|
  {
    if |entries| == 0 {
      assert Filter([e], accept) == (if accept(e) then [e] else []) + Filter([], accept);
    } else {
      var head := if accept(entries[0]) then [entries[0]] else [];
      var tail := if accept(e) then [e] else [];
      assert (entries + [e])[0] == entries[0];
      assert (entries + [e])[1..] == entries[1..] + [e];
      assert Filter(entries + [e], accept) == head + Filter(entries[1..] + [e], accept);
      FilterSnoc(entries[1..], e, accept);
      assert Filter(entries, accept) == head + Filter(entries[1..], accept);
      assert head + (Filter(entries[1..], accept) + tail) == (head + Filter(entries[1..], accept)) + tail;
    }
  }

  /** `Filter` keeps exactly the accepted entries. */
  lemma {:induction false} FilterMembers(entries: seq<LogEntry>, accept: LogEntry -> bool)
    ensures forall e :: e in Filter(entries, accept) <==> e in entries && accept(e)
  {
    if |entries| > 0 {
      FilterMembers(entries[1..], accept);
      assert forall e :: e in entries <==> e == entries[0] || e in entries[1..];
    }
  }

  /**
    One tick of `PollLog`: read from the worker's offset, hand over the
    entries the worker accepts, and move the offset past each one handed
    over. Entries it skips do not move the offset.
   */
  method PollOnce(l: Log, lastOffset: nat, accept: LogEntry -> bool) returns (delivered: seq<LogEntry>, newOffset: nat)
    requires WellFormed(l)
    ensures delivered == Filter(ReadFrom(l, lastOffset), accept)
    ensures |delivered| == 0 ==> newOffset == lastOffset
    ensures |delivered| > 0 ==> newOffset == delivered[|delivered| - 1].offset + 1
    ensures newOffset >= lastOffset
    ensures |delivered| > 0 ==> lastOffset < newOffset <= l.currentOffset
  {
    var entries := ReadFrom(l, lastOffset);
    delivered := [];
    newOffset := lastOffset;
    var i := 0;
    while i < |entries|
      invariant 0 <= i <= |entries|
      invariant delivered == Filter(entries[..i], accept)
      invariant |delivered| == 0 ==> newOffset == lastOffset
      invariant |delivered| > 0 ==> newOffset == delivered[|delivered| - 1].offset + 1
      invariant |delivered| > 0 ==> lastOffset < newOffset <= lastOffset + i
    {
      var entry := entries[i];
      assert entries[..i + 1] == entries[..i] + [entry];
      FilterSnoc(entries[..i], entry, accept);
      if accept(entry) {
        delivered := delivered + [entry];
        newOffset := entry.offset + 1;
      }
      i := i + 1;
    }
    assert entries[..i] == entries;
  }
}
