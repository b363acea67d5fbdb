/**
  The health coordinator (`controlplane/health.go`): it reacts to a change
  in a service's health by pausing or resuming the service's active
  orchestrations and, on recovery, restarting the tasks that have not
  completed.

  The coordinator's collaborators are not part of this model. Their effects
  are returned as a sequence of `Effect`s, and what they answer is given as
  inputs: `active` is what `GetActiveOrchestrationsAndTasksForService`
  returned (empty when the project lookup failed), and `isCompleted` is the
  completion flag `IsTaskCompleted` reports (an error it reports alongside
  is only logged).
 */
module Health {
  import opened Order
  import opened Config
  import opened Types

  datatype Coordinator = Coordinator(lastHealthState: map<string, bool>)

  /** `NewHealthCoordinator`: no service has reported yet. */
  function NewHealthCoordinator(): (h: Coordinator)
    ensures h.lastHealthState == map[]
  {
    Coordinator(map[])
  }

  /** The service's active orchestrations and their tasks, keyed by orchestration ID and then by task key. */
  type Active = map<string, map<string, SubTask>>

  datatype Effect =
    | UpdateActive(active: Active, serviceId: string, reason: string, from: Status, to: Status)
    | StopWorker(oid: string, taskId: string)
    | StartWorker(oid: string, task: SubTask)

  /** `restartTask`: stop the task's worker, then create and start a new one. */
  function RestartTask(oid: string, task: SubTask): (r: seq<Effect>)
    ensures |r| == 2 && r[0].StopWorker? && r[1].StartWorker?
    ensures r[0].oid == r[1].oid == oid && r[0].taskId == task.id && r[1].task == task
  {
    [StopWorker(oid, task.id), StartWorker(oid, task)]
  }

  /** The tasks of one orchestration, one per key, in ascending key order. */
  function TasksOf(m: map<string, SubTask>): (r: seq<SubTask>)
    ensures forall t :: t in r <==> t in m.Values
  {
    var keys := SortedKeys(m.Keys);
    var r := seq(|keys|, i requires 0 <= i < |keys| => m[keys[i]]);
    assert forall t :: t in m.Values ==> t in r by {
      forall t | t in m.Values ensures t in r {
        var k :| k in m && m[k] == t;
        var i :| 0 <= i < |keys| && keys[i] == k;
        assert r[i] == t;
      }
    }
    r
  }

  /** The tasks of one orchestration, each paired with the orchestration ID. */
  function Tag(oid: string, tasks: seq<SubTask>): (r: seq<(string, SubTask)>)
    ensures forall o, t :: (o, t) in r <==> o == oid && t in tasks
  {
    var r := seq(|tasks|, i requires 0 <= i < |tasks| => (oid, tasks[i]));
    assert forall t :: t in tasks ==> (oid, t) in r by {
      forall t | t in tasks ensures (oid, t) in r {
        var i :| 0 <= i < |tasks| && tasks[i] == t;
        assert r[i] == (oid, t);
      }
    }
    r
  }

  /** Every (orchestration, task) pair of `active`, orchestrations taken in the order `oids` lists them. */
  function Pairs(active: Active, oids: seq<string>): (r: seq<(string, SubTask)>)
    requires forall i :: 0 <= i < |oids| ==> oids[i] in active
    ensures forall oid, t :: (oid, t) in r <==> oid in oids && t in active[oid].Values
  {
    if |oids| == 0 then []
    else
      var head := Tag(oids[0], TasksOf(active[oids[0]]));
      var tail := Pairs(active, oids[1..]);
      assert forall o :: o in oids <==> o == oids[0] || o in oids[1..];
      assert forall p :: p in head + tail <==> p in head || p in tail;
      head + tail
  }

  /** Every (orchestration, task) pair of `active`, in ascending orchestration ID order. */
  function AllPairs(active: Active): (r: seq<(string, SubTask)>)
    ensures forall oid, t :: (oid, t) in r <==> oid in active && t in active[oid].Values
  {
    Pairs(active, SortedKeys(active.Keys))
  }

  /** Every new worker is started right after the task's old worker is stopped. */
  predicate StopsBeforeStarts(effects: seq<Effect>) {
    forall i :: 0 <= i < |effects| && effects[i].StartWorker? ==>
      i > 0 && effects[i - 1] == StopWorker(effects[i].oid, effects[i].task.id)
  }

  /** Every stopped worker is replaced at once by a new worker for the same task. */
  predicate StopsAreFollowedByStarts(effects: seq<Effect>) {
    forall i :: 0 <= i < |effects| && effects[i].StopWorker? ==>
      && i + 1 < |effects| && effects[i + 1].StartWorker?
      && effects[i + 1].oid == effects[i].oid && effects[i + 1].task.id == effects[i].taskId
  }

  /** Stops and starts come in pairs, a stop immediately before the start for the same task. */
  predicate RestartsPaired(effects: seq<Effect>) {
    StopsBeforeStarts(effects) && StopsAreFollowedByStarts(effects)
  }

  /**
    One step of `restartOrchestrationTasks`: the task is restarted when its
    completion check says not completed, and skipped otherwise.
   */
  function RestartIfUnfinished(oid: string, t: SubTask, isCompleted: (string, string) -> bool): (r: seq<Effect>)
    ensures NoUpdates(r) && RestartsPaired(r)
    ensures forall o, t' :: StartWorker(o, t') in r <==> o == oid && t' == t && !isCompleted(oid, t.id)
    ensures forall o, id :: StopWorker(o, id) in r <==> o == oid && id == t.id && !isCompleted(oid, t.id)
  {
    if isCompleted(oid, t.id) then [] else RestartTask(oid, t)
  }

  /**
    `restartOrchestrationTasks` over an enumeration of the pairs: every task
    whose completion check says not completed is restarted, the others are
    skipped.
   */
  function RestartAll(pairs: seq<(string, SubTask)>, isCompleted: (string, string) -> bool): (r: seq<Effect>)
    ensures NoUpdates(r)
    ensures RestartsPaired(r)
    ensures forall oid, t :: StartWorker(oid, t) in r <==> (oid, t) in pairs && !isCompleted(oid, t.id)
    ensures forall oid, id :: StopWorker(oid, id) in r <==> StoppedTask(pairs, isCompleted, oid, id)
  {
    if |pairs| == 0 then []
    else
      var head := RestartIfUnfinished(pairs[0].0, pairs[0].1, isCompleted);
      var tail := RestartAll(pairs[1..], isCompleted);
      AppendRestarts(head, tail);
      assert forall p :: p in pairs <==> p == pairs[0] || p in pairs[1..];
      StoppedTaskCons(pairs, isCompleted);
      head + tail
  }

  /** Some unfinished task `id` of orchestration `oid` is among the pairs. */
  predicate StoppedTask(pairs: seq<(string, SubTask)>, isCompleted: (string, string) -> bool, oid: string, id: string) {
    exists i :: 0 <= i < |pairs| && pairs[i].0 == oid && pairs[i].1.id == id && !isCompleted(oid, id)
  }

  lemma StoppedTaskCons(pairs: seq<(string, SubTask)>, isCompleted: (string, string) -> bool)
    requires |pairs| > 0
    ensures forall oid, id :: StoppedTask(pairs, isCompleted, oid, id) <==>
      (pairs[0].0 == oid && pairs[0].1.id == id && !isCompleted(oid, id)) || StoppedTask(pairs[1..], isCompleted, oid, id)
  {
    forall oid, id | StoppedTask(pairs, isCompleted, oid, id)
      ensures (pairs[0].0 == oid && pairs[0].1.id == id && !isCompleted(oid, id)) || StoppedTask(pairs[1..], isCompleted, oid, id)
    {
      var i :| 0 <= i < |pairs| && pairs[i].0 == oid && pairs[i].1.id == id && !isCompleted(oid, id);
      if i > 0 {
        assert pairs[1..][i - 1] == pairs[i];
      }
    }
    forall oid, id | StoppedTask(pairs[1..], isCompleted, oid, id)
      ensures StoppedTask(pairs, isCompleted, oid, id)
    {
      var i :| 0 <= i < |pairs[1..]| && pairs[1..][i].0 == oid && pairs[1..][i].1.id == id && !isCompleted(oid, id);
      assert pairs[i + 1] == pairs[1..][i];
    }
  }

  /** No effect pauses or resumes orchestrations. */
  predicate NoUpdates(effects: seq<Effect>) {
    forall i :: 0 <= i < |effects| ==> !effects[i].UpdateActive?
  }

  lemma AppendRestarts(head: seq<Effect>, tail: seq<Effect>)
    requires NoUpdates(head) && RestartsPaired(head)
    requires NoUpdates(tail) && RestartsPaired(tail)
    ensures NoUpdates(head + tail) && RestartsPaired(head + tail)
    ensures forall e :: e in head + tail <==> e in head || e in tail
  {
    var r := head + tail;
    forall i | 0 <= i < |r|
      ensures !r[i].UpdateActive?
      ensures r[i].StartWorker? ==> i > 0 && r[i - 1] == StopWorker(r[i].oid, r[i].task.id)
      ensures r[i].StopWorker? ==>
        && i + 1 < |r| && r[i + 1].StartWorker?
        && r[i + 1].oid == r[i].oid && r[i + 1].task.id == r[i].taskId
    {
      if i >= |head| {
        assert r[i] == tail[i - |head|];
        if i > |head| {
          assert r[i - 1] == tail[i - 1 - |head|];
        }
        if i + 1 < |r| {
          assert r[i + 1] == tail[i + 1 - |head|];
        }
      } else if r[i].StopWorker? {
        assert r[i + 1] == head[i + 1];
      }
    }
  }

  /**
    `handleServiceHealthChange`. A report equal to the recorded one does
    nothing. Any other report is recorded; an unhealthy one pauses the
    service's processing orchestrations, a healthy one resumes its paused
    orchestrations and then restarts their unfinished tasks.
   */
  function HandleServiceHealthChange(
    h: Coordinator, serviceId: string, isHealthy: bool, active: Active, isCompleted: (string, string) -> bool)
    : (r: (Coordinator, seq<Effect>))
    ensures var same := serviceId in h.lastHealthState && h.lastHealthState[serviceId] == isHealthy;
      && (same ==> r == (h, []))
      && (!same ==> r.0.lastHealthState == h.lastHealthState[serviceId := isHealthy] && |r.1| > 0)
    ensures |r.1| > 0 && !isHealthy ==> r.1 == [UpdateActive(active, serviceId, "service_unhealthy", Processing, Paused)]
    ensures |r.1| > 0 && isHealthy ==>
      && r.1[0] == UpdateActive(active, serviceId, "service_healthy", Paused, Processing)
      && NoUpdates(r.1[1..])
  {
    if serviceId in h.lastHealthState && h.lastHealthState[serviceId] == isHealthy then (h, [])
    else
      var h1 := Coordinator(h.lastHealthState[serviceId := isHealthy]);
      if !isHealthy then (h1, [UpdateActive(active, serviceId, "service_unhealthy", Processing, Paused)])
      else
        var restarts := RestartAll(AllPairs(active), isCompleted);
        var effects := [UpdateActive(active, serviceId, "service_healthy", Paused, Processing)] + restarts;
        assert effects[1..] == restarts;
        (h1, effects)
  }

  /** Reporting the same health twice: the second report does nothing. */
  lemma RepeatedReportIsIgnored(
    h: Coordinator, serviceId: string, isHealthy: bool, a1: Active, a2: Active, c1: (string, string) -> bool, c2: (string, string) -> bool)
    ensures var h1 := HandleServiceHealthChange(h, serviceId, isHealthy, a1, c1).0;
      HandleServiceHealthChange(h1, serviceId, isHealthy, a2, c2) == (h1, [])
  {
  }

  /** A service going unhealthy pauses its orchestrations and restarts no task. */
  lemma UnhealthyRestartsNothing(
    h: Coordinator, serviceId: string, active: Active, isCompleted: (string, string) -> bool)
    ensures forall e :: e in HandleServiceHealthChange(h, serviceId, false, active, isCompleted).1 ==> e.UpdateActive?
  {
  }

  /**
    On recovery, a task of an active orchestration gets a new worker exactly
    when its completion check reports it unfinished; a worker is stopped
    exactly for such a task, and each stop comes immediately before the
    start that replaces it. Completed tasks are left alone.
   */
  lemma RecoveryRestartsExactlyUnfinished(
    h: Coordinator, serviceId: string, active: Active, isCompleted: (string, string) -> bool,
    oid: string, t: SubTask, id: string)
    requires serviceId !in h.lastHealthState || !h.lastHealthState[serviceId]
    ensures var effects := HandleServiceHealthChange(h, serviceId, true, active, isCompleted).1;
      && (StartWorker(oid, t) in effects <==> oid in active && t in active[oid].Values && !isCompleted(oid, t.id))
      && (StopWorker(oid, id) in effects <==> oid in active && HasTaskId(active[oid], id) && !isCompleted(oid, id))
      && RestartsPaired(effects)
  {
    var effects := HandleServiceHealthChange(h, serviceId, true, active, isCompleted).1;
    var pairs := AllPairs(active);
    var restarts := RestartAll(pairs, isCompleted);
    var u := UpdateActive(active, serviceId, "service_healthy", Paused, Processing);
    assert effects == [u] + restarts;
    PrependUpdate(u, restarts);
    StoppedActiveTask(active, isCompleted, oid, id);
  }

  /** An unfinished task among all the pairs is an unfinished task of an active orchestration. */
  lemma StoppedActiveTask(active: Active, isCompleted: (string, string) -> bool, oid: string, id: string)
    ensures StoppedTask(AllPairs(active), isCompleted, oid, id) <==>
      oid in active && HasTaskId(active[oid], id) && !isCompleted(oid, id)
  {
    if StoppedTask(AllPairs(active), isCompleted, oid, id) {
      StoppedIsActive(active, isCompleted, oid, id);
    }
    if oid in active && HasTaskId(active[oid], id) && !isCompleted(oid, id) {
      ActiveIsStopped(active, isCompleted, oid, id);
    }
  }

  lemma StoppedIsActive(active: Active, isCompleted: (string, string) -> bool, oid: string, id: string)
    requires StoppedTask(AllPairs(active), isCompleted, oid, id)
    ensures oid in active && HasTaskId(active[oid], id) && !isCompleted(oid, id)
  {
    var pairs := AllPairs(active);
    var i :| 0 <= i < |pairs| && pairs[i].0 == oid && pairs[i].1.id == id && !isCompleted(oid, id);
    var s := pairs[i].1;
    assert (oid, s) in pairs;
    assert s in active[oid].Values;
  }

  lemma ActiveIsStopped(active: Active, isCompleted: (string, string) -> bool, oid: string, id: string)
    requires oid in active && HasTaskId(active[oid], id) && !isCompleted(oid, id)
    ensures StoppedTask(AllPairs(active), isCompleted, oid, id)
  {
    var s :| s in active[oid].Values && s.id == id;
    PairWitness(AllPairs(active), isCompleted, oid, s);
  }

  lemma PairWitness(pairs: seq<(string, SubTask)>, isCompleted: (string, string) -> bool, oid: string, s: SubTask)
    requires (oid, s) in pairs && !isCompleted(oid, s.id)
    ensures StoppedTask(pairs, isCompleted, oid, s.id)
  {
    var i :| 0 <= i < |pairs| && pairs[i] == (oid, s);
    assert pairs[i].0 == oid && pairs[i].1.id == s.id;
  }

  /** Some task of the orchestration has ID `id`. */
  predicate HasTaskId(tasks: map<string, SubTask>, id: string) {
    exists s :: s in tasks.Values && s.id == id
  }

  /** Putting an update in front keeps the restarts' pairing and adds no worker. */
  lemma PrependUpdate(u: Effect, restarts: seq<Effect>)
    requires u.UpdateActive? && RestartsPaired(restarts)
    ensures RestartsPaired([u] + restarts)
    ensures forall e :: e in [u] + restarts <==> e == u || e in restarts
  {
    var effects := [u] + restarts;
    forall i | 0 <= i < |effects|
      ensures effects[i].StartWorker? ==> i > 0 && effects[i - 1] == StopWorker(effects[i].oid, effects[i].task.id)
      ensures effects[i].StopWorker? ==>
        && i + 1 < |effects| && effects[i + 1].StartWorker?
        && effects[i + 1].oid == effects[i].oid && effects[i + 1].task.id == effects[i].taskId
    {
      if i > 0 {
        assert effects[i] == restarts[i - 1];
        if i > 1 {
          assert effects[i - 1] == restarts[i - 2];
        }
        if i + 1 < |effects| {
          assert effects[i + 1] == restarts[i];
        }
      }
    }
  }
}
