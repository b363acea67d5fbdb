/**
  The idempotency store (`controlplane/idempotency.go`): a keyed lease
  state machine that lets one worker at a time own the execution of a task
  and remembers its outcome for a time-to-live.

  The store is a value; every operation that changes it returns the new
  store. The clock reading `time.Now()` is the parameter `now`.
 */
module Idempotency {
  import opened Wrappers
  import opened Order
  import opened Config

  const DefaultLeaseDuration: int := 30 * Second
  const DefaultStoreTtl: int := 24 * Hour

  datatype ExecutionState = InProgress | ExecutionCompleted | ExecutionFailed

  /** The integer behind each state: `iota`, so 0 through 2 in declaration order. */
  function ExecutionStateCode(s: ExecutionState): (c: int)
    ensures 0 <= c <= 2
  {
    match s
    case InProgress => 0
    case ExecutionCompleted => 1
    case ExecutionFailed => 2
  }

  const ExecutionStateNames: seq<string> := ["in_progress", "completed", "failed"]

  /** `ExecutionState.String`: the name table indexed by the `iota` code. */
  function ExecutionStateString(s: ExecutionState): (r: string)
    ensures r == ExecutionStateNames[ExecutionStateCode(s)]
  {
    match s
    case InProgress => "in_progress"
    case ExecutionCompleted => "completed"
    case ExecutionFailed => "failed"
  }

  /** Distinct states have distinct codes and distinct names. */
  lemma ExecutionStateStringInjective(a: ExecutionState, b: ExecutionState)
    ensures ExecutionStateCode(a) == ExecutionStateCode(b) ==> a == b
    ensures ExecutionStateString(a) == ExecutionStateString(b) ==> a == b
  {
  }

  /** A nil `Result` or `Error` is `None`; an error is kept as its message. */
  datatype Execution = Execution(
    executionId: string,
    result: Option<string>,
    error: Option<string>,
    state: ExecutionState,
    timestamp: int,
    startedAt: int,
    leaseExpiry: int)

  datatype Store = Store(executions: map<string, Execution>, ttl: int)

  /** `NewIdempotencyStore`: empty, with a zero TTL replaced by the 24-hour default. */
  function NewIdempotencyStore(ttl: int): (s: Store)
    ensures s.executions == map[]
    ensures ttl == 0 ==> s.ttl == DefaultStoreTtl
    ensures ttl != 0 ==> s.ttl == ttl
  {
    Store(map[], if ttl == 0 then DefaultStoreTtl else ttl)
  }

  /** What `InitializeExecution` hands back: the new store, the execution and whether the caller owns it. */
  datatype Init = Init(store: Store, execution: Execution, isNew: bool)

  /**
    `InitializeExecution`. A finished execution is returned as stored; an
    in-progress one whose lease has run out is taken over by the caller;
    one with a live lease is returned as stored; an unknown key starts a
    fresh in-progress execution owned by the caller. Its error result is
    always nil, so it is not modelled.
   */
  function InitializeExecution(s: Store, key: string, executionId: string, now: int): (r: Init)
    ensures key in r.store.executions && r.store.executions[key] == r.execution
    ensures r.store.ttl == s.ttl
    ensures forall k :: k != key ==> (k in r.store.executions <==> k in s.executions)
    ensures forall k :: k in s.executions && k != key ==> r.store.executions[k] == s.executions[k]
    ensures key !in s.executions ==>
      r.isNew && r.execution == Execution(executionId, None, None, InProgress, now, now, now + DefaultLeaseDuration)
    ensures key in s.executions && s.executions[key].state != InProgress ==>
      !r.isNew && r.store == s && r.execution == s.executions[key]
    ensures key in s.executions && s.executions[key].state == InProgress ==>
      var old_ := s.executions[key];
      if now > old_.leaseExpiry then
        r.isNew && r.execution == old_.(executionId := executionId, startedAt := now, leaseExpiry := now + DefaultLeaseDuration)
      else
        !r.isNew && r.store == s && r.execution == old_
  {
    if key in s.executions then
      var e := s.executions[key];
      match e.state
      case ExecutionCompleted => Init(s, e, false)
      case ExecutionFailed => Init(s, e, false)
      case InProgress =>
        if now > e.leaseExpiry then
          var e1 := e.(executionId := executionId, startedAt := now, leaseExpiry := now + DefaultLeaseDuration);
          Init(s.(executions := s.executions[key := e1]), e1, true)
        else Init(s, e, false)
    else
      var e := Execution(executionId, None, None, InProgress, now, now, now + DefaultLeaseDuration);
      Init(s.(executions := s.executions[key := e]), e, true)
  }

  /** The caller holding `executionId` currently owns the in-progress execution under `key`. */
  predicate Owns(s: Store, key: string, executionId: string) {
    key in s.executions && s.executions[key].state == InProgress && s.executions[key].executionId == executionId
  }

  /**
    `RenewLease`: only the owner of an in-progress execution may extend its
    lease; any other call changes nothing and reports false.
   */
  function RenewLease(s: Store, key: string, executionId: string, now: int): (r: (Store, bool))
    ensures r.1 <==> Owns(s, key, executionId)
    ensures !r.1 ==> r.0 == s
    ensures r.1 ==> r.0 == s.(executions := s.executions[key := s.executions[key].(leaseExpiry := now + DefaultLeaseDuration)])
  {
    if Owns(s, key, executionId) then
      (s.(executions := s.executions[key := s.executions[key].(leaseExpiry := now + DefaultLeaseDuration)]), true)
    else (s, false)
  }

  /**
    `UpdateExecutionResult`: records the outcome (Completed without an
    error, Failed with one) and refreshes the timestamp; an unknown key is
    left alone.
   */
  function UpdateExecutionResult(s: Store, key: string, result: Option<string>, err: Option<string>, now: int): (r: Store)
    ensures key !in s.executions ==> r == s
    ensures key in s.executions ==>
      && key in r.executions
      && r.executions[key].state == (if err.None? then ExecutionCompleted else ExecutionFailed)
      && r.executions[key].result == result && r.executions[key].error == err
      && r.executions[key].timestamp == now
      && r.executions[key].executionId == s.executions[key].executionId
    ensures r.executions.Keys == s.executions.Keys && r.ttl == s.ttl
    ensures forall k :: k in s.executions && k != key ==> r.executions[k] == s.executions[k]
  {
    if key !in s.executions then s
    else
      var e := s.executions[key];
      var e1 := e.(result := result, error := err, state := if err.None? then ExecutionCompleted else ExecutionFailed, timestamp := now);
      s.(executions := s.executions[key := e1])
  }

  /**
    `GetExecutionWithResult`: a copy of the stored execution. Values are
    immutable here, so the copy is the stored value and the store is not an
    output at all: nothing a caller does with the copy can reach the store.
   */
  function GetExecutionWithResult(s: Store, key: string): (r: Option<Execution>)
    ensures r.Some? <==> key in s.executions
    ensures r.Some? ==> r.value == s.executions[key]
  {
    if key in s.executions then Some(s.executions[key]) else None
  }

  /** `ClearResult`: forgets the key and nothing else. */
  function ClearResult(s: Store, key: string): (r: Store)
    ensures key !in r.executions
    ensures r.executions.Keys == s.executions.Keys - {key} && r.ttl == s.ttl
    ensures forall k :: k in r.executions ==> r.executions[k] == s.executions[k]
  {
    s.(executions := s.executions - {key})
  }

  /** An execution last touched before `now - ttl` has expired. */
  predicate Expired(e: Execution, now: int, ttl: int) {
    e.timestamp < now - ttl
  }

  /**
    `cleanup`: walks the keys and deletes every expired execution; the
    rest are kept unchanged.
   */
  function Cleanup(s: Store, now: int): (r: Store)
    ensures r.ttl == s.ttl
    ensures forall k :: k in r.executions <==> k in s.executions && !Expired(s.executions[k], now, s.ttl)
    ensures forall k :: k in r.executions ==> r.executions[k] == s.executions[k]
  {
    Store(DeleteExpired(s.executions, SortedKeys(s.executions.Keys), now, s.ttl), s.ttl)
  }

  /** The loop of `cleanup` over the keys still to visit: each visited expired execution is deleted. */
  function DeleteExpired(execs: map<string, Execution>, keys: seq<string>, now: int, ttl: int)
    : (r: map<string, Execution>)
    ensures forall k :: k in r <==> k in execs && (k in keys ==> !Expired(execs[k], now, ttl))
    ensures forall k :: k in r ==> r[k] == execs[k]
    decreases |keys|
  {
    if |keys| == 0 then execs
    else
      var key := keys[0];
      var next := if key in execs && Expired(execs[key], now, ttl) then execs - {key} else execs;
      assert forall k :: k in keys <==> k == key || k in keys[1..];
      DeleteExpired(next, keys[1..], now, ttl)
  }

  // ---------------------------------------------------------------------
  // Properties of the lease protocol
  // ---------------------------------------------------------------------

  /** Whoever is told `isNew` owns the execution and can renew its lease. */
  lemma InitializedOwnerCanRenew(s: Store, key: string, executionId: string, now: int, later: int)
    requires InitializeExecution(s, key, executionId, now).isNew
    ensures RenewLease(InitializeExecution(s, key, executionId, now).store, key, executionId, later).1
  {
  }

  /**
    A takeover after expiry revokes the previous owner: from then on only
    the new execution ID may renew.
   */
  lemma TakeoverRevokesPreviousOwner(s: Store, key: string, first: string, second: string, now: int)
    requires Owns(s, key, first) && first != second
    requires now > s.executions[key].leaseExpiry
    ensures var init := InitializeExecution(s, key, second, now);
      init.isNew && Owns(init.store, key, second) && !Owns(init.store, key, first)
  {
  }

  /** While a lease is live a second caller is not made owner, and the owner keeps it. */
  lemma LiveLeaseIsExclusive(s: Store, key: string, owner: string, other: string, now: int)
    requires Owns(s, key, owner)
    requires now <= s.executions[key].leaseExpiry
    ensures var init := InitializeExecution(s, key, other, now);
      !init.isNew && init.store == s && init.execution.executionId == owner
  {
  }

  /** Once a result is recorded, later initialisations return it and never hand out ownership. */
  lemma RecordedResultIsFinal(s: Store, key: string, result: Option<string>, err: Option<string>, t: int, id: string, now: int)
    requires key in s.executions
    ensures var s1 := UpdateExecutionResult(s, key, result, err, t);
      var init := InitializeExecution(s1, key, id, now);
      !init.isNew && init.store == s1 && init.execution.result == result && init.execution.error == err
      && !Owns(s1, key, id)
  {
  }
}
