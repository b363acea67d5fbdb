/**
  The WebSocket manager's queueing, acknowledgement and dispatch logic
  (`controlplane/websocket.go`). Sessions are outside this model: whether a
  service is connected and whether a write succeeds are inputs, and what
  the manager writes is returned.
 */
module WebSocket {
  import opened Wrappers
  import opened Config
  import opened Idempotency
  import Fmt

  const MessageExpiration: int := 24 * Hour

  /** A message waiting for its service to connect, stamped with the time it was queued. */
  datatype QueuedMessage = QueuedMessage(message: string, time: int)

  datatype Manager = Manager(connected: set<string>, queues: map<string, seq<QueuedMessage>>, expiration: int)

  /** `NewWebSocketManager`: no connections, no queues, messages kept for 24 hours. */
  function NewManager(): (m: Manager)
    ensures m.connected == {} && m.queues == map[] && m.expiration == 24 * Hour
  {
    Manager({}, map[], MessageExpiration)
  }

  /** `time.Since(msg.Time) > expiration`. */
  predicate Expired(m: QueuedMessage, now: int, expiration: int) {
    now - m.time > expiration
  }

  // ---------------------------------------------------------------------
  // QueueMessage: a bounded FIFO that drops the oldest message when full
  // ---------------------------------------------------------------------

  /** One queue's part of `QueueMessage`: drop the front when full, then append. */
  function Push(q: seq<QueuedMessage>, m: QueuedMessage): (r: seq<QueuedMessage>)
    ensures |q| <= MaxQueueSize ==> |r| <= MaxQueueSize
    ensures |r| > 0 && r[|r| - 1] == m
    ensures |q| < MaxQueueSize ==> r == q + [m]
    ensures |q| >= MaxQueueSize ==> r == q[1..] + [m]
  {
    if |q| >= MaxQueueSize then q[1..] + [m] else q + [m]
  }

  /** `QueueMessage`: creates the service's queue on first use and pushes the message stamped `now`. */
  function QueueMessage(mgr: Manager, serviceId: string, message: string, now: int): (r: Manager)
    ensures serviceId in r.queues
    ensures r.queues[serviceId] ==
      Push(if serviceId in mgr.queues then mgr.queues[serviceId] else [], QueuedMessage(message, now))
    ensures r.connected == mgr.connected && r.expiration == mgr.expiration
    ensures forall id :: id != serviceId ==>
      (id in r.queues <==> id in mgr.queues) && (id in mgr.queues ==> r.queues[id] == mgr.queues[id])
  {
    var q := if serviceId in mgr.queues then mgr.queues[serviceId] else [];
    mgr.(queues := mgr.queues[serviceId := Push(q, QueuedMessage(message, now))])
  }

  /** No queue is longer than `MaxQueueSize`. */
  predicate QueuesBounded(mgr: Manager) {
    forall id :: id in mgr.queues ==> |mgr.queues[id]| <= MaxQueueSize
  }

  /** Queueing keeps every queue within the bound. */
  lemma QueueMessageKeepsBound(mgr: Manager, serviceId: string, message: string, now: int)
    requires QueuesBounded(mgr)
    ensures QueuesBounded(QueueMessage(mgr, serviceId, message, now))
  {
  }

  /** Pushes a run of messages one after another. */
  function PushAll(q: seq<QueuedMessage>, ms: seq<QueuedMessage>): seq<QueuedMessage>
    decreases |ms|
  {
    if |ms| == 0 then q else PushAll(Push(q, ms[0]), ms[1..])
  }

  /** How many of `n` messages are dropped to keep at most `MaxQueueSize`. */
  function Overflow(n: nat): nat {
    if n > MaxQueueSize then n - MaxQueueSize else 0
  }

  /** One push onto a queue within the bound is a window of the queue extended by the message. */
  lemma PushIsWindow(q: seq<QueuedMessage>, m: QueuedMessage)
    requires |q| <= MaxQueueSize
    ensures Push(q, m) == (q + [m])[Overflow(|q| + 1)..]
  {
    if |q| >= MaxQueueSize {
      assert (q + [m])[1..] == q[1..] + [m];
    } else {
      assert (q + [m])[0..] == q + [m];
    }
  }

  /** Dropping for one push, then for the rest, drops as much as for all at once. */
  lemma OverflowStep(n: nat, k: nat)
    requires n <= MaxQueueSize
    ensures Overflow(n + 1) + Overflow(n + 1 - Overflow(n + 1) + k) == Overflow(n + 1 + k)
  {
  }

  /** A window followed by more messages is a window of the longer sequence. */
  lemma SlideAppend(a: seq<QueuedMessage>, rest: seq<QueuedMessage>, d: nat)
    requires d <= |a|
    ensures a[d..] + rest == (a + rest)[d..]
  {
  }

  /** Taking a window of a window. */
  lemma WindowOfWindow(s: seq<QueuedMessage>, d: nat, o: nat)
    requires d + o <= |s|
    ensures s[d..][o..] == s[d + o..]
  {
  }

  /**
    The queue is a sliding window: after any run of pushes onto a queue
    within the bound, it holds exactly the newest `MaxQueueSize` messages of
    the old contents followed by the run, in order.
   */
  lemma {:induction false} PushAllKeepsNewest(q: seq<QueuedMessage>, ms: seq<QueuedMessage>)
    requires |q| <= MaxQueueSize
    ensures PushAll(q, ms) == (q + ms)[Overflow(|q| + |ms|)..]
    decreases |ms|
  {
    if |ms| == 0 {
      assert q + ms == q;
    } else {
      WindowStep(q, ms);
      PushAllKeepsNewest(Push(q, ms[0]), ms[1..]);
    }
  }

  /** The window after one push, extended by the remaining messages and windowed again. */
  lemma WindowStep(q: seq<QueuedMessage>, ms: seq<QueuedMessage>)
    requires |q| <= MaxQueueSize && |ms| > 0
    ensures var q1 := Push(q, ms[0]);
      && |q1| <= MaxQueueSize
      && (q1 + ms[1..])[Overflow(|q1| + |ms[1..]|)..] == (q + ms)[Overflow(|q| + |ms|)..]
  {
    var m, rest := ms[0], ms[1..];
    var d := Overflow(|q| + 1);
    PushIsWindow(q, m);
    var q1 := (q + [m])[d..];
    var o := Overflow(|q1| + |rest|);
    OverflowStep(|q|, |rest|);
    SlideAppend(q + [m], rest, d);
    assert (q + [m]) + rest == q + ms;
    WindowOfWindow(q + ms, d, o);
  }

  /** The messages of a queue that have not expired, in queue order. */
  function KeepFresh(q: seq<QueuedMessage>, now: int, expiration: int): (r: seq<QueuedMessage>)
    ensures |r| <= |q|
    ensures forall m :: m in r ==> m in q && !Expired(m, now, expiration)
    ensures forall i :: 0 <= i < |q| && !Expired(q[i], now, expiration) ==> q[i] in r
  {
    if |q| == 0 then []
    else if Expired(q[0], now, expiration) then KeepFresh(q[1..], now, expiration)
    else [q[0]] + KeepFresh(q[1..], now, expiration)
  }

  /** Expiry keeps relative order: it works piece by piece over a concatenation. */
  lemma {:induction false} KeepFreshAppend(a: seq<QueuedMessage>, b: seq<QueuedMessage>, now: int, expiration: int)
    ensures KeepFresh(a + b, now, expiration) == KeepFresh(a, now, expiration) + KeepFresh(b, now, expiration)
    decreases |a|
  {
    if |a| == 0 {
      assert a + b == b;
    } else {
      assert (a + b)[0] == a[0];
      assert (a + b)[1..] == a[1..] + b;
      KeepFreshAppend(a[1..], b, now, expiration);
    }
  }

  /** Cleaning up twice at the same time is the same as once. */
  lemma {:induction false} KeepFreshIdempotent(q: seq<QueuedMessage>, now: int, expiration: int)
    ensures KeepFresh(KeepFresh(q, now, expiration), now, expiration) == KeepFresh(q, now, expiration)
    decreases |q|
  {
    if |q| > 0 {
      KeepFreshIdempotent(q[1..], now, expiration);
      if !Expired(q[0], now, expiration) {
        var rest := KeepFresh(q[1..], now, expiration);
        assert ([q[0]] + rest)[1..] == rest;
      }
    }
  }

  /** `CleanupExpiredMessages`: every queue loses exactly its expired messages. */
  function CleanupExpiredMessages(mgr: Manager, now: int): (r: Manager)
    ensures r.queues.Keys == mgr.queues.Keys
    ensures forall id :: id in r.queues ==> r.queues[id] == KeepFresh(mgr.queues[id], now, mgr.expiration)
    ensures r.connected == mgr.connected && r.expiration == mgr.expiration
    ensures QueuesBounded(mgr) ==> QueuesBounded(r)
  {
    mgr.(queues := map id | id in mgr.queues :: KeepFresh(mgr.queues[id], now, mgr.expiration))
  }

  // ---------------------------------------------------------------------
  // sendQueuedMessages
  // ---------------------------------------------------------------------

  /**
    `sendQueuedMessages` as written. After `queue.Remove(e)` Go's list
    clears `e`'s links, so `e.Next()` is nil and the loop ends: a call
    removes at most the front message, dropping it if expired and sending
    it if not. A failed write (`writeOk` false) leaves the queue alone.
    Returns the queue left and the messages written.
   */
  function SendQueuedMessagesAsWritten(q: seq<QueuedMessage>, now: int, expiration: int, writeOk: bool)
    : (r: (seq<QueuedMessage>, seq<string>))
    ensures r.0 == q || (|q| > 0 && r.0 == q[1..])
    ensures |r.1| <= 1
    ensures |q| == 0 ==> r == (q, [])
    ensures |q| > 0 && Expired(q[0], now, expiration) ==> r == (q[1..], [])
    ensures |q| > 0 && !Expired(q[0], now, expiration) && writeOk ==> r == (q[1..], [q[0].message])
    ensures |q| > 0 && !Expired(q[0], now, expiration) && !writeOk ==> r == (q, [])
  {
    if |q| == 0 then (q, [])
    else if Expired(q[0], now, expiration) then (q[1..], [])
    else if !writeOk then (q, [])
    else (q[1..], [q[0].message])
  }

  /** The texts of a run of queued messages. */
  function Messages(q: seq<QueuedMessage>): (r: seq<string>)
    ensures |r| == |q| && forall i :: 0 <= i < |q| ==> r[i] == q[i].message
  {
    seq(|q|, i requires 0 <= i < |q| => q[i].message)
  }

  /**
    What the loop evidently intends: walk the whole queue, dropping expired
    messages and sending the others, until a write fails. `okWrites` is how
    many writes succeed before one fails (`None`: none fails). The message
    whose write fails stays at the front, followed by everything after it.
   */
  function FlushQueue(q: seq<QueuedMessage>, now: int, expiration: int, okWrites: Option<nat>)
    : (r: (seq<QueuedMessage>, seq<string>))
    ensures |r.0| <= |q| && r.0 == q[|q| - |r.0|..]
    ensures |r.0| > 0 ==> !Expired(r.0[0], now, expiration) && okWrites.Some? && |r.1| == okWrites.value
    decreases |q|
  {
    if |q| == 0 then ([], [])
    else if Expired(q[0], now, expiration) then
      FlushQueue(q[1..], now, expiration, okWrites)
    else if okWrites == Some(0) then (q, [])
    else
      var r := FlushQueue(q[1..], now, expiration, if okWrites.Some? then Some(okWrites.value - 1) else None);
      (r.0, [q[0].message] + r.1)
  }

  lemma MessagesAppend(a: seq<QueuedMessage>, b: seq<QueuedMessage>)
    ensures Messages(a + b) == Messages(a) + Messages(b)
  {
  }

  /**
    Flushing loses nothing and reorders nothing: the messages sent, followed
    by the live messages left queued, are the live messages of the queue.
   */
  lemma {:induction false} FlushQueueConserves(q: seq<QueuedMessage>, now: int, expiration: int, okWrites: Option<nat>)
    ensures var r := FlushQueue(q, now, expiration, okWrites);
      r.1 + Messages(KeepFresh(r.0, now, expiration)) == Messages(KeepFresh(q, now, expiration))
    decreases |q|
  {
    if |q| == 0 {
    } else if Expired(q[0], now, expiration) {
      FlushQueueConserves(q[1..], now, expiration, okWrites);
    } else if okWrites == Some(0) {
    } else {
      var next := if okWrites.Some? then Some(okWrites.value - 1) else None;
      FlushQueueConserves(q[1..], now, expiration, next);
      var r := FlushQueue(q[1..], now, expiration, next);
      var live := KeepFresh(q[1..], now, expiration);
      assert FlushQueue(q, now, expiration, okWrites) == (r.0, [q[0].message] + r.1);
      assert KeepFresh(q, now, expiration) == [q[0]] + live;
      MessagesCons(q[0], live);
      ConsAssoc(q[0].message, r.1, Messages(KeepFresh(r.0, now, expiration)), Messages(live));
    }
  }

  lemma MessagesCons(m: QueuedMessage, q: seq<QueuedMessage>)
    ensures Messages([m] + q) == [m.message] + Messages(q)
  {
    MessagesAppend([m], q);
  }

  lemma ConsAssoc(x: string, a: seq<string>, b: seq<string>, c: seq<string>)
    requires a + b == c
    ensures ([x] + a) + b == [x] + c
  {
  }

  /** With every write succeeding, the corrected loop empties the queue and sends every live message in order. */
  lemma FlushQueueDeliversAll(q: seq<QueuedMessage>, now: int, expiration: int)
    ensures FlushQueue(q, now, expiration, None) == ([], Messages(KeepFresh(q, now, expiration)))
  {
    FlushQueueConserves(q, now, expiration, None);
    var r := FlushQueue(q, now, expiration, None);
    assert r.0 == [];
    assert KeepFresh(r.0, now, expiration) == [];
    assert Messages([]) == [];
    assert r.1 + [] == r.1;
  }

  /**
    The discrepancy: two live messages and a healthy connection, yet the
    written loop sends only the first and leaves the second queued, where
    the intended loop sends both.
   */
  lemma SendQueuedMessagesStopsEarly(now: int)
    ensures var q := [QueuedMessage("a", now), QueuedMessage("b", now)];
      && SendQueuedMessagesAsWritten(q, now, MessageExpiration, true) == ([QueuedMessage("b", now)], ["a"])
      && FlushQueue(q, now, MessageExpiration, None) == ([], ["a", "b"])
  {
    var q := [QueuedMessage("a", now), QueuedMessage("b", now)];
    assert q[1..] == [QueuedMessage("b", now)];
    FlushQueueDeliversAll(q, now, MessageExpiration);
    assert q[1..][1..] == [];
    assert KeepFresh(q[1..], now, MessageExpiration) == [q[1]] + KeepFresh(q[1..][1..], now, MessageExpiration);
    assert KeepFresh(q, now, MessageExpiration) == [q[0]] + KeepFresh(q[1..], now, MessageExpiration);
    assert KeepFresh(q, now, MessageExpiration) == q;
    assert Messages(q) == ["a", "b"];
  }

  /**
    The written loop is the first step of the intended one: on a working
    connection, what it sends followed by what flushing its leftover queue
    sends is what flushing the whole queue sends, and both leave the same
    queue behind.
   */
  lemma AsWrittenIsFirstFlushStep(q: seq<QueuedMessage>, now: int, expiration: int)
    ensures var (left, sent) := SendQueuedMessagesAsWritten(q, now, expiration, true);
      var rest := FlushQueue(left, now, expiration, None);
      (rest.0, sent + rest.1) == FlushQueue(q, now, expiration, None)
  {
    var rest := FlushQueue(SendQueuedMessagesAsWritten(q, now, expiration, true).0, now, expiration, None);
    if |q| == 0 || Expired(q[0], now, expiration) {
      assert [] + rest.1 == rest.1;
    }
  }

  /**
    `sendQueuedMessages` on connect, as written: a service without a queue
    is left alone; otherwise only the front of its queue is handled, as
    `SendQueuedMessagesAsWritten` says, and the other queues are untouched.
   */
  function SendQueuedMessages(mgr: Manager, serviceId: string, now: int, writeOk: bool)
    : (r: (Manager, seq<string>))
    ensures serviceId !in mgr.queues ==> r == (mgr, [])
    ensures serviceId in mgr.queues ==>
      var q := mgr.queues[serviceId];
      && serviceId in r.0.queues
      && |r.1| <= 1
      && (|q| > 0 && Expired(q[0], now, mgr.expiration) ==> r.0.queues[serviceId] == q[1..] && r.1 == [])
      && (|q| > 0 && !Expired(q[0], now, mgr.expiration) && writeOk ==>
            r.0.queues[serviceId] == q[1..] && r.1 == [q[0].message])
      && (|q| == 0 || (!Expired(q[0], now, mgr.expiration) && !writeOk) ==> r.0.queues[serviceId] == q && r.1 == [])
    ensures r.0.connected == mgr.connected && r.0.expiration == mgr.expiration
    ensures forall id :: id != serviceId ==>
      (id in r.0.queues <==> id in mgr.queues) && (id in mgr.queues ==> r.0.queues[id] == mgr.queues[id])
    ensures QueuesBounded(mgr) ==> QueuesBounded(r.0)
  {
    if serviceId !in mgr.queues then (mgr, [])
    else
      var (rest, sent) := SendQueuedMessagesAsWritten(mgr.queues[serviceId], now, mgr.expiration, writeOk);
      (mgr.(queues := mgr.queues[serviceId := rest]), sent)
  }

  /**
    `sendQueuedMessages` on connect, with the intended loop: a service
    without a queue is left alone; otherwise its queue is flushed.
   */
  function SendQueuedMessagesIntended(mgr: Manager, serviceId: string, now: int, okWrites: Option<nat>)
    : (r: (Manager, seq<string>))
    ensures serviceId !in mgr.queues ==> r == (mgr, [])
    ensures serviceId in mgr.queues ==>
      && serviceId in r.0.queues
      && (r.0.queues[serviceId], r.1) == FlushQueue(mgr.queues[serviceId], now, mgr.expiration, okWrites)
    ensures r.0.connected == mgr.connected && r.0.expiration == mgr.expiration
    ensures forall id :: id != serviceId ==>
      (id in r.0.queues <==> id in mgr.queues) && (id in mgr.queues ==> r.0.queues[id] == mgr.queues[id])
    ensures QueuesBounded(mgr) ==> QueuesBounded(r.0)
  {
    if serviceId !in mgr.queues then (mgr, [])
    else
      var (rest, sent) := FlushQueue(mgr.queues[serviceId], now, mgr.expiration, okWrites);
      (mgr.(queues := mgr.queues[serviceId := rest]), sent)
  }

  // ---------------------------------------------------------------------
  // Acknowledgement, errors, sending and dispatch
  // ---------------------------------------------------------------------

  /** The acknowledgement frame `{"type":"ACK","id":…}`; the JSON encoding itself is not modelled. */
  datatype Ack = Ack(typ: string, id: string)

  /**
    `acknowledgeMessageReceived`: nothing is written for the ID `"pong"`;
    otherwise an ACK carrying the ID is written, and a failed write
    (`writeErr`) is reported.
   */
  function AcknowledgeMessageReceived(id: string, writeErr: Option<string>): (r: (Option<Ack>, Option<string>))
    ensures r.0.None? <==> id == WsPong
    ensures r.0.Some? ==> r.0.value == Ack("ACK", id)
    ensures r.1.Some? <==> id != WsPong && writeErr.Some?
    ensures r.1.Some? ==> r.1.value == "failed to send acknowledgement of receipt: " + writeErr.value
  {
    if id == WsPong then (None, None)
    else (Some(Ack("ACK", id)), if writeErr.Some? then Some("failed to send acknowledgement of receipt: " + writeErr.value) else None)
  }

  /**
    `parseError`: no error for the empty string, otherwise the error
    `fmt.Errorf` builds with the string as its format and no operands.
   */
  datatype FormattedError = FormattedError(format: string)

  function ParseError(errStr: string): (r: Option<FormattedError>)
    ensures r.None? <==> errStr == ""
    ensures r.Some? ==> r.value.format == errStr
  {
    if errStr == "" then None else Some(FormattedError(errStr))
  }

  /**
    The message of that error, as stored with a task result: the text as
    `fmt` prints it with no operands, so plain text is kept as it is and
    each `%` directive is rewritten.
   */
  function ErrorMessage(e: Option<FormattedError>): (r: Option<string>)
    ensures r.Some? <==> e.Some?
    ensures r.Some? ==> r.value == Fmt.FormatNoArgs(e.value.format)
    ensures r.Some? && Fmt.NoPercent(e.value.format) ==> r.value == e.value.format
  {
    if e.Some? then
      var m := Fmt.FormatNoArgs(e.value.format);
      assert Fmt.NoPercent(e.value.format) ==> m == e.value.format by {
        if Fmt.NoPercent(e.value.format) {
          Fmt.FormatOfPlainText(e.value.format);
        }
      }
      Some(m)
    else None
  }

  datatype SendOutcome =
    | MarshalFailed(reason: string)
    | Dropped                          // not connected: nothing written, nothing queued
    | Written(frame: string, writeError: Option<string>)

  /**
    `SendTask`: encoding happens first (`marshalErr` is its error), then a
    disconnected service gets nothing and no error, and a connected one
    gets the frame, with the write's error passed through.
   */
  function SendTask(mgr: Manager, serviceId: string, frame: string, marshalErr: Option<string>, writeErr: Option<string>)
    : (r: SendOutcome)
    ensures marshalErr.Some? ==>
      r == MarshalFailed("failed to convert message to JSON for service " + serviceId + ": " + marshalErr.value)
    ensures marshalErr.None? && serviceId !in mgr.connected ==> r == Dropped
    ensures marshalErr.None? && serviceId in mgr.connected ==> r == Written(frame, writeErr)
  {
    if marshalErr.Some? then MarshalFailed("failed to convert message to JSON for service " + serviceId + ": " + marshalErr.value)
    else if serviceId !in mgr.connected then Dropped
    else Written(frame, writeErr)
  }

  /** A task's report over the socket (`TaskResult`), as far as dispatch reads it. */
  datatype TaskResult = TaskResult(
    typ: string, taskId: string, executionId: string, serviceId: string,
    idempotencyKey: string, result: Option<string>, error: string, status: string)

  /** The envelope `{"id": …, "payload": …}` once decoded; either decoding step may fail. */
  datatype Envelope = Envelope(id: string, payload: Result<TaskResult, string>)

  datatype Handled = Handled(lastPong: Option<int>, stores: map<string, Store>, ack: Option<Ack>)

  /**
    `HandleMessage`. `stores` are the idempotency stores of the services the
    service finder knows. A pong records the time; a task result is
    recorded in its service's store (an unknown service is only logged);
    a status report and an unknown type change nothing. Then the envelope
    ID is acknowledged. Nothing happens at all when decoding fails.
   */
  function HandleMessage(env: Result<Envelope, string>, stores: map<string, Store>, now: int): (r: Handled)
    ensures env.Failure? || env.value.payload.Failure? ==> r == Handled(None, stores, None)
    ensures env.Success? && env.value.payload.Success? ==>
      var p := env.value.payload.value;
      && r.ack == AcknowledgeMessageReceived(env.value.id, None).0
      && (r.lastPong.Some? <==> p.typ == WsPong)
      && (r.lastPong.Some? ==> r.lastPong.value == now)
      && (p.typ == "task_result" && p.serviceId in stores ==>
            r.stores == stores[p.serviceId := UpdateExecutionResult(
              stores[p.serviceId], p.idempotencyKey, p.result, ErrorMessage(ParseError(p.error)), now)])
      && (p.typ != "task_result" || p.serviceId !in stores ==> r.stores == stores)
  {
    if env.Failure? || env.value.payload.Failure? then Handled(None, stores, None)
    else
      var p := env.value.payload.value;
      var ack := AcknowledgeMessageReceived(env.value.id, None).0;
      if p.typ == WsPong then Handled(Some(now), stores, ack)
      else if p.typ == "task_result" && p.serviceId in stores then
        var s := stores[p.serviceId];
        Handled(None, stores[p.serviceId := UpdateExecutionResult(s, p.idempotencyKey, p.result, ErrorMessage(ParseError(p.error)), now)], ack)
      else Handled(None, stores, ack)
  }

  /**
    A reported result with an empty error text completes the execution, and
    any other error text fails it, recording the text as `fmt` prints it:
    unchanged when it holds no `%`.
   */
  lemma TaskResultSettlesExecution(env: Envelope, stores: map<string, Store>, now: int)
    requires env.payload.Success? && env.payload.value.typ == "task_result"
    requires env.payload.value.serviceId in stores
    requires env.payload.value.idempotencyKey in stores[env.payload.value.serviceId].executions
    ensures var p := env.payload.value;
      var r := HandleMessage(Success(env), stores, now);
      var e := r.stores[p.serviceId].executions[p.idempotencyKey];
      && e.state == (if p.error == "" then ExecutionCompleted else ExecutionFailed)
      && e.result == p.result
      && (p.error != "" ==> e.error == Some(Fmt.FormatNoArgs(p.error)))
      && (p.error != "" && Fmt.NoPercent(p.error) ==> e.error == Some(p.error))
  {
  }
}
