/**
  Constants and the string codecs of `controlplane/config.go`: the
  orchestration `Status` and the `ServiceType`, and the pattern that
  recognises `$task.field` dependency references.

  Durations are integers in nanoseconds, Go's `time.Duration` unit.
 */
module Config {
  import opened Wrappers
  import opened Strs

  const Second: int := 1_000_000_000
  const Hour: int := 3600 * Second

  const TaskZero := "task0"
  const ResultAggregatorId := "result_aggregator"
  const FailureTrackerId := "failure_tracker"
  const WsPing := "ping"
  const WsPong := "pong"

  const LogsRetentionPeriod: int := 24 * Hour
  const MaxQueueSize: nat := 1000
  const WsWriteTimeOut: int := 120 * Second
  const WsMaxMessageBytes: int := 10 * 1024

  /** A JSON value, as far as the codecs look at it: a string or anything else. */
  datatype Json = JString(text: string) | JNonString

  datatype DecodeError =
    | NotAString            // `json.Unmarshal` into a Go string fails
    | Invalid(message: string)

  // ---------------------------------------------------------------------
  // Status
  // ---------------------------------------------------------------------

  datatype Status = Registered | Pending | Processing | Completed | Failed | NotActionable | Paused

  /** The integer behind each status: `iota + 1`, so 1 through 7 in declaration order. */
  function StatusCode(s: Status): (c: int)
    ensures 1 <= c <= 7
  {
    match s
    case Registered => 1
    case Pending => 2
    case Processing => 3
    case Completed => 4
    case Failed => 5
    case NotActionable => 6
    case Paused => 7
  }

  const StatusNames: seq<string> := ["registered", "pending", "processing", "completed", "failed", "not-actionable", "paused"]

  /**
    `Status.String` on the underlying integer: indexes the name table at
    `code - 1`. Codes outside 1..7 index out of range, which panics in Go;
    here they give `None`.
   */
  function CodeString(code: int): (r: Option<string>)
    ensures r.Some? <==> 1 <= code <= 7
    ensures r.Some? ==> r.value == StatusNames[code - 1]
  {
    if 1 <= code <= |StatusNames| then Some(StatusNames[code - 1]) else None
  }

  /** `Status.String`: the status's name, which the `UnmarshalJSON` switch maps back to it. */
  function StatusString(s: Status): (r: string)
    ensures r in StatusNames
    ensures StatusByName(r) == Some(s)
  {
    CodeString(StatusCode(s)).value
  }

  /** The seven codes are distinct and so are their names: `String` is injective. */
  lemma StatusStringInjective(a: Status, b: Status)
    ensures StatusCode(a) == StatusCode(b) ==> a == b
    ensures StatusString(a) == StatusString(b) ==> a == b
  {
  }

  /** The text `UnmarshalJSON` switches on: trimmed, then lower-cased. */
  function Normalize(text: string): string {
    ToLower(TrimSpace(text))
  }

  /** The switch of `Status.UnmarshalJSON`. */
  function StatusByName(name: string): Option<Status> {
    match name
    case "registered" => Some(Registered)
    case "pending" => Some(Pending)
    case "processing" => Some(Processing)
    case "completed" => Some(Completed)
    case "failed" => Some(Failed)
    case "not-actionable" => Some(NotActionable)
    case "paused" => Some(Paused)
    case _ => None
  }

  lemma StatusByNameOfString(s: Status)
    ensures StatusByName(StatusString(s)) == Some(s)
  {
  }

  /** The switch accepts exactly the seven names and maps each to its status. */
  lemma StatusByNameCorrect(name: string)
    ensures StatusByName(name).Some? ==> name == StatusString(StatusByName(name).value)
    ensures StatusByName(name).None? ==> forall s :: name != StatusString(s)
  {
    forall s | name == StatusString(s)
      ensures StatusByName(name) == Some(s)
    {
      StatusByNameOfString(s);
    }
  }

  function MarshalStatus(s: Status): (j: Json)
    ensures j.JString? && j.text == StatusString(s)
  {
    JString(StatusString(s))
  }

  /**
    `Status.UnmarshalJSON` as intended: an unknown name is reported with
    the text that was read, as `ServiceType.UnmarshalJSON` does.
   */
  function UnmarshalStatus(j: Json): (r: Result<Status, DecodeError>)
    ensures j.JNonString? ==> r == Failure(NotAString)
    ensures j.JString? && r.Success? ==> Normalize(j.text) == StatusString(r.value)
    ensures j.JString? ==> r.Failure? ==>
      r.error == Invalid("invalid Status: " + j.text) && forall s :: Normalize(j.text) != StatusString(s)
  {
    match j
    case JNonString => Failure(NotAString)
    case JString(text) =>
      var name := Normalize(text);
      StatusByNameCorrect(name);
      match StatusByName(name)
      case Some(s) => Success(s)
      case None => Failure(Invalid("invalid Status: " + text))
  }

  /** Decimal digits of a natural number, most significant first. */
  function NatString(n: nat): (r: string)
    ensures |r| > 0
    ensures forall k :: 0 <= k < |r| ==> '0' <= r[k] <= '9'
    decreases n
  {
    var d := ['0' + (n % 10) as char];
    if n < 10 then d else NatString(n / 10) + d
  }

  /** Go's `%d` of an integer. */
  function IntString(i: int): string {
    if i < 0 then "-" + NatString(-i) else NatString(i)
  }

  /**
    What `%+v` prints for the `*Status` receiver: `String()` indexes the
    name table at `code - 1`; when that is out of range the runtime panics
    and `fmt` prints the recovered panic instead of a value.
   */
  function ReceiverText(code: int): (r: string)
    ensures 1 <= code <= 7 ==> r == StatusNames[code - 1]
    ensures !(1 <= code <= 7) ==> IsPrefix("%!v(PANIC=String method: runtime error: index out of range [", r)
  {
    match CodeString(code)
    case Some(name) => name
    case None =>
      var index := "[" + IntString(code - 1) + "]";
      var bounds := if code - 1 < 0 then "" else " with length 7";
      var prefix := "%!v(PANIC=String method: runtime error: index out of range ";
      assert (prefix + index + bounds + ")")[..|prefix| + 1] == prefix + "[";
      prefix + index + bounds + ")"
  }

  /**
    `Status.UnmarshalJSON` as written: the unknown-name error formats the
    receiver `s`, whose value is still `current` (the switch assigns only
    on a match), instead of the text that was read.
   */
  function UnmarshalStatusAsWritten(current: int, j: Json): (r: Result<Status, DecodeError>)
    ensures r.Success? <==> UnmarshalStatus(j).Success?
    ensures r.Success? ==> r == UnmarshalStatus(j)
    ensures j.JNonString? ==> r == Failure(NotAString)
    ensures j.JString? && r.Failure? ==> r.error == Invalid("invalid Status: " + ReceiverText(current))
  {
    match j
    case JNonString => Failure(NotAString)
    case JString(text) =>
      match StatusByName(Normalize(text))
      case Some(s) => Success(s)
      case None => Failure(Invalid("invalid Status: " + ReceiverText(current)))
  }

  /**
    The as-written error never names the rejected text: two unknown names
    decoded into the same receiver give the same error.
   */
  lemma AsWrittenErrorIgnoresInput(current: int, a: string, b: string)
    requires StatusByName(Normalize(a)).None? && StatusByName(Normalize(b)).None?
    ensures UnmarshalStatusAsWritten(current, JString(a)) == UnmarshalStatusAsWritten(current, JString(b))
  {
  }

  /** A zero-valued receiver prints as the recovered panic of `String()` at index -1. */
  lemma ReceiverTextOfZero()
    ensures ReceiverText(0) == "%!v(PANIC=String method: runtime error: index out of range [-1])"
  {
    assert NatString(1) == "1";
    assert IntString(-1) == "-1";
    assert CodeString(0) == None;
  }

  lemma BogusIsUnknown()
    ensures StatusByName(Normalize("bogus")) == None
  {
    assert LowerName("bogus");
    NormalizeOfLowerName("bogus");
  }

  /**
    Decoding "bogus" into a zero-valued status: the error is the recovered
    panic of `String()` at index -1, where the intended error names "bogus".
   */
  lemma AsWrittenStatusErrorOnZero()
    ensures UnmarshalStatusAsWritten(0, JString("bogus")) ==
      Failure(Invalid("invalid Status: " + "%!v(PANIC=String method: runtime error: index out of range [-1])"))
    ensures UnmarshalStatus(JString("bogus")) == Failure(Invalid("invalid Status: " + "bogus"))
  {
    BogusIsUnknown();
    ReceiverTextOfZero();
  }

  /** A name made of lower-case letters and dashes, as every codec name is. */
  predicate LowerName(text: string) {
    && |text| > 0
    && forall k :: 0 <= k < |text| ==> 'a' <= text[k] <= 'z' || text[k] == '-'
  }

  /** Such a name is its own normal form. */
  lemma NormalizeOfLowerName(text: string)
    requires LowerName(text)
    ensures Normalize(text) == text
  {
    TrimSpaceOfTrimmed(text);
    ToLowerOfLower(text);
  }

  lemma StatusNamesLower(s: Status)
    ensures LowerName(StatusString(s))
  {
    match s
    case Registered => assert LowerName("registered");
    case Pending => assert LowerName("pending");
    case Processing => assert LowerName("processing");
    case Completed => assert LowerName("completed");
    case Failed => assert LowerName("failed");
    case NotActionable => assert LowerName("not-actionable");
    case Paused => assert LowerName("paused");
  }

  /** Round trip: every status survives marshalling and unmarshalling. */
  lemma StatusRoundTrip(s: Status)
    ensures UnmarshalStatus(MarshalStatus(s)) == Success(s)
  {
    StatusNamesLower(s);
    NormalizeOfLowerName(StatusString(s));
    StatusByNameOfString(s);
  }

  /** Case and surrounding whitespace do not matter when parsing. */
  lemma StatusParseIgnoresCaseAndSpace(s: Status, text: string)
    requires Normalize(text) == StatusString(s)
    ensures UnmarshalStatus(JString(text)) == Success(s)
  {
    StatusByNameOfString(s);
  }

  // ---------------------------------------------------------------------
  // ServiceType
  // ---------------------------------------------------------------------

  datatype ServiceType = Agent | Service

  /** `iota`: Agent is 0, Service is 1. */
  function ServiceTypeCode(t: ServiceType): (c: int)
    ensures 0 <= c <= 1
    ensures c == 0 <==> t == Agent
  {
    match t
    case Agent => 0
    case Service => 1
  }

  const ServiceTypeNames: seq<string> := ["agent", "service"]

  /** `ServiceType.String` indexes the name table by the code itself. */
  function ServiceTypeString(t: ServiceType): (r: string)
    ensures r == "agent" <==> t == Agent
    ensures r == "service" <==> t == Service
  {
    ServiceTypeNames[ServiceTypeCode(t)]
  }

  function MarshalServiceType(t: ServiceType): (j: Json)
    ensures j.JString? && j.text == ServiceTypeString(t)
  {
    JString(ServiceTypeString(t))
  }

  /** `ServiceType.UnmarshalJSON`. */
  function UnmarshalServiceType(j: Json): (r: Result<ServiceType, DecodeError>)
    ensures j.JNonString? ==> r == Failure(NotAString)
    ensures j.JString? && r.Success? ==> Normalize(j.text) == ServiceTypeString(r.value)
    ensures j.JString? ==> r.Failure? ==>
      r.error == Invalid("invalid ServiceType: " + j.text) && forall t :: Normalize(j.text) != ServiceTypeString(t)
  {
    match j
    case JNonString => Failure(NotAString)
    case JString(text) =>
      var name := Normalize(text);
      if name == "agent" then Success(Agent)
      else if name == "service" then Success(Service)
      else
        assert forall t :: name != ServiceTypeString(t) by {
          forall t ensures name != ServiceTypeString(t) {
            if t == Agent { assert ServiceTypeString(t) == "agent"; }
            else { assert ServiceTypeString(t) == "service"; }
          }
        }
        Failure(Invalid("invalid ServiceType: " + text))
  }

  lemma ServiceTypeRoundTrip(t: ServiceType)
    ensures UnmarshalServiceType(MarshalServiceType(t)) == Success(t)
  {
    if t == Agent {
      AgentRoundTrip();
    } else {
      ServiceRoundTrip();
    }
  }

  lemma AgentRoundTrip()
    ensures UnmarshalServiceType(MarshalServiceType(Agent)) == Success(Agent)
  {
    assert MarshalServiceType(Agent) == JString("agent");
    assert LowerName("agent");
    NormalizeOfLowerName("agent");
  }

  lemma ServiceRoundTrip()
    ensures UnmarshalServiceType(MarshalServiceType(Service)) == Success(Service)
  {
    assert MarshalServiceType(Service) == JString("service");
    assert LowerName("service");
    NormalizeOfLowerName("service");
    assert "service" != "agent";
  }

  // ---------------------------------------------------------------------
  // DependencyPattern `^\$([^.]+)\.`
  // ---------------------------------------------------------------------

  /**
    The pattern matches `s` with a capture of length `n`: `s` starts with
    `$`, then `n >= 1` characters none of which is `.`, then a `.`.
   */
  predicate DependencyMatch(s: string, n: nat) {
    && 1 <= n
    && n + 2 <= |s|
    && s[0] == '$'
    && s[n + 1] == '.'
    && (forall j :: 1 <= j <= n ==> s[j] != '.')
  }

  /**
    The task ID a `$task.field` reference depends on: the captured group, or
    `""` when the pattern does not match.
   */
  function ExtractDependencyId(s: string): (r: string)
    ensures forall n :: DependencyMatch(s, n) ==> r == s[1..n + 1]
    ensures r == "" <==> forall n :: !DependencyMatch(s, n)
  {
    if |s| == 0 || s[0] != '$' then ""
    else
      var n := IndexOfAny(s[1..], {'.'});
      if n == 0 || n == |s| - 1 then
        assert forall m: nat :: !DependencyMatch(s, m) by {
          forall m: nat | 1 <= m && m + 2 <= |s|
            ensures s[1..][m] == s[m + 1]
          {
          }
        }
        ""
      else
        assert DependencyMatch(s, n) by {
          assert forall j :: 1 <= j <= n ==> s[j] == s[1..][j - 1];
        }
        assert forall m: nat :: DependencyMatch(s, m) ==> m == n by {
          forall m: nat | 1 <= m && m + 2 <= |s|
            ensures s[1..][m] == s[m + 1]
          {
          }
        }
        s[1..n + 1]
  }

  /** A reference `$id.rest` with a non-empty, dot-free `id` depends on `id`. */
  lemma ExtractDependencyIdOf(id: string, rest: string)
    requires |id| >= 1 && '.' !in id
    ensures ExtractDependencyId("$" + id + "." + rest) == id
  {
    var s := "$" + id + "." + rest;
    var n := |id|;
    assert s[1..n + 1] == id;
    ExtractDependencyIdAt(s, n);
  }

  /** The capture is the text between the `$` and the first `.`, when that text is not empty. */
  lemma ExtractDependencyIdAt(s: string, n: nat)
    requires 1 <= n && n + 1 < |s| && s[0] == '$' && s[n + 1] == '.'
    requires '.' !in s[1..n + 1]
    ensures ExtractDependencyId(s) == s[1..n + 1]
  {
    forall j | 1 <= j <= n
      ensures s[j] != '.'
    {
      assert s[j] == s[1..n + 1][j - 1];
    }
    assert DependencyMatch(s, n);
  }

  /** The matching cases the repository's unit test lists for the pattern. */
  lemma ExtractDependencyIdMatches()
    ensures ExtractDependencyId("$task0.param1") == "task0"
  {
    var s := "$task0.param1";
    assert s[1..6] == "task0";
    assert '.' !in "task0";
    ExtractDependencyIdAt(s, 5);
  }

  lemma ExtractDependencyIdMatchesDashes()
    ensures ExtractDependencyId("$complex-task-id.field") == "complex-task-id"
  {
    var s := "$complex-task-id.field";
    assert s[1..16] == "complex-task-id";
    assert '.' !in "complex-task-id";
    ExtractDependencyIdAt(s, 15);
  }

  /** The non-matching cases of the same test. */
  lemma ExtractDependencyIdRejects()
    ensures ExtractDependencyId("notadependency") == ""
    ensures ExtractDependencyId("$.invalid") == ""
    ensures ExtractDependencyId("$task0") == ""
    ensures ExtractDependencyId("") == ""
  {
    assert "notadependency"[0] == 'n';
    var b := "$.invalid";
    assert b[1] == '.';
    var c := "$task0";
    assert forall k :: 0 <= k < |c| ==> c[k] != '.';
  }
}
