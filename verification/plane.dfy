/**
  Plan preparation and execution in the control plane
  (`controlplane/plane.go`): cleaning the model's output, checking a calling
  plan against the registered services, deciding whether an action can be
  executed, running the parallel groups in order and resolving task inputs
  against earlier results.

  The language model's answer and the outcome of running one parallel group
  are inputs: every function here is pure. Go map iteration is taken in
  ascending key order; where that order could matter the contracts say only
  what holds for every order.
 */
module Plane {
  import opened Wrappers
  import opened Strs
  import opened Order
  import opened Config
  import opened Types

  // ---------------------------------------------------------------------
  // sanitizeJSONOutput
  // ---------------------------------------------------------------------

  const JsonFenceOpen := "```json"
  const Fence := "```"

  /** Removes `p` from the front of `s` when it is there (Go's `strings.TrimPrefix`). */
  function TrimPrefix(s: string, p: string): (r: string)
    ensures IsPrefix(p, s) ==> s == p + r
    ensures !IsPrefix(p, s) ==> r == s
  {
    if IsPrefix(p, s) then s[|p|..] else s
  }

  /** Removes `p` from the end of `s` when it is there (Go's `strings.TrimSuffix`). */
  function TrimSuffix(s: string, p: string): (r: string)
    ensures IsSuffix(p, s) ==> s == r + p
    ensures !IsSuffix(p, s) ==> r == s
  {
    if IsSuffix(p, s) then s[..|s| - |p|] else s
  }

  /** The trimmed text is wrapped in a ```` ```json ```` … ```` ``` ```` fence. */
  predicate Fenced(trimmed: string) {
    IsPrefix(JsonFenceOpen, trimmed) && IsSuffix(Fence, trimmed)
  }

  /**
    `sanitizeJSONOutput`: a fenced answer (after trimming) loses its fence
    and surrounding whitespace; any other answer is returned untouched,
    untrimmed.
   */
  function SanitizeJsonOutput(input: string): (r: string)
    ensures !Fenced(TrimSpace(input)) ==> r == input
    ensures Fenced(TrimSpace(input)) ==> r == TrimSpace(r) && |r| + 10 <= |TrimSpace(input)|
  {
    var trimmed := TrimSpace(input);
    if Fenced(trimmed) then
      var withoutEnd := Unfence(trimmed);
      var r := TrimSpace(withoutEnd);
      TrimSpaceIdempotent(withoutEnd);
      r
    else input
  }

  /** `TrimPrefix` of the opening fence, then `TrimSuffix` of the closing one: what lies between them. */
  function Unfence(trimmed: string): (r: string)
    requires Fenced(trimmed)
    ensures |trimmed| >= 10 && r == trimmed[7..|trimmed| - 3]
  {
    var withoutStart := TrimPrefix(trimmed, JsonFenceOpen);
    assert |trimmed| >= 10 by {
      assert trimmed[|trimmed| - 3] == Fence[0];
      assert forall k :: 0 <= k < 7 ==> trimmed[k] == JsonFenceOpen[k];
    }
    assert trimmed == JsonFenceOpen + withoutStart;
    assert (JsonFenceOpen + withoutStart)[7..] == withoutStart;
    assert IsSuffix(Fence, withoutStart) by {
      assert withoutStart[|withoutStart| - 3..] == trimmed[|trimmed| - 3..];
    }
    TrimSuffix(withoutStart, Fence)
  }

  lemma TrimSpaceIdempotent(s: string)
    ensures TrimSpace(TrimSpace(s)) == TrimSpace(s)
  {
    TrimSpaceOfTrimmed(TrimSpace(s));
  }

  /**
    The fence round trip: a trimmed JSON body wrapped in a fence, with any
    whitespace around the fence and inside it, comes back as the body.
   */
  lemma SanitizeFencedBody(body: string, before: string, inner1: string, inner2: string, after: string)
    requires body == [] || (!IsSpace(body[0]) && !IsSpace(body[|body| - 1]))
    requires forall k :: 0 <= k < |before| ==> IsSpace(before[k])
    requires forall k :: 0 <= k < |after| ==> IsSpace(after[k])
    requires forall k :: 0 <= k < |inner1| ==> IsSpace(inner1[k])
    requires forall k :: 0 <= k < |inner2| ==> IsSpace(inner2[k])
    ensures SanitizeJsonOutput(before + JsonFenceOpen + inner1 + body + inner2 + Fence + after) == body
  {
    var core := inner1 + body + inner2;
    var fenced := JsonFenceOpen + core + Fence;
    assert before + JsonFenceOpen + inner1 + body + inner2 + Fence + after == before + fenced + after;
    assert fenced[0] == '`' && fenced[|fenced| - 1] == '`';
    TrimSpaceOfFramed(before, fenced, after);
    FenceParts(core);
    SanitizeOfFenced(before + fenced + after, fenced);
    TrimSpaceOfPadded(inner1, body, inner2);
  }

  lemma FenceParts(core: string)
    ensures var fenced := JsonFenceOpen + core + Fence;
      Fenced(fenced) && fenced[7..|fenced| - 3] == core
  {
    var fenced := JsonFenceOpen + core + Fence;
    assert fenced[..7] == JsonFenceOpen;
    assert fenced[|fenced| - 3..] == Fence;
  }

  lemma SanitizeOfFenced(input: string, fenced: string)
    requires TrimSpace(input) == fenced && Fenced(fenced)
    ensures |fenced| >= 10 && SanitizeJsonOutput(input) == TrimSpace(fenced[7..|fenced| - 3])
  {
    var u := Unfence(fenced);
    assert u == fenced[7..|fenced| - 3];
  }

  /** Whitespace around a text whose ends are not whitespace is what `TrimSpace` removes. */
  lemma TrimSpaceOfFramed(before: string, mid: string, after: string)
    requires |mid| > 0 && !IsSpace(mid[0]) && !IsSpace(mid[|mid| - 1])
    requires forall k :: 0 <= k < |before| ==> IsSpace(before[k])
    requires forall k :: 0 <= k < |after| ==> IsSpace(after[k])
    ensures TrimSpace(before + mid + after) == mid
  {
    var s := before + mid + after;
    var r := TrimSpace(s);
    var i: nat :| SpaceBounded(s, r, i);
    var lo, hi := |before|, |before| + |mid| - 1;
    assert s[lo] == mid[0] && !IsSpace(s[lo]);
    assert s[hi] == mid[|mid| - 1] && !IsSpace(s[hi]);
    assert i <= lo < i + |r|;
    assert i <= hi < i + |r|;
    assert forall k :: 0 <= k < lo ==> IsSpace(s[k]);
    assert forall k :: hi < k < |s| ==> IsSpace(s[k]);
    assert r[0] == s[i];
    assert r[|r| - 1] == s[i + |r| - 1];
    assert i == lo;
    assert i + |r| - 1 == hi;
    assert r == s[|before|..|before| + |mid|];
  }

  lemma TrimSpaceOfPadded(before: string, mid: string, after: string)
    requires mid == [] || (!IsSpace(mid[0]) && !IsSpace(mid[|mid| - 1]))
    requires forall k :: 0 <= k < |before| ==> IsSpace(before[k])
    requires forall k :: 0 <= k < |after| ==> IsSpace(after[k])
    ensures TrimSpace(before + mid + after) == mid
  {
    if |mid| > 0 {
      TrimSpaceOfFramed(before, mid, after);
    } else {
      var s := before + mid + after;
      assert forall k :: 0 <= k < |s| ==> IsSpace(s[k]);
    }
  }

  // ---------------------------------------------------------------------
  // Service lookup, validateInput, addServiceDetails
  // ---------------------------------------------------------------------

  /** `Spec.IncludesProp`: the input schema declares the property. */
  predicate IncludesProp(spec: Spec, key: string) {
    key in spec.properties
  }

  /** Services by ID; for a repeated ID the later service wins. */
  function ServiceMap(services: seq<ServiceInfo>): (m: map<string, ServiceInfo>)
    ensures forall id :: id in m <==> exists i :: 0 <= i < |services| && services[i].id == id
    ensures forall id :: id in m ==> m[id].id == id && m[id] in services
  {
    if |services| == 0 then map[]
    else
      var init := services[..|services| - 1];
      var last := services[|services| - 1];
      var m0 := ServiceMap(init);
      assert forall i :: 0 <= i < |init| ==> init[i] == services[i];
      assert forall s :: s in init ==> s in services;
      m0[last.id := last]
  }

  /** For a repeated ID the map holds the service listed last. */
  lemma {:induction false} ServiceMapLastWins(services: seq<ServiceInfo>, i: nat)
    requires i < |services|
    requires forall j :: i < j < |services| ==> services[j].id != services[i].id
    ensures services[i].id in ServiceMap(services) && ServiceMap(services)[services[i].id] == services[i]
    decreases |services|
  {
    if i < |services| - 1 {
      var init := services[..|services| - 1];
      ServiceMapLastWins(init, i);
    }
  }

  /** A subtask names a registered service and uses only inputs that service declares. */
  predicate TaskValid(m: map<string, ServiceInfo>, t: SubTask) {
    t.service in m && forall k :: k in t.input ==> IncludesProp(m[t.service].schema.input, k)
  }

  datatype ValidationError =
    | ServiceNotFound(service: string, subtask: string)
    | InputNotSupported(input: string, service: string, subtask: string)

  function ValidationMessage(e: ValidationError): string {
    match e
    case ServiceNotFound(service, subtask) =>
      "service " + service + " not found for subtask " + subtask
    case InputNotSupported(input, service, subtask) =>
      "input " + input + " not supported by service " + service + " for subtask " + subtask
  }

  /** The error `validateInput` reports for one subtask, if any. */
  function TaskError(m: map<string, ServiceInfo>, t: SubTask): (r: Option<ValidationError>)
    ensures r.None? <==> TaskValid(m, t)
    ensures r.Some? ==> r.value.service == t.service && r.value.subtask == t.id
    ensures r.Some? ==> (r.value.ServiceNotFound? <==> t.service !in m)
    ensures r.Some? && r.value.InputNotSupported? ==>
      r.value.input in t.input && !IncludesProp(m[t.service].schema.input, r.value.input)
  {
    if t.service !in m then Some(ServiceNotFound(t.service, t.id))
    else
      var bad := set k | k in t.input && !IncludesProp(m[t.service].schema.input, k);
      assert forall k :: k in t.input ==> k in bad || IncludesProp(m[t.service].schema.input, k);
      if bad == {} then None
      else
        var k := MinKey(bad);
        Some(InputNotSupported(k, t.service, t.id))
  }

  /** The index of the first invalid subtask, or `|tasks|` when all are valid. */
  function FirstInvalid(m: map<string, ServiceInfo>, tasks: seq<SubTask>): (i: nat)
    ensures i <= |tasks|
    ensures forall j :: 0 <= j < i ==> TaskValid(m, tasks[j])
    ensures i < |tasks| ==> !TaskValid(m, tasks[i])
  {
    if |tasks| == 0 then 0
    else if !TaskValid(m, tasks[0]) then 0
    else 1 + FirstInvalid(m, tasks[1..])
  }

  /**
    `validateInput`: succeeds exactly when every subtask is valid; otherwise
    it reports the first invalid subtask. For a subtask with several
    unsupported inputs Go's map order picks which one is named; the model
    names the least, and the contract promises only that it is unsupported.
   */
  function ValidateInput(services: seq<ServiceInfo>, tasks: seq<SubTask>): (r: Option<ValidationError>)
    ensures r.None? <==> forall j :: 0 <= j < |tasks| ==> TaskValid(ServiceMap(services), tasks[j])
    ensures r.Some? ==>
      var i := FirstInvalid(ServiceMap(services), tasks);
      i < |tasks| && r == TaskError(ServiceMap(services), tasks[i])
  {
    var m := ServiceMap(services);
    var i := FirstInvalid(m, tasks);
    if i == |tasks| then None else TaskError(m, tasks[i])
  }

  /**
    Validation passes only when every input key of every subtask is a
    property its service declares, and one undeclared key of a registered
    service makes it fail.
   */
  lemma ValidatedInputsAreDeclared(services: seq<ServiceInfo>, tasks: seq<SubTask>, j: nat, k: string)
    requires j < |tasks| && k in tasks[j].input
    ensures ValidateInput(services, tasks).None? ==>
      tasks[j].service in ServiceMap(services) && IncludesProp(ServiceMap(services)[tasks[j].service].schema.input, k)
    ensures tasks[j].service in ServiceMap(services) && !IncludesProp(ServiceMap(services)[tasks[j].service].schema.input, k) ==>
      ValidateInput(services, tasks).Some?
  {
    var m := ServiceMap(services);
    if ValidateInput(services, tasks).None? {
      assert TaskValid(m, tasks[j]);
    }
  }

  /** `ServiceInfo.String`: `[type] name - description`. */
  function ServiceInfoString(s: ServiceInfo): (r: string)
    ensures |r| > |ServiceTypeString(s.typ)| + 1 && r[0] == '['
    ensures r[1..|ServiceTypeString(s.typ)| + 1] == ServiceTypeString(s.typ)
    ensures |r| >= |s.description| && r[|r| - |s.description|..] == s.description
  {
    "[" + ServiceTypeString(s.typ) + "] " + s.name + " - " + s.description
  }

  /** The description shows the service's type: equal descriptions mean equal types. */
  lemma ServiceInfoStringShowsType(a: ServiceInfo, b: ServiceInfo)
    ensures ServiceInfoString(a) == ServiceInfoString(b) ==> a.typ == b.typ
    ensures ServiceInfoString(a)[1] == (if a.typ == Agent then 'a' else 's')
  {
    var ta := ServiceTypeString(a.typ);
    var tb := ServiceTypeString(b.typ);
    assert ServiceInfoString(a) == "[" + (ta + "] " + a.name + " - " + a.description);
    assert ServiceInfoString(b) == "[" + (tb + "] " + b.name + " - " + b.description);
    assert ServiceInfoString(a)[1] == ta[0];
    assert ServiceInfoString(b)[1] == tb[0];
    if a.typ == Agent { assert ta == "agent"; } else { assert ta == "service"; }
    if b.typ == Agent { assert tb == "agent"; } else { assert tb == "service"; }
  }

  /** The subtask with its service description filled in. */
  function WithDetails(m: map<string, ServiceInfo>, t: SubTask): SubTask
    requires t.service in m
  {
    t.(serviceDetails := ServiceInfoString(m[t.service]))
  }

  /**
    `addServiceDetails`: every subtask gets its service's description; an
    unregistered service is an error naming the first such subtask.
   */
  function AddServiceDetails(services: seq<ServiceInfo>, tasks: seq<SubTask>): (r: Result<seq<SubTask>, ValidationError>)
    ensures r.Success? <==> AllRegistered(ServiceMap(services), tasks)
    ensures r.Success? ==> Detailed(ServiceMap(services), tasks, r.value)
    ensures r.Failure? ==> r.error.ServiceNotFound? && r.error.service !in ServiceMap(services)
  {
    var m := ServiceMap(services);
    if |tasks| == 0 then Success([])
    else
      RegisteredCons(m, tasks);
      if tasks[0].service !in m then Failure(ServiceNotFound(tasks[0].service, tasks[0].id))
      else
        match AddServiceDetails(services, tasks[1..])
        case Failure(e) => Failure(e)
        case Success(rest) =>
          DetailedCons(m, tasks, rest);
          Success([WithDetails(m, tasks[0])] + rest)
  }

  /** Every subtask names a registered service. */
  predicate AllRegistered(m: map<string, ServiceInfo>, tasks: seq<SubTask>) {
    forall j :: 0 <= j < |tasks| ==> tasks[j].service in m
  }

  /** `out` is `tasks`, one for one, each with its service's details. */
  predicate Detailed(m: map<string, ServiceInfo>, tasks: seq<SubTask>, out: seq<SubTask>) {
    |out| == |tasks| && forall j :: 0 <= j < |tasks| ==> tasks[j].service in m && out[j] == WithDetails(m, tasks[j])
  }

  lemma RegisteredCons(m: map<string, ServiceInfo>, tasks: seq<SubTask>)
    requires |tasks| > 0
    ensures AllRegistered(m, tasks) <==> tasks[0].service in m && AllRegistered(m, tasks[1..])
  {
    if tasks[0].service in m && AllRegistered(m, tasks[1..]) {
      forall j | 0 < j < |tasks| ensures tasks[j].service in m {
        assert tasks[j] == tasks[1..][j - 1];
      }
    }
  }

  lemma DetailedCons(m: map<string, ServiceInfo>, tasks: seq<SubTask>, rest: seq<SubTask>)
    requires |tasks| > 0 && tasks[0].service in m && Detailed(m, tasks[1..], rest)
    ensures Detailed(m, tasks, [WithDetails(m, tasks[0])] + rest)
  {
    var out := [WithDetails(m, tasks[0])] + rest;
    forall j | 0 < j < |tasks| ensures tasks[j].service in m && out[j] == WithDetails(m, tasks[j]) {
      assert tasks[j] == tasks[1..][j - 1];
    }
  }

  /** Details are added to the same tasks: only `serviceDetails` changes. */
  lemma AddServiceDetailsKeepsTasks(services: seq<ServiceInfo>, tasks: seq<SubTask>)
    requires AddServiceDetails(services, tasks).Success?
    ensures var r := AddServiceDetails(services, tasks).value;
      forall j :: 0 <= j < |tasks| ==> r[j].(serviceDetails := tasks[j].serviceDetails) == tasks[j]
  {
  }

  /** Once validation passes, adding details cannot fail: both look services up the same way. */
  lemma ValidatedPlanGetsDetails(services: seq<ServiceInfo>, tasks: seq<SubTask>)
    requires ValidateInput(services, tasks).None?
    ensures AddServiceDetails(services, tasks).Success?
  {
  }

  // ---------------------------------------------------------------------
  // prepareOrchestration
  // ---------------------------------------------------------------------

  /** `cannotExecuteAction`: the plan is the single task `final` (any case). */
  predicate CannotExecuteAction(tasks: seq<SubTask>) {
    |tasks| == 1 && EqualFold(tasks[0].id, "final")
  }

  /**
    Only a plan of exactly one task can be refused, and then exactly when
    its ID spells `final` in any mix of cases.
   */
  lemma CannotExecuteActionCases(t: SubTask, tasks: seq<SubTask>)
    ensures |tasks| != 1 ==> !CannotExecuteAction(tasks)
    ensures CannotExecuteAction([t]) <==> ToLower(t.id) == "final"
    ensures t.id == "final" || t.id == "Final" || t.id == "FINAL" ==> CannotExecuteAction([t])
    ensures |t.id| != 5 ==> !CannotExecuteAction([t])
  {
    ToLowerOfLower("final");
    if t.id == "Final" { assert ToLower(t.id) == "final"; }
    if t.id == "FINAL" { assert ToLower(t.id) == "final"; }
  }

  /** A missing map key reads as Go's zero value, the empty string. */
  function InputOrEmpty(t: SubTask, key: string): (r: string)
    ensures key in t.input ==> r == t.input[key]
    ensures key !in t.input ==> r == ""
  {
    if key in t.input then t.input[key] else ""
  }

  /**
    Every check of `prepareOrchestration` up to validation passes: the
    project has services, the decomposition succeeded, the plan is not the
    single `final` task, and every subtask is valid.
   */
  predicate PlanAccepted(
    services: map<string, seq<ServiceInfo>>, projectId: string, decomposed: Result<ServiceCallingPlan, string>)
  {
    && projectId in services
    && decomposed.Success?
    && !CannotExecuteAction(decomposed.value.tasks)
    && ValidateInput(services[projectId], decomposed.value.tasks).None?
  }

  /**
    The plan installed on success: the decomposed plan, same parallel
    groups, its subtasks one for one with their service's description.
   */
  predicate InstalledDetailed(m: map<string, ServiceInfo>, decomposed: ServiceCallingPlan, installed: ServiceCallingPlan) {
    installed == decomposed.(tasks := installed.tasks) && Detailed(m, decomposed.tasks, installed.tasks)
  }

  /**
    `prepareOrchestration`. `services` is the control plane's registry by
    project, `decomposed` the plan the language model produced or its error.
    Checks run in a fixed order: service discovery, decomposition, the
    not-actionable test, validation, adding details. The first failure
    sets the status and error and stops.
   */
  function PrepareOrchestration(
    o: Orchestration,
    services: map<string, seq<ServiceInfo>>,
    decomposed: Result<ServiceCallingPlan, string>): (r: Orchestration)
    ensures r.id == o.id && r.projectId == o.projectId && r.results == o.results
    ensures o.projectId !in services ==>
      r == o.(status := Some(Failed), error := "no services found for project " + o.projectId)
    ensures o.projectId in services && decomposed.Failure? ==>
      r == o.(status := Some(Failed), error := "Error decomposing action: " + decomposed.error)
    ensures o.projectId in services && decomposed.Success? && CannotExecuteAction(decomposed.value.tasks) ==>
      r == o.(plan := Some(decomposed.value), status := Some(NotActionable),
              error := InputOrEmpty(decomposed.value.tasks[0], "error"))
    ensures (o.projectId in services && decomposed.Success? && !CannotExecuteAction(decomposed.value.tasks)
             && ValidateInput(services[o.projectId], decomposed.value.tasks).Some?) ==>
      r == o.(status := Some(Failed), error := "Error validating plan input/output: "
              + ValidationMessage(ValidateInput(services[o.projectId], decomposed.value.tasks).value))
    ensures (PlanAccepted(services, o.projectId, decomposed)
             && AddServiceDetails(services[o.projectId], decomposed.value.tasks).Failure?) ==>
      r == o.(status := Some(Failed), error := "Error adding service details to calling plan: "
              + ValidationMessage(AddServiceDetails(services[o.projectId], decomposed.value.tasks).error))
    ensures (PlanAccepted(services, o.projectId, decomposed)
             && AddServiceDetails(services[o.projectId], decomposed.value.tasks).Success?) ==>
      && r == o.(plan := r.plan)
      && r.plan.Some?
      && InstalledDetailed(ServiceMap(services[o.projectId]), decomposed.value, r.plan.value)
    ensures r.plan != o.plan ==> r.status == Some(NotActionable) || r.status == o.status
  {
    if o.projectId !in services then
      o.(status := Some(Failed), error := "no services found for project " + o.projectId)
    else
      var svcs := services[o.projectId];
      match decomposed
      case Failure(msg) =>
        o.(status := Some(Failed), error := "Error decomposing action: " + msg)
      case Success(plan) =>
        if CannotExecuteAction(plan.tasks) then
          o.(plan := Some(plan), status := Some(NotActionable), error := InputOrEmpty(plan.tasks[0], "error"))
        else
          match ValidateInput(svcs, plan.tasks)
          case Some(e) =>
            o.(status := Some(Failed), error := "Error validating plan input/output: " + ValidationMessage(e))
          case None =>
            match AddServiceDetails(svcs, plan.tasks)
            case Failure(e) =>
              o.(status := Some(Failed), error := "Error adding service details to calling plan: " + ValidationMessage(e))
            case Success(tasks) =>
              o.(plan := Some(plan.(tasks := tasks)))
  }

  /**
    What preparation leaves behind, for an orchestration not already failed
    or not actionable: its status is left as it was exactly when every
    check passed, and then the plan is the decomposed plan, every subtask
    valid against the project's services and carrying its service's
    description. A failed preparation never installs a plan.
   */
  lemma PrepareOrchestrationOutcome(
    o: Orchestration,
    services: map<string, seq<ServiceInfo>>,
    decomposed: Result<ServiceCallingPlan, string>)
    requires o.status != Some(Failed) && o.status != Some(NotActionable)
    ensures var r := PrepareOrchestration(o, services, decomposed);
      r.status == Some(Failed) ==> r.plan == o.plan
    ensures var r := PrepareOrchestration(o, services, decomposed);
      r.status == o.status <==> PlanAccepted(services, o.projectId, decomposed)
    ensures var r := PrepareOrchestration(o, services, decomposed);
      PlanAccepted(services, o.projectId, decomposed) ==>
        && r == o.(plan := r.plan)
        && r.plan.Some?
        && |r.plan.value.tasks| == |decomposed.value.tasks|
        && r.plan.value.parallelGroups == decomposed.value.parallelGroups
        && forall j :: 0 <= j < |r.plan.value.tasks| ==>
             var m := ServiceMap(services[o.projectId]);
             TaskValid(m, decomposed.value.tasks[j]) &&
             r.plan.value.tasks[j] == WithDetails(m, decomposed.value.tasks[j])
  {
    if PlanAccepted(services, o.projectId, decomposed) {
      ValidatedPlanGetsDetails(services[o.projectId], decomposed.value.tasks);
    }
  }

  /**
    The older `prepareOrchestration` (`controlplane/main.go`): the same
    checks without adding service details, so an accepted plan is
    installed exactly as decomposed.
   */
  function LegacyPrepareOrchestration(
    o: Orchestration,
    services: map<string, seq<ServiceInfo>>,
    decomposed: Result<ServiceCallingPlan, string>): (r: Orchestration)
    ensures o.projectId !in services ==>
      r == o.(status := Some(Failed), error := "no services found for project " + o.projectId)
    ensures o.projectId in services && decomposed.Failure? ==>
      r == o.(status := Some(Failed), error := "Error decomposing action: " + decomposed.error)
    ensures o.projectId in services && decomposed.Success? && CannotExecuteAction(decomposed.value.tasks) ==>
      r == o.(plan := Some(decomposed.value), status := Some(NotActionable),
              error := InputOrEmpty(decomposed.value.tasks[0], "error"))
    ensures (o.projectId in services && decomposed.Success? && !CannotExecuteAction(decomposed.value.tasks)
             && ValidateInput(services[o.projectId], decomposed.value.tasks).Some?) ==>
      r == o.(status := Some(Failed), error := "Error validating plan input/output: "
              + ValidationMessage(ValidateInput(services[o.projectId], decomposed.value.tasks).value))
    ensures PlanAccepted(services, o.projectId, decomposed) ==> r == o.(plan := Some(decomposed.value))
    ensures r.plan != o.plan ==> r.status == Some(NotActionable) || r.status == o.status
    ensures r.status == Some(Failed) && o.status != Some(Failed) ==> r.plan == o.plan
  {
    if o.projectId !in services then
      o.(status := Some(Failed), error := "no services found for project " + o.projectId)
    else
      match decomposed
      case Failure(msg) =>
        o.(status := Some(Failed), error := "Error decomposing action: " + msg)
      case Success(plan) =>
        if CannotExecuteAction(plan.tasks) then
          o.(plan := Some(plan), status := Some(NotActionable), error := InputOrEmpty(plan.tasks[0], "error"))
        else
          match ValidateInput(services[o.projectId], plan.tasks)
          case Some(e) =>
            o.(status := Some(Failed), error := "Error validating plan input/output: " + ValidationMessage(e))
          case None =>
            o.(plan := Some(plan))
  }

  /**
    The two versions agree on status and error for every input; they differ
    only in that the newer one fills in `serviceDetails`.
   */
  lemma PrepareVersionsAgree(
    o: Orchestration,
    services: map<string, seq<ServiceInfo>>,
    decomposed: Result<ServiceCallingPlan, string>)
    ensures PrepareOrchestration(o, services, decomposed).status == LegacyPrepareOrchestration(o, services, decomposed).status
    ensures PrepareOrchestration(o, services, decomposed).error == LegacyPrepareOrchestration(o, services, decomposed).error
    ensures PrepareOrchestration(o, services, decomposed).plan.Some? <==> LegacyPrepareOrchestration(o, services, decomposed).plan.Some?
  {
    if PlanAccepted(services, o.projectId, decomposed) {
      ValidatedPlanGetsDetails(services[o.projectId], decomposed.value.tasks);
    }
  }

  // ---------------------------------------------------------------------
  // executePlan
  // ---------------------------------------------------------------------

  /** The index of the first failing group, or `|outcomes|` when none fails. */
  function FirstFailure(outcomes: seq<Option<string>>): (i: nat)
    ensures i <= |outcomes|
    ensures forall j :: 0 <= j < i ==> outcomes[j].None?
    ensures i < |outcomes| ==> outcomes[i].Some?
  {
    if |outcomes| == 0 || outcomes[0].Some? then 0 else 1 + FirstFailure(outcomes[1..])
  }

  /**
    `executePlan`. `outcomes[g]` is the error of running parallel group `g`
    (`None` when every task in it succeeded) and `results` the task results
    collected by the time the groups are done. Groups run in order; the first
    failure fails the orchestration with that group's error and stops.
   */
  method ExecutePlan(o: Orchestration, outcomes: seq<Option<string>>, results: map<string, string>)
    returns (r: Orchestration)
    requires o.plan.Some?
    requires |outcomes| == |o.plan.value.parallelGroups|
    ensures r.plan == o.plan && r.id == o.id
    ensures r.status == Some(Failed) <==> exists g :: 0 <= g < |outcomes| && outcomes[g].Some?
    ensures r.status != Some(Failed) ==> r.status == Some(Completed)
    ensures r.status == Some(Failed) ==>
      var g := FirstFailure(outcomes); g < |outcomes| && r.error == outcomes[g].value && r.results == o.results
    ensures r.status == Some(Completed) ==>
      var tasks := o.plan.value.tasks;
      if |tasks| > 0 && tasks[|tasks| - 1].id in results
      then r.results == [results[tasks[|tasks| - 1].id]]
      else r.results == o.results
  {
    r := o;
    var g := 0;
    while g < |outcomes|
      invariant 0 <= g <= |outcomes|
      invariant r == o
      invariant forall j :: 0 <= j < g ==> outcomes[j].None?
    {
      if outcomes[g].Some? {
        assert FirstFailure(outcomes) == g by {
          FirstFailureIs(outcomes, g);
        }
        r := r.(status := Some(Failed), error := outcomes[g].value);
        return;
      }
      g := g + 1;
    }
    r := r.(status := Some(Completed));
    var tasks := r.plan.value.tasks;
    if |tasks| > 0 {
      var lastTaskId := tasks[|tasks| - 1].id;
      if lastTaskId in results {
        r := r.(results := [results[lastTaskId]]);
      }
    }
  }

  lemma {:induction false} FirstFailureIs(outcomes: seq<Option<string>>, g: nat)
    requires g < |outcomes| && outcomes[g].Some?
    requires forall j :: 0 <= j < g ==> outcomes[j].None?
    ensures FirstFailure(outcomes) == g
    decreases g
  {
    if g > 0 {
      FirstFailureIs(outcomes[1..], g - 1);
    }
  }

  // ---------------------------------------------------------------------
  // GetProjectByApiKey, findSubTaskByID
  // ---------------------------------------------------------------------

  /** The index `GetProjectByApiKey` builds from API key to project ID, over `ids` in order, later IDs winning. */
  function ApiKeyIndex(projects: map<string, Project>, ids: seq<string>): (m: map<string, string>)
    requires forall i :: 0 <= i < |ids| ==> ids[i] in projects
    ensures forall k :: k in m ==> m[k] in projects && projects[m[k]].apiKey == k
    ensures forall i :: 0 <= i < |ids| ==> projects[ids[i]].apiKey in m
    ensures forall k :: k in m ==> exists i :: 0 <= i < |ids| && ids[i] == m[k]
  {
    if |ids| == 0 then map[]
    else
      var init := ids[..|ids| - 1];
      var id := ids[|ids| - 1];
      var m0 := ApiKeyIndex(projects, init);
      assert forall i :: 0 <= i < |init| ==> init[i] == ids[i];
      m0[projects[id].apiKey := id]
  }

  /**
    `GetProjectByApiKey`: a project registered with that key, or an error
    naming the key when there is none. With two projects sharing a key, Go's
    map order picks one; the model picks the greatest project ID.
   */
  function GetProjectByApiKey(projects: map<string, Project>, key: string): (r: Result<Project, string>)
    ensures r.Success? <==> exists id :: id in projects && projects[id].apiKey == key
    ensures r.Success? ==> r.value.apiKey == key && exists id :: id in projects && projects[id] == r.value
    ensures r.Failure? ==> r.error == "no project found with the given API key: " + key
  {
    var ids := SortedKeys(projects.Keys);
    var index := ApiKeyIndex(projects, ids);
    if key in index then
      Success(projects[index[key]])
    else
      assert forall id :: id in projects ==> projects[id].apiKey != key by {
        forall id | id in projects ensures projects[id].apiKey != key {
          assert id in ids;
        }
      }
      Failure("no project found with the given API key: " + key)
  }

  /**
    `findSubTaskByID` (in both versions): the position of the first subtask
    whose ID equals `id` ignoring case, or `None`.
   */
  function FindSubTaskById(id: string, tasks: seq<SubTask>): (r: Option<nat>)
    ensures r.Some? ==> r.value < |tasks| && EqualFold(tasks[r.value].id, id)
    ensures r.Some? ==> forall j :: 0 <= j < r.value ==> !EqualFold(tasks[j].id, id)
    ensures r.None? <==> forall j :: 0 <= j < |tasks| ==> !EqualFold(tasks[j].id, id)
  {
    if |tasks| == 0 then None
    else if EqualFold(tasks[0].id, id) then Some(0)
    else
      match FindSubTaskById(id, tasks[1..])
      case None => None
      case Some(i) => Some(i + 1)
  }

  // ---------------------------------------------------------------------
  // prepareInput
  // ---------------------------------------------------------------------

  /** A stored task result after `json.Unmarshal` into a map: its fields, or a decoding failure. */
  datatype StoredResult = JsonObject(fields: map<string, string>) | Undecodable

  datatype InputError =
    | ReferenceWithoutField             // `parts[1]` out of range: a Go panic
    | TaskResultNotFound(task: string)
    | ResultUndecodable(task: string)
    | FieldNotFound(task: string, field: string)

  function InputErrorMessage(e: InputError): string {
    match e
    case ReferenceWithoutField => "index out of range [1] with length 1"
    case TaskResultNotFound(task) => "result for task " + task + " not found"
    case ResultUndecodable(task) => "result for task " + task + " is not a JSON object"
    case FieldNotFound(task, field) => "result for " + task + "." + field + " not found"
  }

  /**
    One input value: a `$task.field` reference is looked up in the results
    (the text after the first `.` and before any second `.` is the field);
    any other value is a constant.
   */
  function ResolveValue(v: string, results: map<string, StoredResult>): (r: Result<string, InputError>)
    ensures !IsPrefix("$", v) ==> r == Success(Quote(v))
  {
    if IsPrefix("$", v) then
      var parts := Split(v[1..], {'.'});
      if |parts| < 2 then Failure(ReferenceWithoutField)
      else LookupField(parts[0], parts[1], results)
    else Success(Quote(v))
  }

  /** The field `field` of task `taskId`'s stored result, quoted, or the error naming what is missing. */
  function LookupField(taskId: string, field: string, results: map<string, StoredResult>): (r: Result<string, InputError>)
    ensures taskId !in results ==> r == Failure(TaskResultNotFound(taskId))
    ensures taskId in results && results[taskId].Undecodable? ==> r == Failure(ResultUndecodable(taskId))
    ensures taskId in results && results[taskId].JsonObject? && field !in results[taskId].fields ==>
      r == Failure(FieldNotFound(taskId, field))
    ensures taskId in results && results[taskId].JsonObject? && field in results[taskId].fields ==>
      r == Success(Quote(results[taskId].fields[field]))
  {
    if taskId !in results then Failure(TaskResultNotFound(taskId))
    else
      match results[taskId]
      case Undecodable => Failure(ResultUndecodable(taskId))
      case JsonObject(fields) =>
        if field !in fields then Failure(FieldNotFound(taskId, field))
        else Success(Quote(fields[field]))
  }

  predicate NoDot(s: string) {
    forall k :: 0 <= k < |s| ==> s[k] != '.'
  }

  /**
    How a reference `$task.field` (optionally followed by `.more`) resolves:
    to the quoted field of the task's result, or to the error naming what is
    missing.
   */
  lemma ResolveReference(task: string, field: string, more: string, results: map<string, StoredResult>)
    requires NoDot(task) && NoDot(field)
    requires more == [] || more[0] == '.'
    ensures var r := ResolveValue("$" + task + "." + field + more, results);
      && (task !in results ==> r == Failure(TaskResultNotFound(task)))
      && (task in results && results[task].Undecodable? ==> r == Failure(ResultUndecodable(task)))
      && (task in results && results[task].JsonObject? && field !in results[task].fields ==>
            r == Failure(FieldNotFound(task, field)))
      && (task in results && results[task].JsonObject? && field in results[task].fields ==>
            r == Success(Quote(results[task].fields[field])))
  {
    var v := "$" + task + "." + field + more;
    ReferenceParts(task, field, more);
    assert ResolveValue(v, results) == LookupField(task, field, results);
  }

  /** The pieces of a reference `$task.field…` after the `$`: the task, then the field. */
  lemma ReferenceParts(task: string, field: string, more: string)
    requires NoDot(task) && NoDot(field)
    requires more == [] || more[0] == '.'
    ensures var v := "$" + task + "." + field + more;
      IsPrefix("$", v) && |Split(v[1..], {'.'})| >= 2
      && Split(v[1..], {'.'})[0] == task && Split(v[1..], {'.'})[1] == field
  {
    var v := "$" + task + "." + field + more;
    assert v[1..] == task + ['.'] + (field + more);
    SplitReference(task, field, more);
  }

  lemma SplitReference(task: string, field: string, more: string)
    requires NoDot(task) && NoDot(field)
    requires more == [] || more[0] == '.'
    ensures var p := Split(task + ['.'] + (field + more), {'.'});
      |p| >= 2 && p[0] == task && p[1] == field
  {
    SplitAtFirst(task, '.', field + more, {'.'});
    if more == [] {
      assert field + more == field;
      SplitNoDelim(field, {'.'});
    } else {
      assert field + more == field + ['.'] + more[1..];
      SplitAtFirst(field, '.', more[1..], {'.'});
    }
  }

  /** A reference with no `.` indexes past the single split piece: the Go code panics. */
  lemma ResolveReferenceWithoutDot(task: string, results: map<string, StoredResult>)
    requires NoDot(task)
    ensures ResolveValue("$" + task, results) == Failure(ReferenceWithoutField)
  {
    var v := "$" + task;
    assert v[1..] == task;
    SplitNoDelim(task, {'.'});
  }

  /**
    Resolves the values of `keys` in order, stopping at the first error.
    The resolver is a parameter so both versions of `prepareInput` share it.
   */
  function ResolveAll<E>(keys: seq<string>, input: map<string, string>, resolve: string -> Result<string, E>)
    : (r: Result<map<string, string>, E>)
    requires forall k :: k in keys ==> k in input
    ensures r.Success? <==> forall k :: k in keys ==> resolve(input[k]).Success?
    ensures r.Success? ==> r.value.Keys == set k | k in keys
    ensures r.Success? ==> forall k :: k in r.value ==> r.value[k] == resolve(input[k]).value
    ensures r.Failure? ==> exists k :: k in keys && resolve(input[k]) == Failure(r.error)
  {
    if |keys| == 0 then Success(map[])
    else
      assert forall k :: k in keys <==> k == keys[0] || k in keys[1..];
      match resolve(input[keys[0]])
      case Failure(e) => Failure(e)
      case Success(v) =>
        match ResolveAll(keys[1..], input, resolve)
        case Failure(e) => Failure(e)
        case Success(m) => Success(m[keys[0] := v])
  }

  /**
    `prepareInput`: every input resolves, giving a prepared map with the same
    keys, or some input's error is returned. Which error, when several inputs
    fail, depends on Go's map order.
   */
  function PrepareInput(input: map<string, string>, results: map<string, StoredResult>)
    : (r: Result<map<string, string>, InputError>)
    ensures r.Success? <==> forall k :: k in input ==> ResolveValue(input[k], results).Success?
    ensures r.Success? ==> r.value.Keys == input.Keys
    ensures r.Success? ==> forall k :: k in input ==> r.value[k] == ResolveValue(input[k], results).value
    ensures r.Failure? ==> exists k :: k in input && ResolveValue(input[k], results) == Failure(r.error)
  {
    var keys := SortedKeys(input.Keys);
    assert (set k | k in keys) == input.Keys;
    ResolveAll(keys, input, v => ResolveValue(v, results))
  }

  /** The older `prepareInput` (`controlplane/main.go`): `$X` is task X's whole stored result. */
  function LegacyResolveValue(v: string, results: map<string, string>): (r: Result<string, InputError>)
    ensures IsPrefix("$", v) && v[1..] in results ==> r == Success(results[v[1..]])
    ensures IsPrefix("$", v) && v[1..] !in results ==> r == Failure(TaskResultNotFound(v[1..]))
    ensures !IsPrefix("$", v) ==> r == Success(Quote(v))
  {
    if IsPrefix("$", v) then
      var taskId := v[1..];
      if taskId in results then Success(results[taskId]) else Failure(TaskResultNotFound(taskId))
    else Success(Quote(v))
  }

  function LegacyPrepareInput(input: map<string, string>, results: map<string, string>)
    : (r: Result<map<string, string>, InputError>)
    ensures r.Success? <==> forall k :: k in input ==> LegacyResolveValue(input[k], results).Success?
    ensures r.Success? ==> r.value.Keys == input.Keys
    ensures r.Success? ==> forall k :: k in input ==> r.value[k] == LegacyResolveValue(input[k], results).value
    ensures r.Failure? ==> exists k :: k in input && LegacyResolveValue(input[k], results) == Failure(r.error)
  {
    var keys := SortedKeys(input.Keys);
    assert (set k | k in keys) == input.Keys;
    ResolveAll(keys, input, v => LegacyResolveValue(v, results))
  }
}
