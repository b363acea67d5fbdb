/**
  The control plane's records (`controlplane/types.go`) that the plan and
  orchestration logic reads and writes. JSON documents are kept as strings;
  a result that tasks refer to field by field is a map from field name to
  the field's text.
 */
module Types {
  import opened Wrappers
  import opened Config

  datatype Project = Project(id: string, apiKey: string, webhook: string)

  /**
    A JSON schema node. Only the names of its properties are consulted by
    the logic modelled here, so nested property schemas are not kept.
   */
  datatype Spec = Spec(typ: string, properties: set<string>, required: seq<string>)

  datatype ServiceSchema = ServiceSchema(input: Spec, output: Spec)

  datatype ServiceInfo = ServiceInfo(
    typ: ServiceType,
    id: string,
    name: string,
    description: string,
    schema: ServiceSchema,
    projectId: string,
    version: int)

  /**
    One step of a calling plan. `input` maps each input field to a constant
    or to a `$task.field` reference; an unset Go status (the zero value,
    which is no `Status` constant) is `None`.
   */
  datatype SubTask = SubTask(
    id: string,
    service: string,
    serviceDetails: string,
    input: map<string, string>,
    status: Option<Status>,
    error: string)

  /** The tasks of a plan and the groups of task IDs that run together, in order. */
  datatype ServiceCallingPlan = ServiceCallingPlan(
    projectId: string,
    tasks: seq<SubTask>,
    parallelGroups: seq<seq<string>>)

  /** An orchestration request and its outcome; the action text and parameters are not modelled. */
  datatype Orchestration = Orchestration(
    id: string,
    projectId: string,
    plan: Option<ServiceCallingPlan>,
    results: seq<string>,
    status: Option<Status>,
    error: string)
}
