/**
  The Python workflow builder of `libs/orra/orra/orchestrator.py`.

  A flow is a state graph: named nodes carrying the callable registered for
  them, directed edges, and entry points. Decorating functions with
  `@app.step` registers them as nodes and remembers their names in order;
  compiling wires the names into a single chain that ends at the special
  `END` node. The graph library's own compilation and invocation are not
  part of this model: `Compile` returns the graph as handed to it.
 */
module Workflow {
  import opened Wrappers
  import opened Strs

  /** A decorated step: its `__name__` and whether it is an `async def`. */
  datatype StepFunc = StepFunc(name: string, isCoroutine: bool)

  /**
    The callable registered for a node: the function itself, or a
    synchronous wrapper that runs the coroutine to completion.
   */
  datatype NodeAction = Direct(fn: StepFunc) | RunToCompletion(fn: StepFunc)

  /** An edge target: a named node or the graph's `END`. */
  datatype Target = Node(name: string) | End

  datatype Edge = Edge(source: string, target: Target)

  datatype Node = NamedNode(name: string, action: NodeAction)

  datatype Flow = Flow(nodes: seq<Node>, edges: seq<Edge>, entryPoints: seq<string>)

  /** The application object: the step names in registration order and its flow. */
  datatype Orra = Orra(steps: seq<string>, flow: Flow)

  const EmptyFlow := Flow([], [], [])

  /** A fresh application: no steps, an empty graph (the state schema is not modelled). */
  const NewOrra := Orra([], EmptyFlow)

  /** The callable `_register` hands to the graph for `f`. */
  function ActionFor(f: StepFunc): (a: NodeAction)
    ensures a.fn == f
    ensures a.RunToCompletion? <==> f.isCoroutine
  {
    if f.isCoroutine then RunToCompletion(f) else Direct(f)
  }

  /** `_register`: add a node named after the function, then remember the name. */
  function Register(o: Orra, f: StepFunc): (r: Orra)
    ensures r.steps == o.steps + [f.name]
    ensures r.flow.nodes == o.flow.nodes + [NamedNode(f.name, ActionFor(f))]
    ensures r.flow.edges == o.flow.edges && r.flow.entryPoints == o.flow.entryPoints
  {
    Orra(o.steps + [f.name], o.flow.(nodes := o.flow.nodes + [NamedNode(f.name, ActionFor(f))]))
  }

  /** Decorating `fs` one after another. */
  function RegisterAll(o: Orra, fs: seq<StepFunc>): Orra
    decreases |fs|
  {
    if |fs| == 0 then o else RegisterAll(Register(o, fs[0]), fs[1..])
  }

  function Names(fs: seq<StepFunc>): (r: seq<string>)
    ensures |r| == |fs|
    ensures forall i :: 0 <= i < |fs| ==> r[i] == fs[i].name
  {
    seq(|fs|, i requires 0 <= i < |fs| => fs[i].name)
  }

  /**
    Registration keeps decoration order: the step list grows by the
    functions' names in order, node `i` is the `i`-th function with the
    callable chosen by whether it is a coroutine, and no edge appears.
   */
  lemma {:induction false} RegisterAllOrder(o: Orra, fs: seq<StepFunc>)
    ensures RegisterAll(o, fs).steps == o.steps + Names(fs)
    ensures |RegisterAll(o, fs).flow.nodes| == |o.flow.nodes| + |fs|
    ensures RegisterAll(o, fs).flow.nodes[..|o.flow.nodes|] == o.flow.nodes
    ensures forall i :: 0 <= i < |fs| ==>
      RegisterAll(o, fs).flow.nodes[|o.flow.nodes| + i] == NamedNode(fs[i].name, ActionFor(fs[i]))
    ensures RegisterAll(o, fs).flow.edges == o.flow.edges
    ensures RegisterAll(o, fs).flow.entryPoints == o.flow.entryPoints
    decreases |fs|
  {
    if |fs| > 0 {
      var o1 := Register(o, fs[0]);
      RegisterAllOrder(o1, fs[1..]);
      assert Names(fs) == [fs[0].name] + Names(fs[1..]);
      var r := RegisterAll(o, fs);
      assert r == RegisterAll(o1, fs[1..]);
      forall i | 0 <= i < |fs|
        ensures r.flow.nodes[|o.flow.nodes| + i] == NamedNode(fs[i].name, ActionFor(fs[i]))
      {
        if i > 0 {
          assert r.flow.nodes[|o1.flow.nodes| + (i - 1)] == NamedNode(fs[1..][i - 1].name, ActionFor(fs[1..][i - 1]));
        } else {
          assert r.flow.nodes[..|o1.flow.nodes|] == o1.flow.nodes;
        }
      }
    }
  }

  /** The edges between adjacent steps. */
  function Chain(steps: seq<string>): (r: seq<Edge>)
    ensures |steps| <= 1 ==> r == []
    ensures |steps| > 1 ==> |r| == |steps| - 1
    ensures forall i :: 0 <= i < |r| ==> r[i] == Edge(steps[i], Node(steps[i + 1]))
  {
    if |steps| < 2 then [] else [Edge(steps[0], Node(steps[1]))] + Chain(steps[1..])
  }

  /** Every edge `_compile` adds: the chain and, for two or more steps, the edge from the last step to `END`. */
  function PathEdges(steps: seq<string>): seq<Edge> {
    if |steps| > 1 then Chain(steps) + [Edge(steps[|steps| - 1], End)] else []
  }

  /** The graph after `_compile(flow, steps)`. */
  function AddPath(flow: Flow, steps: seq<string>): Flow {
    if |steps| > 1 then flow.(edges := flow.edges + PathEdges(steps), entryPoints := flow.entryPoints + [steps[0]])
    else flow
  }

  /**
    `_compile`: walks adjacent pairs, growing the trace string and adding an
    edge per pair; with more than one step it then sets the entry point and
    links the last step to `END`.
   */
  method Compile(flow: Flow, steps: seq<string>) returns (compiled: Flow, parts: string)
    ensures compiled == AddPath(flow, steps)
    ensures |steps| <= 1 ==> compiled == flow
    ensures |steps| > 1 ==> |compiled.edges| == |flow.edges| + |steps|
    ensures |steps| > 1 ==> compiled.entryPoints == flow.entryPoints + [steps[0]]
    ensures compiled.nodes == flow.nodes
    ensures parts == if |steps| >= 2 then Join(steps, " -> ") else ""
  {
    compiled := flow;
    parts := "";
    var i := 0;
    while i < |steps| - 1
      invariant 0 <= i <= if |steps| > 0 then |steps| - 1 else 0
      invariant compiled == flow.(edges := flow.edges + Chain(steps[..if |steps| == 0 then 0 else i + 1]))
      invariant parts == if i == 0 then "" else Join(steps[..i + 1], " -> ")
    {
      TraceStep(steps, i, parts);
      ChainStep(flow.edges, steps, i);
      if parts == "" {
        parts := steps[i] + " -> " + steps[i + 1];
      } else {
        parts := parts + " -> " + steps[i + 1];
      }
      compiled := compiled.(edges := compiled.edges + [Edge(steps[i], Node(steps[i + 1]))]);
      i := i + 1;
    }
    if |steps| > 1 {
      assert steps[..i + 1] == steps;
      compiled := compiled.(entryPoints := compiled.entryPoints + [steps[0]],
                            edges := compiled.edges + [Edge(steps[|steps| - 1], End)]);
    }
  }

  /** One pair more of the trace string. */
  lemma TraceStep(steps: seq<string>, i: nat, parts: string)
    requires i + 1 < |steps|
    requires parts == if i == 0 then "" else Join(steps[..i + 1], " -> ")
    ensures parts == "" ==> steps[i] + " -> " + steps[i + 1] == Join(steps[..i + 2], " -> ")
    ensures parts != "" ==> parts + " -> " + steps[i + 1] == Join(steps[..i + 2], " -> ")
  {
    if i == 0 {
      assert steps[..2] == [steps[0], steps[1]];
    } else {
      JoinStartsWithFirst(steps[..i + 1], " -> ");
      JoinSnoc(steps[..i + 1], steps[i + 1], " -> ");
      assert steps[..i + 1] + [steps[i + 1]] == steps[..i + 2];
    }
  }

  /** One edge more of the chain. */
  lemma ChainStep(edges: seq<Edge>, steps: seq<string>, i: nat)
    requires i + 1 < |steps|
    ensures edges + Chain(steps[..i + 1]) + [Edge(steps[i], Node(steps[i + 1]))] == edges + Chain(steps[..i + 2])
  {
    ChainSnoc(steps[..i + 1], steps[i + 1]);
    assert steps[..i + 1] + [steps[i + 1]] == steps[..i + 2];
  }

  lemma {:induction false} ChainSnoc(steps: seq<string>, x: string)
    requires |steps| > 0
    ensures Chain(steps + [x]) == Chain(steps) + [Edge(steps[|steps| - 1], Node(x))]
  {
    var l := Chain(steps + [x]);
    var r := Chain(steps) + [Edge(steps[|steps| - 1], Node(x))];
    assert |l| == |r|;
    forall i | 0 <= i < |l|
      ensures l[i] == r[i]
    {
      assert (steps + [x])[i] == steps[i];
      assert (steps + [x])[i + 1] == if i + 1 < |steps| then steps[i + 1] else x;
    }
  }

  /** The trace string `_compile` builds, as a function of the step names. */
  function Trace(steps: seq<string>): string {
    if |steps| >= 2 then Join(steps, " -> ") else ""
  }

  /** `execute`: compile, then invoke with the empty state `{}`. Returns the graph and the initial state. */
  method Execute(o: Orra) returns (r: Orra, initialState: map<string, string>)
    ensures r.steps == o.steps
    ensures r.flow == AddPath(o.flow, o.steps)
    ensures initialState == map[]
  {
    var compiled, _ := Compile(o.flow, o.steps);
    r := o.(flow := compiled);
    initialState := map[];
  }

  /** Number of edges leaving `name`. */
  function OutDegree(es: seq<Edge>, name: string): nat {
    if |es| == 0 then 0 else (if es[0].source == name then 1 else 0) + OutDegree(es[1..], name)
  }

  /** Number of edges entering `t`. */
  function InDegree(es: seq<Edge>, t: Target): nat {
    if |es| == 0 then 0 else (if es[0].target == t then 1 else 0) + InDegree(es[1..], t)
  }

  lemma {:induction false} DegreeAppend(a: seq<Edge>, b: seq<Edge>, name: string, t: Target)
    ensures OutDegree(a + b, name) == OutDegree(a, name) + OutDegree(b, name)
    ensures InDegree(a + b, t) == InDegree(a, t) + InDegree(b, t)
    decreases |a|
  {
    if |a| == 0 {
      assert a + b == b;
    } else {
      assert (a + b)[1..] == a[1..] + b;
      DegreeAppend(a[1..], b, name, t);
    }
  }

  predicate Distinct(s: seq<string>) {
    forall i, j :: 0 <= i < j < |s| ==> s[i] != s[j]
  }

  lemma {:induction false} ChainDegrees(steps: seq<string>, x: string)
    requires Distinct(steps)
    ensures x !in steps ==> OutDegree(Chain(steps), x) == 0 && InDegree(Chain(steps), Node(x)) == 0
    ensures forall k :: 0 <= k < |steps| && steps[k] == x ==>
      OutDegree(Chain(steps), x) == (if k < |steps| - 1 then 1 else 0)
      && InDegree(Chain(steps), Node(x)) == (if k > 0 then 1 else 0)
    ensures InDegree(Chain(steps), End) == 0
    decreases |steps|
  {
    if |steps| >= 2 {
      var t := steps[1..];
      assert Chain(steps)[1..] == Chain(t);
      ChainDegrees(t, x);
      assert forall k :: 0 <= k < |t| ==> t[k] == steps[k + 1];
      if x == steps[0] {
        assert x !in t;
      }
      if x in t {
        var k :| 0 <= k < |t| && t[k] == x;
        assert steps[k + 1] == x;
      }
    }
  }

  /**
    With distinct names and at least two steps the compiled edges form one
    path `steps[0] -> … -> steps[n-1] -> END`: each step has exactly one
    outgoing edge, the first step has no incoming edge, every other step has
    exactly one, `END` has one, and no edge touches a name outside the steps.
   */
  lemma PathShape(steps: seq<string>)
    requires Distinct(steps) && |steps| > 1
    ensures forall k :: 0 <= k < |steps| ==> OutDegree(PathEdges(steps), steps[k]) == 1
    ensures InDegree(PathEdges(steps), Node(steps[0])) == 0
    ensures forall k :: 0 < k < |steps| ==> InDegree(PathEdges(steps), Node(steps[k])) == 1
    ensures InDegree(PathEdges(steps), End) == 1
    ensures forall x :: x !in steps ==> OutDegree(PathEdges(steps), x) == 0 && InDegree(PathEdges(steps), Node(x)) == 0
  {
    var last := [Edge(steps[|steps| - 1], End)];
    forall x
      ensures OutDegree(PathEdges(steps), x) == OutDegree(Chain(steps), x) + (if x == steps[|steps| - 1] then 1 else 0)
      ensures InDegree(PathEdges(steps), Node(x)) == InDegree(Chain(steps), Node(x))
      ensures x !in steps ==> OutDegree(Chain(steps), x) == 0 && InDegree(Chain(steps), Node(x)) == 0
      ensures forall k :: 0 <= k < |steps| && steps[k] == x ==>
        OutDegree(Chain(steps), x) == (if k < |steps| - 1 then 1 else 0)
        && InDegree(Chain(steps), Node(x)) == (if k > 0 then 1 else 0)
    {
      DegreeAppend(Chain(steps), last, x, Node(x));
      ChainDegrees(steps, x);
    }
    DegreeAppend(Chain(steps), last, steps[0], End);
    ChainDegrees(steps, steps[0]);
  }

  /** With fewer than two steps compiling adds no edge and no entry point. */
  lemma ShortFlowUnchanged(flow: Flow, steps: seq<string>)
    requires |steps| <= 1
    ensures AddPath(flow, steps) == flow
    ensures Trace(steps) == ""
  {
  }

  /**
    Compiling again works on the same graph, so it re-adds the same edges and
    entry point: the edge list holds the path twice.
   */
  lemma RecompileRepeatsPath(flow: Flow, steps: seq<string>)
    requires |steps| > 1
    ensures AddPath(AddPath(flow, steps), steps).edges == flow.edges + PathEdges(steps) + PathEdges(steps)
    ensures AddPath(AddPath(flow, steps), steps).entryPoints == flow.entryPoints + [steps[0], steps[0]]
  {
  }

  // ---------------------------------------------------------------------
  // The earlier variant, libs/orra/orra/orchestrators.py
  // ---------------------------------------------------------------------

  /** The earlier application object: a `" | "`-joined workflow string and a flag nothing sets. */
  datatype LegacyOrra = LegacyOrra(workflow: string, workflowInvoked: bool, stateDef: map<string, string>)

  /** The constructor: a missing state definition becomes `{}`. */
  function NewLegacyOrra(stateDef: Option<map<string, string>>): (r: LegacyOrra)
    ensures r.workflow == "" && !r.workflowInvoked
    ensures stateDef.None? ==> r.stateDef == map[]
    ensures stateDef.Some? ==> r.stateDef == stateDef.value
  {
    LegacyOrra("", false, if stateDef.Some? then stateDef.value else map[])
  }

  /** `step`: the first name becomes the workflow, later ones are appended after `" | "`. */
  function LegacyStep(o: LegacyOrra, name: string): (r: LegacyOrra)
    ensures |o.workflow| == 0 ==> r.workflow == name
    ensures |o.workflow| > 0 ==> r.workflow == o.workflow + " | " + name
    ensures r.workflowInvoked == o.workflowInvoked && r.stateDef == o.stateDef
  {
    o.(workflow := if |o.workflow| > 0 then o.workflow + " | " + name else name)
  }

  function LegacyStepAll(o: LegacyOrra, names: seq<string>): LegacyOrra
    decreases |names|
  {
    if |names| == 0 then o else LegacyStepAll(LegacyStep(o, names[0]), names[1..])
  }

  /** `run` and `stop` only print the workflow; the object is unchanged. */
  function LegacyRun(o: LegacyOrra): (r: LegacyOrra)
    ensures r == o
  {
    o
  }

  /**
    The names that survive in the workflow string: a name registered while
    the string is still empty replaces it, so leading empty names vanish.
   */
  function DropLeadingEmpty(names: seq<string>): (r: seq<string>)
    ensures r == [] || |r[0]| > 0
    ensures |r| <= |names| && r == names[|names| - |r|..]
  {
    if |names| > 0 && |names[0]| == 0 then DropLeadingEmpty(names[1..]) else names
  }

  lemma {:induction false} LegacyStepAllJoin(o: LegacyOrra, names: seq<string>)
    requires |o.workflow| > 0
    ensures LegacyStepAll(o, names).workflow == Join([o.workflow] + names, " | ")
    ensures LegacyStepAll(o, names).workflowInvoked == o.workflowInvoked
    decreases |names|
  {
    if |names| > 0 {
      var o1 := LegacyStep(o, names[0]);
      LegacyStepAllJoin(o1, names[1..]);
      var j := [o1.workflow] + names[1..];
      assert ([o.workflow] + names)[1..] == names;
      JoinOfPrefix(o.workflow, names, " | ");
    }
  }

  /** Folding the first two pieces of a join into one. */
  lemma JoinOfPrefix(first: string, rest: seq<string>, sep: string)
    requires |rest| > 0
    ensures Join([first] + rest, sep) == Join([first + sep + rest[0]] + rest[1..], sep)
  {
    var a := [first] + rest;
    assert a[1..] == rest;
    if |rest| == 1 {
      assert [first + sep + rest[0]] + rest[1..] == [first + sep + rest[0]];
    } else {
      assert ([first + sep + rest[0]] + rest[1..])[1..] == rest[1..];
      assert rest == [rest[0]] + rest[1..];
      assert Join(rest, sep) == rest[0] + sep + Join(rest[1..], sep);
    }
  }

  /**
    After registering `names` on a fresh object the workflow string is the
    names joined by `" | "` in decoration order (leading empty names aside),
    and `workflowInvoked` is still false.
   */
  lemma {:induction false} LegacyWorkflowIsJoin(o: LegacyOrra, names: seq<string>)
    requires o.workflow == ""
    ensures LegacyStepAll(o, names).workflow == Join(DropLeadingEmpty(names), " | ")
    ensures LegacyStepAll(o, names).workflowInvoked == o.workflowInvoked
    decreases |names|
  {
    if |names| > 0 {
      var o1 := LegacyStep(o, names[0]);
      LegacyStepAllCons(o, names);
      if |names[0]| == 0 {
        LegacyWorkflowIsJoin(o1, names[1..]);
      } else {
        LegacyStepAllJoin(o1, names[1..]);
      }
    }
  }

  /** One name registered, and what it does to the surviving names. */
  lemma LegacyStepAllCons(o: LegacyOrra, names: seq<string>)
    requires o.workflow == "" && |names| > 0
    ensures LegacyStepAll(o, names) == LegacyStepAll(LegacyStep(o, names[0]), names[1..])
    ensures |names[0]| == 0 ==>
      LegacyStep(o, names[0]).workflow == "" && DropLeadingEmpty(names) == DropLeadingEmpty(names[1..])
    ensures |names[0]| > 0 ==>
      LegacyStep(o, names[0]).workflow == names[0] && DropLeadingEmpty(names) == [names[0]] + names[1..]
  {
    assert names == [names[0]] + names[1..];
  }
}
