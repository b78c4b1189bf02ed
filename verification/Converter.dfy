/**
 The workflow converter (automation/service/workflow_converter.go): the loops that verify and
 convert steps and fill the graph, proved to compute what module Resolution says.
 */
module Converter {
  import opened WorkflowTypes
  import opened Definitions
  import opened Resolution
  import Params

  /** An issue and where it was found. */
  datatype Issue = Issue(problem: Problem, culprit: map<string, int>)

  function Append(issues: seq<Issue>, p: Problem, culprit: map<string, int>): seq<Issue> {
    issues + [Issue(p, culprit)]
  }

  /** All problems of one step, with the step as culprit. */
  function AtStep(pp: seq<Problem>, pos: int): (r: seq<Issue>)
    ensures |r| == |pp|
  {
    seq(|pp|, i requires 0 <= i < |pp| => Issue(pp[i], map["step" := pos]))
  }

  /** The first occurrence of each issue, in order. */
  function Firsts(issues: seq<Issue>): seq<Issue> {
    if issues == [] then []
    else
      var k := |issues| - 1;
      Firsts(issues[..k]) + (if issues[k] in issues[..k] then [] else [issues[k]])
  }

  lemma {:induction false} FirstsKeepEveryIssueOnce(issues: seq<Issue>)
    ensures forall x :: x in Firsts(issues) <==> x in issues
    ensures forall i, j | 0 <= i < j < |Firsts(issues)| :: Firsts(issues)[i] != Firsts(issues)[j]
  {
    if issues != [] {
      var k := |issues| - 1;
      FirstsKeepEveryIssueOnce(issues[..k]);
      assert forall x :: x in issues <==> x in issues[..k] || x == issues[k];
    }
  }

  method Distinct(issues: seq<Issue>) returns (out: seq<Issue>)
    ensures out == Firsts(issues)
    ensures out == [] <==> issues == []
  {
    var idx: set<Issue> := {};
    out := [];
    for i := 0 to |issues|
      invariant out == Firsts(issues[..i])
      invariant forall x :: x in idx <==> x in issues[..i]
    {
      assert issues[..i + 1][..i] == issues[..i] && issues[..i + 1][i] == issues[i];
      if issues[i] in idx {
        continue;
      }
      out := out + [issues[i]];
      idx := idx + {issues[i]};
    }
    assert issues[..|issues|] == issues;
    FirstsKeepEveryIssueOnce(issues);
    if issues != [] {
      assert issues[0] in Firsts(issues);
    }
  }

  method ParseExpressions(reg: Registry, ee: seq<Expr>) returns (r: Option<seq<Expr>>)
    ensures r == ParseExprs(reg, ee)
  {
    var parsed: seq<Expr> := [];
    for i := 0 to |ee|
      invariant ParseExprs(reg, ee).Some? <==> ParseExprs(reg, ee[i..]).Some?
      invariant ParseExprs(reg, ee).Some? ==> ParseExprs(reg, ee).value == parsed + ParseExprs(reg, ee[i..]).value
    {
      var e := ee[i];
      assert ee[i..][0] == e && ee[i..][1..] == ee[i + 1..];
      if !Blank(e.expr) && !reg.parses(e.expr) {
        return None;
      }
      var name := Params.SetTypeName(e.declared);
      if name !in reg.types {
        return None;
      }
      for j := 0 to |e.tests|
        invariant forall t | t in e.tests[..j] :: reg.parses(t)
      {
        if !reg.parses(e.tests[j]) {
          return None;
        }
      }
      assert e.tests[..|e.tests|] == e.tests;
      parsed := parsed + [e.(typ := Some(name), compiled := e.compiled || !Blank(e.expr))];
    }
    assert ee[|ee|..] == [] && parsed + [] == parsed;
    return Some(parsed);
  }

  // Moving the first path over to what has been collected.
  lemma InPathsCons(paths: seq<Path>, id: nat, ins: seq<Path>)
    requires paths != []
    ensures ins + InPaths(paths, id)
            == (if paths[0].childID == id then ins + [paths[0]] else ins) + InPaths(paths[1..], id)
  {
    Associative(ins, if paths[0].childID == id then [paths[0]] else [], InPaths(paths[1..], id));
  }

  lemma OutPathsCons(paths: seq<Path>, id: nat, outs: seq<Path>)
    requires paths != []
    ensures outs + OutPaths(paths, id)
            == (if paths[0].childID != id && paths[0].parentID == id then outs + [paths[0]] else outs)
               + OutPaths(paths[1..], id)
  {
    var first := if paths[0].childID != id && paths[0].parentID == id then [paths[0]] else [];
    Associative(outs, first, OutPaths(paths[1..], id));
  }

  lemma NothingLeft(id: nat)
    ensures InPaths([], id) == [] && OutPaths([], id) == [] && Executable([]) == []
  {
  }

  lemma ExecutableCons(steps: seq<Step>, ss: seq<Step>)
    requires steps != []
    ensures ss + Executable(steps)
            == (if steps[0].kind.VisualKind? then ss else ss + [steps[0]]) + Executable(steps[1..])
  {
    Associative(ss, if steps[0].kind.VisualKind? then [] else [steps[0]], Executable(steps[1..]));
  }

  method CollectPaths(paths: seq<Path>, id: nat) returns (ins: seq<Path>, outs: seq<Path>)
    ensures ins == InPaths(paths, id) && outs == OutPaths(paths, id)
  {
    hide InPaths, OutPaths;
    ins, outs := [], [];
    for i := 0 to |paths|
      invariant ins + InPaths(paths[i..], id) == InPaths(paths, id)
      invariant outs + OutPaths(paths[i..], id) == OutPaths(paths, id)
    {
      var path := paths[i];
      InPathsCons(paths[i..], id, ins);
      OutPathsCons(paths[i..], id, outs);
      assert paths[i..][1..] == paths[i + 1..];
      if path.childID == id {
        ins := ins + [path];
      } else if path.parentID == id {
        outs := outs + [path];
      }
    }
    assert paths[|paths|..] == [];
    NothingLeft(id);
  }

  method ConvGateway(reg: Registry, g: Graph, s: Step, ins: seq<Path>, outs: seq<Path>) returns (r: Attempted)
    requires g.Valid()
    ensures r == AttemptGateway(reg, s, ins, outs, Indexed(g.steps))
  {
    if s.ref == "fork" {
      return Resolved(Node(s.id, Fork));
    } else if s.ref == "join" {
      var parents: seq<nat> := [];
      for i := 0 to |ins|
        invariant |parents| == i
        invariant forall j | 0 <= j < i :: parents[j] == ins[j].parentID && parents[j] in g.index
      {
        if ins[i].parentID !in g.index {
          return Waiting;
        }
        parents := parents + [ins[i].parentID];
      }
      assert parents == ParentIDs(ins);
      return Resolved(Node(s.id, Join(parents)));
    } else if s.ref == "incl" || s.ref == "excl" {
      for i := 0 to |outs|
        invariant ScanBranches(reg, outs, g.index.Keys) == ScanBranches(reg, outs[i..], g.index.Keys)
      {
        assert outs[i..][0] == outs[i] && outs[i..][1..] == outs[i + 1..];
        if outs[i].childID !in g.index {
          return Waiting;
        }
        if outs[i].expr != "" && !reg.parses(outs[i].expr) {
          return Failed(BadExpression);
        }
      }
      if |outs| < 2 {
        return Failed(BadConfiguration);
      }
      return Resolved(Node(s.id, if s.ref == "excl" then Excl(outs) else Incl(outs)));
    }
    return Failed(BadConfiguration);
  }

  method ConvFunctionStep(reg: Registry, g: Graph, s: Step, args: seq<Expr>, results: seq<Expr>, outs: seq<Path>)
    returns (r: Attempted)
    requires g.Valid()
    ensures r == AttemptFunction(reg, s, args, results, outs, Indexed(g.steps))
  {
    if s.ref !in reg.functions {
      return Failed(BadConfiguration);
    }
    var def := reg.functions[s.ref];
    if def.kind != KindName(s.kind) {
      return Failed(BadConfiguration);
    }
    var isIterator := def.kind == "iterator";
    if if isIterator then !def.hasIterator else !def.hasHandler {
      return Failed(BadConfiguration);
    }
    var c := Params.VerifyArguments(def.params, args);
    if c.Some? {
      return Failed(BadConfiguration);
    }
    c := Params.VerifyResults(def.results, results);
    if c.Some? {
      return Failed(BadConfiguration);
    }
    if isIterator {
      if |outs| != 2 {
        return Failed(BadConfiguration);
      }
      if outs[0].childID !in g.index || outs[1].childID !in g.index {
        return Waiting;
      }
      return Resolved(Node(s.id, Loop(def, args, results, outs[0].childID, outs[1].childID)));
    }
    if def.kind != "function" {
      return Failed(BadConfiguration);
    }
    return Resolved(Node(s.id, Call(def, args, results)));
  }

  /** Tries to convert a step and adds it to the graph if that succeeds. */
  method StepDefConv(reg: Registry, g: Graph, s: Step, ins: seq<Path>, outs: seq<Path>) returns (r: Attempted)
    requires g.Valid()
    modifies g`steps, g`index
    ensures g.Valid() && r == Attempt(reg, s, ins, outs, Indexed(old(g.steps)))
    ensures g.steps == old(g.steps) + (if r.Resolved? then [r.node] else [])
  {
    var args := ParseExpressions(reg, s.args);
    if args.None? {
      return Failed(BadExpression);
    }
    var results := ParseExpressions(reg, s.results);
    if results.None? {
      return Failed(BadExpression);
    }
    match s.kind {
      case VisualKind => r := Waiting;
      case GatewayKind => r := ConvGateway(reg, g, s, ins, outs);
      case FunctionKind => r := ConvFunctionStep(reg, g, s, args.value, results.value, outs);
      case IteratorKind => r := ConvFunctionStep(reg, g, s, args.value, results.value, outs);
      case ErrHandlerKind => r := AttemptErrHandler(s, outs, g.index.Keys);
      case Other(_) => r := Failed(UnknownKind);
      case _ => r := Resolved(Node(s.id, Plain(s.kind, args.value, results.value)));
    }
    if r.Resolved? {
      g.AddStep(r.node);
    }
  }

  /** The first step with the ID is at position k. */
  predicate FirstAt(steps: seq<Step>, id: nat, k: nat) {
    k < |steps| && steps[k].id == id && forall j | 0 <= j < k :: steps[j].id != id
  }

  lemma NoSteps()
    ensures UniqueIDs([])
  {
  }

  lemma UniqueSnoc(steps: seq<Step>, s: Step)
    ensures UniqueIDs(steps + [s]) <==> UniqueIDs(steps) && forall t | t in steps :: t.id != s.id
  {
    var all := steps + [s];
    forall i, j | 0 <= i < j < |steps|
      ensures all[i] == steps[i] && all[j] == steps[j]
    {
    }
    if UniqueIDs(all) {
      forall t | t in steps
        ensures t.id != s.id
      {
        var i :| 0 <= i < |steps| && steps[i] == t;
        assert all[i].id != all[|steps|].id;
      }
      forall i, j | 0 <= i < j < |steps|
        ensures steps[i].id != steps[j].id
      {
        assert all[i].id != all[j].id;
      }
    }
  }

  /** Positions of step IDs, and an issue for every repeated one. */
  method IndexIDs(steps: seq<Step>) returns (ids: map<nat, nat>, issues: seq<Issue>)
    ensures issues == [] <==> UniqueIDs(steps)
    ensures forall s | s in steps :: s.id in ids
    ensures forall id | id in ids :: FirstAt(steps, id, ids[id])
    ensures forall i, j | 0 <= i < j < |issues| :: issues[i] != issues[j]
  {
    hide UniqueIDs;
    assert UniqueIDs(steps[..0]) by {
      NoSteps();
    }
    ids, issues := map[], [];
    for i := 0 to |steps|
      invariant forall id | id in ids :: ids[id] < i && FirstAt(steps, id, ids[id])
      invariant forall j | 0 <= j < i :: steps[j].id in ids
      invariant issues == [] <==> UniqueIDs(steps[..i])
      invariant forall x | x in issues :: "step" in x.culprit && x.culprit["step"] < i
      invariant forall a, b | 0 <= a < b < |issues| :: issues[a] != issues[b]
    {
      assert steps[..i + 1] == steps[..i] + [steps[i]];
      UniqueSnoc(steps[..i], steps[i]);
      if steps[i].id in ids {
        var j := ids[steps[i].id];
        assert steps[..i][j] in steps[..i];
        issues := Append(issues, DuplicateID, map["step" := i, "duplicate" := j]);
      } else {
        ids := ids[steps[i].id := i];
      }
    }
    assert steps[..|steps|] == steps;
  }

  method FilterSteps(steps: seq<Step>) returns (ss: seq<Step>)
    ensures ss == Executable(steps)
  {
    hide Executable;
    ss := [];
    for i := 0 to |steps|
      invariant ss + Executable(steps[i..]) == Executable(steps)
    {
      var step := steps[i];
      ExecutableCons(steps[i..], ss);
      assert steps[i..][1..] == steps[i + 1..];
      if !step.kind.VisualKind? {
        ss := ss + [step];
      }
    }
    assert steps[|steps|..] == [];
    NothingLeft(0);
  }

  /** One pass over the steps. */
  method RunPass(reg: Registry, g: Graph, def: Definition, ss: seq<Step>, ids: map<nat, nat>)
    returns (progress: bool, issues: seq<Issue>)
    requires g.Valid() && forall s | s in ss :: s.id in ids
    modifies g`steps, g`index
    ensures g.Valid() && g.steps == Pass(reg, def, ss, old(g.steps))
    ensures progress <==> |g.steps| > |old(g.steps)|
    ensures issues == [] <==> CleanPass(reg, def, ss, old(g.steps))
  {
    hide Attempt, VerifyStep, InPaths, OutPaths;
    progress, issues := false, [];
    ghost var before := g.steps;
    for i := 0 to |ss|
      invariant g.Valid()
      invariant Pass(reg, def, ss[i..], g.steps) == Pass(reg, def, ss, before)
      invariant |g.steps| >= |before|
      invariant progress <==> |g.steps| > |before|
      invariant (issues == [] && CleanPass(reg, def, ss[i..], g.steps)) <==> CleanPass(reg, def, ss, before)
    {
      var step := ss[i];
      assert step in ss;
      ghost var nodes := g.steps;
      assert ss[i..][0] == step && ss[i..][1..] == ss[i + 1..];
      if step.id in g.index {
        continue;
      }
      var ins, outs := CollectPaths(def.paths, step.id);
      var problems := VerifyStep(reg, step, ins, outs);
      var r := StepDefConv(reg, g, step, ins, outs);
      assert r == AttemptIn(reg, def, step, nodes);
      if r.Failed? {
        problems := problems + [r.problem];
      } else if r.Resolved? {
        progress := true;
      }
      assert problems == [] <==> CleanStep(reg, def, step, nodes);
      assert g.steps == PassStep(reg, def, step, nodes);
      issues := issues + AtStep(problems, ids[step.id]);
    }
    assert ss[|ss|..] == [];
  }

  /** Connects the steps of the graph, unless something is wrong. */
  method LinkSteps(g: Graph, paths: seq<Path>, issues: seq<Issue>) returns (r: seq<Issue>)
    requires g.Valid() && g.Linked([])
    modifies g`children, g`parents
    ensures g.Valid() && g.steps == old(g.steps)
    ensures r == [] <==>
            issues == [] && forall p | p in paths :: p.parentID in Indexed(g.steps) && p.childID in Indexed(g.steps)
    ensures r == [] ==> g.Linked(paths)
  {
    r := issues;
    for i := 0 to |paths|
      invariant g.Valid() && g.steps == old(g.steps) && g.index == old(g.index)
      invariant r == [] <==> issues == [] && forall p | p in paths[..i] :: p.parentID in g.index && p.childID in g.index
      invariant r == [] ==> g.Linked(paths[..i])
    {
      var path := paths[i];
      assert paths[..i + 1] == paths[..i] + [path];
      assert path in paths[..i + 1];
      if path.childID !in g.index {
        r := Append(r, UnresolvedPath, map["path" := i]);
        continue;
      }
      if path.parentID !in g.index {
        r := Append(r, UnresolvedPath, map["path" := i]);
        continue;
      }
      if |r| > 0 {
        continue;
      }
      g.AddParent(path.childID, path.parentID, paths[..i], path);
    }
    assert paths[..|paths|] == paths;
  }

  /** Converts a definition into a graph, or into a set of distinct issues. */
  method MakeGraph(reg: Registry, def: Definition) returns (g: Graph?, issues: seq<Issue>)
    ensures g == null <==> GraphOf(reg, def).None?
    ensures g == null <==> issues != []
    ensures g != null ==>
              && fresh(g) && g.Valid()
              && g.steps == GraphOf(reg, def).value.steps && g.Linked(def.paths)
    ensures forall i, j | 0 <= i < j < |issues| :: issues[i] != issues[j]
  {
    hide Executable, Pass, CleanPass, InPaths, OutPaths;
    ExecutableMembers(def.steps);
    var ids;
    ids, issues := IndexIDs(def.steps);
    if |issues| > 0 {
      return null, issues;
    }
    var ss := FilterSteps(def.steps);
    var graph := new Graph();
    while |graph.steps| < |ss|
      invariant fresh(graph) && graph.Valid() && graph.Linked([])
      invariant Resolve(reg, def, ss, graph.steps).0 == Resolve(reg, def, ss, []).0
      invariant (issues == [] && Resolve(reg, def, ss, graph.steps).1) <==> Resolve(reg, def, ss, []).1
      decreases |ss| - |graph.steps|
    {
      var progress, ii := RunPass(reg, graph, def, ss, ids);
      issues := issues + ii;
      if !progress {
        var culprit := map["step" := ids[ss[|ss| - 1].id]];
        issues := Append(issues, NoProgress, culprit);
        break;
      }
    }
    issues := LinkSteps(graph, def.paths, issues);
    FirstsKeepEveryIssueOnce(issues);
    if |issues| > 0 {
      issues := Distinct(issues);
      return null, issues;
    }
    return graph, [];
  }

  /** The conversion as the workflow service uses it: a graph that is not touched any more. */
  method Convert(reg: Registry, def: Definition) returns (g: Option<GraphValue>, issues: seq<Issue>)
    ensures g == GraphOf(reg, def)
    ensures g.None? <==> issues != []
  {
    var graph;
    graph, issues := MakeGraph(reg, def);
    g := if graph == null then None else Some(GraphValue(graph.steps, def.paths));
  }
}
