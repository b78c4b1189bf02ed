/**
 What a definition says about its steps, told from its steps and paths alone, and that the graph does
 exactly that (automation/service/workflow_converter.go:161-382, 509-772, pkg/wfexec/gateways.go:118-175).
 */
module StepMeaning {
  import opened WorkflowTypes
  import opened Definitions
  import opened Resolution
  import opened ResolutionProofs
  import opened GraphProperties
  import opened Params

  // ----- Expressions of a step -----

  /** An expression that the parser and the type registry take. */
  predicate Parsable(reg: Registry, e: Expr) {
    && (Blank(e.expr) || reg.parses(e.expr))
    && (if e.declared == "" then "Any" else e.declared) in reg.types
    && forall t | t in e.tests :: reg.parses(t)
  }

  /** The same expressions, with type and language set. */
  predicate IsParsed(ee: seq<Expr>, parsed: seq<Expr>) {
    && |parsed| == |ee|
    && forall i | 0 <= i < |ee| ::
         parsed[i] == ee[i].(typ := Some(if ee[i].declared == "" then "Any" else ee[i].declared),
                             compiled := ee[i].compiled || !Blank(ee[i].expr))
  }

  lemma {:induction false} ParsedIff(reg: Registry, ee: seq<Expr>)
    ensures ParseExprs(reg, ee).Some? <==> forall e | e in ee :: Parsable(reg, e)
    ensures ParseExprs(reg, ee).Some? ==> IsParsed(ee, ParseExprs(reg, ee).value)
  {
    hide Blank;
    if ee != [] {
      ParsedIff(reg, ee[1..]);
      ParsedOne(reg, ee[0]);
      assert forall e :: e in ee <==> e == ee[0] || e in ee[1..];
      hide Parsable, ParseExpr;
      var r := ParseExprs(reg, ee);
      if r.Some? {
        forall i | 0 <= i < |ee|
          ensures r.value[i] == ee[i].(typ := Some(if ee[i].declared == "" then "Any" else ee[i].declared),
                                       compiled := ee[i].compiled || !Blank(ee[i].expr))
        {
          if i > 0 {
            assert r.value[i] == ParseExprs(reg, ee[1..]).value[i - 1] && ee[i] == ee[1..][i - 1];
          }
        }
      }
    }
  }

  lemma ParsedOne(reg: Registry, e: Expr)
    ensures ParseExpr(reg, e).Some? <==> Parsable(reg, e)
    ensures ParseExpr(reg, e).Some? ==> IsParsed([e], [ParseExpr(reg, e).value])
  {
  }

  // ----- Shape of a step -----

  predicate RefFine(reg: Registry, s: Step) {
    match s.kind
    case FunctionKind => s.ref != "" && (s.ref == "corredorExec" ==> reg.corredor)
    case IteratorKind => s.ref != ""
    case PromptKind => s.ref != ""
    case GatewayKind => s.ref in {"join", "fork", "incl", "excl"}
    case ErrorKind => true
    case DelayKind => true
    case VisualKind => true
    case Other(_) => false
    case _ => s.ref == ""
  }

  predicate ArgumentsFine(s: Step) {
    match s.kind
    case ExpressionsKind => |s.args| >= 1
    case ErrorKind => |s.args| == 1 && s.args[0].target == "message" && s.args[0].declared == "String"
    case DelayKind =>
      && |s.args| == 1
      && (s.args[0].target == "timestamp" ==> s.args[0].declared == "DateTime")
      && (s.args[0].target == "offset" ==> s.args[0].declared == "Duration")
    case DebugKind => true
    case FunctionKind => true
    case IteratorKind => true
    case PromptKind => true
    case _ => s.args == []
  }

  predicate ResultsFine(s: Step) {
    s.results == [] || s.kind.FunctionKind? || s.kind.IteratorKind? || s.kind.PromptKind?
  }

  predicate PathsCountFine(s: Step, inbound: nat, outbound: nat) {
    match s.kind
    case GatewayKind => if s.ref == "join" then inbound >= 1 else outbound >= 1
    case ErrHandlerKind => outbound == 1 || outbound == 2
    case IteratorKind => outbound == 2
    case ErrorKind => outbound == 0
    case TerminationKind => outbound == 0
    case BreakKind => outbound == 0
    case ContinueKind => outbound == 0
    case VisualKind => true
    case _ => outbound <= 1
  }

  /** A step verifies if and only if its reference, arguments, results and paths are as its kind wants them. */
  lemma VerifiesIff(reg: Registry, def: Definition, s: Step)
    ensures Verified(reg, def, s) == [] <==>
            && RefFine(reg, s) && ArgumentsFine(s) && ResultsFine(s)
            && PathsCountFine(s, |ParentsOf(def.paths, s.id)|, |OtherChildren(def.paths, s.id)|)
  {
    OutPathsAreOtherChildren(def.paths, s.id);
    InPathsAreParents(def.paths, s.id);
    hide InPaths, OutPaths, OtherChildren, ParentsOf;
    VerifyStepIff(reg, s, InPaths(def.paths, s.id), OutPaths(def.paths, s.id));
  }

  lemma VerifyStepIff(reg: Registry, s: Step, ins: seq<Path>, outs: seq<Path>)
    ensures VerifyStep(reg, s, ins, outs) == [] <==>
            RefFine(reg, s) && ArgumentsFine(s) && ResultsFine(s) && PathsCountFine(s, |ins|, |outs|)
  {
    hide FirstByTarget;
    if |s.args| == 1 {
      OnlyArgument(s.args, "message");
      OnlyArgument(s.args, "timestamp");
      OnlyArgument(s.args, "offset");
    }
    if s.args == [] {
      NoArgument("message");
    }
  }

  lemma OnlyArgument(ee: seq<Expr>, t: string)
    requires |ee| == 1
    ensures FirstByTarget(ee, t) == if ee[0].target == t then Some(ee[0]) else None
  {
    assert ee[1..] == [];
  }

  lemma NoArgument(t: string)
    ensures FirstByTarget([], t) == None
  {
  }

  // ----- Conversion of a step -----

  predicate LeavesFor(p: Path, id: nat) {
    p.parentID == id && p.childID != id
  }

  /** The step can be converted as far as itself and its paths go. */
  predicate Convertible(reg: Registry, def: Definition, s: Step) {
    && (forall e | e in s.args :: Parsable(reg, e))
    && (forall e | e in s.results :: Parsable(reg, e))
    && match s.kind
       case GatewayKind =>
         s.ref == "join" || s.ref == "fork"
         || ((s.ref == "incl" || s.ref == "excl")
             && |OtherChildren(def.paths, s.id)| >= 2
             && forall p | p in def.paths && LeavesFor(p, s.id) :: p.expr == "" || reg.parses(p.expr))
       case FunctionKind =>
         && s.ref in reg.functions && reg.functions[s.ref].kind == "function" && reg.functions[s.ref].hasHandler
         && ArgumentsMatch(reg.functions[s.ref].params, s.args) && ResultsMatch(reg.functions[s.ref].results, s.results)
       case IteratorKind =>
         && s.ref in reg.functions && reg.functions[s.ref].kind == "iterator" && reg.functions[s.ref].hasIterator
         && ArgumentsMatch(reg.functions[s.ref].params, s.args) && ResultsMatch(reg.functions[s.ref].results, s.results)
         && |OtherChildren(def.paths, s.id)| == 2
       case ErrHandlerKind => 1 <= |OtherChildren(def.paths, s.id)| <= 2
       case VisualKind => false
       case Other(_) => false
       case _ => true
  }

  lemma ParsedMatches(params: seq<Param>, ee: seq<Expr>, parsed: seq<Expr>)
    requires IsParsed(ee, parsed)
    ensures ArgumentsMatch(params, parsed) <==> ArgumentsMatch(params, ee)
    ensures ResultsMatch(params, parsed) <==> ResultsMatch(params, ee)
  {
    hide Blank;
    if ArgumentsMatch(params, ee) {
      MatchesToo(params, ee, parsed);
    }
    if ArgumentsMatch(params, parsed) {
      MatchesToo(params, parsed, ee);
    }
    assert forall t, i :: FirstAt(parsed, t, i) <==> FirstAt(ee, t, i);
  }

  lemma MatchesToo(params: seq<Param>, a: seq<Expr>, b: seq<Expr>)
    requires |a| == |b| && forall i | 0 <= i < |a| :: a[i].target == b[i].target && a[i].declared == b[i].declared
    requires ArgumentsMatch(params, a)
    ensures ArgumentsMatch(params, b)
  {
    assert TargetsDeclared(params, b) by {
      forall i | 0 <= i < |b|
        ensures Declares(params, b[i].target)
      {
        assert Declares(params, a[i].target);
      }
    }
    assert RequiredGiven(params, b) by {
      forall j | 0 <= j < |params| && params[j].required
        ensures exists i | 0 <= i < |b| :: b[i].target == params[j].name
      {
        var i :| 0 <= i < |a| && a[i].target == params[j].name;
        assert b[i].target == params[j].name;
      }
    }
    assert FirstsAllowed(params, b) by {
      forall j, i | 0 <= j < |params| && 0 <= i < |b| && FirstAt(b, params[j].name, i)
        ensures b[i].declared in params[j].types || "Any" in params[j].types
      {
        assert FirstAt(a, params[j].name, i);
      }
    }
  }

  lemma {:induction false} BranchesParse(reg: Registry, outs: seq<Path>, known: set<nat>)
    requires forall p | p in outs :: p.childID in known
    ensures ScanBranches(reg, outs, known).AllThere? <==> forall p | p in outs :: p.expr == "" || reg.parses(p.expr)
  {
    if outs != [] {
      BranchesParse(reg, outs[1..], known);
    }
  }

  /** Conversion as such succeeds if and only if the definition of the step allows it. */
  lemma ConvertsIff(reg: Registry, def: Definition, s: Step)
    ensures Converted(reg, def, s).Resolved? <==> Convertible(reg, def, s)
  {
    hide Converted, Convertible;
    match s.kind
    case GatewayKind => ConvertsIfGateway(reg, def, s);
    case FunctionKind => ConvertsIfFunction(reg, def, s);
    case IteratorKind => ConvertsIfFunction(reg, def, s);
    case _ => ConvertsIfPlain(reg, def, s);
  }

  lemma ConvertsIfGateway(reg: Registry, def: Definition, s: Step)
    requires s.kind.GatewayKind?
    ensures Converted(reg, def, s).Resolved? <==> Convertible(reg, def, s)
  {
    PathsAround(def.paths, s.id);
    OutPathsAreOtherChildren(def.paths, s.id);
    ParsedIff(reg, s.args);
    ParsedIff(reg, s.results);
    hide InPaths, OutPaths, OtherChildren, ParseExprs, Parsable, AttemptGateway, WaitsFor;
    GatewayConvertsIff(reg, s, InPaths(def.paths, s.id), OutPaths(def.paths, s.id));
  }

  lemma ConvertsIfFunction(reg: Registry, def: Definition, s: Step)
    requires s.kind.FunctionKind? || s.kind.IteratorKind?
    ensures Converted(reg, def, s).Resolved? <==> Convertible(reg, def, s)
  {
    OutPathsAreOtherChildren(def.paths, s.id);
    ParsedIff(reg, s.args);
    ParsedIff(reg, s.results);
    hide InPaths, OutPaths, OtherChildren, ParseExprs, Parsable, AcceptsArguments, AcceptsResults, ArgumentsMatch,
         ResultsMatch, WaitsFor, IsParsed;
    var args, results := ParseExprs(reg, s.args), ParseExprs(reg, s.results);
    if args.Some? && results.Some? && s.ref in reg.functions {
      var fn := reg.functions[s.ref];
      AcceptsArgumentsIff(fn.params, args.value);
      AcceptsResultsIff(fn.results, results.value);
      ParsedMatches(fn.params, s.args, args.value);
      ParsedMatches(fn.results, s.results, results.value);
      FunctionConvertsIff(reg, s, args.value, results.value, InPaths(def.paths, s.id), OutPaths(def.paths, s.id));
    }
  }

  lemma ConvertsIfPlain(reg: Registry, def: Definition, s: Step)
    requires !s.kind.GatewayKind? && !s.kind.FunctionKind? && !s.kind.IteratorKind?
    ensures Converted(reg, def, s).Resolved? <==> Convertible(reg, def, s)
  {
    OutPathsAreOtherChildren(def.paths, s.id);
    ParsedIff(reg, s.args);
    ParsedIff(reg, s.results);
    hide InPaths, OutPaths, OtherChildren, ParseExprs, Parsable, IsParsed, AttemptGateway, AttemptFunction;
  }

  lemma GatewayConvertsIff(reg: Registry, s: Step, ins: seq<Path>, outs: seq<Path>)
    requires s.kind.GatewayKind?
    ensures AttemptGateway(reg, s, ins, outs, WaitsFor(s, ins, outs)).Resolved? <==>
            || s.ref == "join" || s.ref == "fork"
            || ((s.ref == "incl" || s.ref == "excl")
                && |outs| >= 2 && forall p | p in outs :: p.expr == "" || reg.parses(p.expr))
  {
    var known := WaitsFor(s, ins, outs);
    if s.ref == "incl" || s.ref == "excl" {
      BranchesParse(reg, outs, known);
      NothingMissing(reg, outs, known);
    }
  }

  lemma FunctionConvertsIff(reg: Registry, s: Step, args: seq<Expr>, results: seq<Expr>, ins: seq<Path>,
          outs: seq<Path>)
    requires s.ref in reg.functions
    ensures var fn := reg.functions[s.ref];
            var taken := AcceptsArguments(fn.params, args) && AcceptsResults(fn.results, results);
            var r := AttemptFunction(reg, s, args, results, outs, WaitsFor(s, ins, outs));
            && (s.kind.FunctionKind? ==> (r.Resolved? <==> fn.kind == "function" && fn.hasHandler && taken))
            && (s.kind.IteratorKind? ==>
                  (r.Resolved? <==> fn.kind == "iterator" && fn.hasIterator && taken && |outs| == 2))
  {
    hide AcceptsArguments, AcceptsResults;
  }

  // ----- What a step waits for -----

  /** The step cannot be converted before the step w. */
  predicate MustWait(def: Definition, s: Step, w: nat) {
    var others := OtherChildren(def.paths, s.id);
    match s.kind
    case GatewayKind =>
      || (s.ref == "join" && exists p :: p in def.paths && p.childID == s.id && p.parentID == w)
      || ((s.ref == "incl" || s.ref == "excl") && exists p :: p in def.paths && LeavesFor(p, s.id) && p.childID == w)
    case IteratorKind => |others| == 2 && (w == others[0] || w == others[1])
    case ErrHandlerKind => |others| == 2 && w == others[1]
    case _ => false
  }

  /** A join waits for its parents, a deciding gateway for its children, and so on. */
  lemma AwaitsIff(def: Definition, s: Step, w: nat)
    ensures w in Awaits(def, s) <==> MustWait(def, s, w)
  {
    PathsAround(def.paths, s.id);
    OutPathsAreOtherChildren(def.paths, s.id);
    hide InPaths, OutPaths, OtherChildren;
  }

  /** Acceptable definitions, told from steps and paths alone. */
  ghost predicate Meaningful(reg: Registry, def: Definition) {
    && (forall i, j | 0 <= i < j < |def.steps| :: def.steps[i].id != def.steps[j].id)
    && (forall s | s in def.steps && !s.kind.VisualKind? :: Proper(reg, def, s))
    && (forall p | p in def.paths :: EndsAtStep(def, p.parentID) && EndsAtStep(def, p.childID))
    && exists rank: map<nat, nat> :: Ordered(def, rank)
  }

  predicate Proper(reg: Registry, def: Definition, s: Step) {
    && RefFine(reg, s) && ArgumentsFine(s) && ResultsFine(s)
    && PathsCountFine(s, |ParentsOf(def.paths, s.id)|, |OtherChildren(def.paths, s.id)|)
    && Convertible(reg, def, s)
  }

  predicate EndsAtStep(def: Definition, id: nat) {
    exists s :: s in def.steps && !s.kind.VisualKind? && s.id == id
  }

  ghost predicate Ordered(def: Definition, rank: map<nat, nat>) {
    forall s, w | s in def.steps && !s.kind.VisualKind? && MustWait(def, s, w) ::
      s.id in rank && w in rank && rank[w] < rank[s.id]
  }

  /**
   A definition is acceptable if and only if, told from its steps and paths alone, IDs differ, steps are
   proper, paths end at steps, and the steps can be ordered by what they wait for.
   */
  lemma AcceptableIff(reg: Registry, def: Definition)
    ensures Acceptable(reg, def) <==> Meaningful(reg, def)
  {
    hide Awaits, MustWait, Convertible, RefFine, ArgumentsFine, ResultsFine, PathsCountFine, Converted, Verified,
         Executable;
    ExecutableMembers(def.steps);
    var ss := Executable(def.steps);
    forall s
      ensures StepFine(reg, def, s) <==> Proper(reg, def, s)
    {
      VerifiesIff(reg, def, s);
      ConvertsIff(reg, def, s);
    }
    forall id
      ensures id in IDs(ss) <==> EndsAtStep(def, id)
    {
    }
    forall rank: map<nat, nat>
      ensures Ranks(def, ss, rank) <==> Ordered(def, rank)
    {
      forall s, w
        ensures w in Awaits(def, s) <==> MustWait(def, s, w)
      {
        AwaitsIff(def, s, w);
      }
    }
  }

  // ----- What a step becomes -----

  /** The node does what the step says. */
  predicate Does(reg: Registry, def: Definition, s: Step, n: Node) {
    var others := OtherChildren(def.paths, s.id);
    && n.id == s.id
    && match s.kind
       case GatewayKind =>
         && (n.task.Fork? <==> s.ref == "fork")
         && (n.task.Join? <==> s.ref == "join")
         && (n.task.Incl? <==> s.ref == "incl")
         && (n.task.Excl? <==> s.ref == "excl")
         && (n.task.Fork? || n.task.Join? || n.task.Incl? || n.task.Excl?)
         && (n.task.Join? ==> n.task.parents == ParentsOf(def.paths, s.id))
         && (n.task.Incl? || n.task.Excl? ==> n.task.branches == Leaving(def.paths, s.id))
       case FunctionKind =>
         && n.task.Call? && s.ref in reg.functions && n.task.fn == reg.functions[s.ref]
         && IsParsed(s.args, n.task.args) && IsParsed(s.results, n.task.results)
       case IteratorKind =>
         && n.task.Loop? && s.ref in reg.functions && n.task.fn == reg.functions[s.ref]
         && IsParsed(s.args, n.task.args) && IsParsed(s.results, n.task.results)
         && others == [n.task.next, n.task.exit]
       case ErrHandlerKind =>
         && n.task.Handler?
         && if |others| == 2 then n.task.handler == Some(others[1]) else |others| == 1 && n.task.handler == None
       case _ =>
         && n.task.Plain? && n.task.kind == s.kind
         && IsParsed(s.args, n.task.args) && IsParsed(s.results, n.task.results)
  }

  /** The paths that leave the step, in the order of the definition. */
  function Leaving(paths: seq<Path>, id: nat): seq<Path> {
    if paths == [] then []
    else
      var k := |paths| - 1;
      Leaving(paths[..k], id) + (if LeavesFor(paths[k], id) then [paths[k]] else [])
  }

  lemma {:induction false} LeavingAppend(a: seq<Path>, b: seq<Path>, id: nat)
    ensures Leaving(a + b, id) == Leaving(a, id) + Leaving(b, id)
  {
    if b == [] {
      assert a + b == a;
    } else {
      var k := |b| - 1;
      assert (a + b)[..|a| + k] == a + b[..k];
      LeavingAppend(a, b[..k], id);
      Associative(Leaving(a, id), Leaving(b[..k], id), if LeavesFor(b[k], id) then [b[k]] else []);
    }
  }

  lemma {:induction false} OutPathsLeave(paths: seq<Path>, id: nat)
    ensures OutPaths(paths, id) == Leaving(paths, id)
  {
    if paths != [] {
      OutPathsLeave(paths[1..], id);
      assert paths == [paths[0]] + paths[1..];
      LeavingAppend([paths[0]], paths[1..], id);
      assert [paths[0]][..0] == [];
      assert Leaving([paths[0]], id) == if LeavesFor(paths[0], id) then [paths[0]] else [];
    }
  }

  lemma ConvertedDoes(reg: Registry, def: Definition, s: Step, n: Node)
    requires Converted(reg, def, s) == Resolved(n)
    ensures Does(reg, def, s, n)
  {
    OutPathsLeave(def.paths, s.id);
    OutPathsAreOtherChildren(def.paths, s.id);
    InPathsAreParents(def.paths, s.id);
    ParsedIff(reg, s.args);
    ParsedIff(reg, s.results);
    var ins, outs := InPaths(def.paths, s.id), OutPaths(def.paths, s.id);
    hide InPaths, OutPaths, OtherChildren, Leaving, ParentsOf, ParseExprs, IsParsed, Parsable;
    AttemptDoes(reg, s, ins, outs, WaitsFor(s, ins, outs), n);
  }

  lemma AttemptDoes(reg: Registry, s: Step, ins: seq<Path>, outs: seq<Path>, known: set<nat>, n: Node)
    requires Attempt(reg, s, ins, outs, known) == Resolved(n)
    ensures n.id == s.id && ParseExprs(reg, s.args).Some? && ParseExprs(reg, s.results).Some?
    ensures var args, results := ParseExprs(reg, s.args).value, ParseExprs(reg, s.results).value;
            match s.kind
            case GatewayKind =>
              && (s.ref == "fork" ==> n.task == Fork) && (s.ref == "join" ==> n.task == Join(ParentIDs(ins)))
              && (s.ref == "incl" ==> n.task == Incl(outs)) && (s.ref == "excl" ==> n.task == Excl(outs))
              && s.ref in {"fork", "join", "incl", "excl"}
            case FunctionKind => s.ref in reg.functions && n.task == Call(reg.functions[s.ref], args, results)
            case IteratorKind =>
              && s.ref in reg.functions && |outs| == 2
              && n.task == Loop(reg.functions[s.ref], args, results, outs[0].childID, outs[1].childID)
            case ErrHandlerKind =>
              && (|outs| == 1 || |outs| == 2)
              && n.task == Handler(if |outs| == 2 then Some(outs[1].childID) else None)
            case _ => n.task == Plain(s.kind, args, results)
  {
    hide ParseExprs, ScanBranches, AcceptsArguments, AcceptsResults;
  }

  /** Every node of a graph does what its step says. */
  lemma NodesDoWhatStepsSay(reg: Registry, def: Definition, n: Node)
    requires GraphOf(reg, def).Some? && n in GraphOf(reg, def).value.steps
    ensures exists s :: s in def.steps && !s.kind.VisualKind? && Does(reg, def, s, n)
  {
    hide Does, GraphOf;
    ExecutableMembers(def.steps);
    var s := StepOfNode(reg, def, n);
    ConvertedDoes(reg, def, s, n);
  }

  // ----- Where a deciding gateway sends a session -----

  /** Outcome of a path's test; None if it fails to evaluate. */
  type Tester = string -> Option<bool>

  /** A path without a test passes. */
  function Test(p: Path, test: Tester): Option<bool> {
    if p.expr == "" then Some(true) else test(p.expr)
  }

  /** The loop of an inclusive gateway over its branches. */
  function RunIncl(branches: seq<Path>, test: Tester): Option<seq<nat>> {
    if branches == [] then Some([])
    else
      match Test(branches[0], test)
      case None => None
      case Some(passes) =>
        var rest := RunIncl(branches[1..], test);
        if rest.None? then None else Some((if passes then [branches[0].childID] else []) + rest.value)
  }

  /** The loop of an exclusive gateway over its branches. */
  function RunExcl(branches: seq<Path>, test: Tester): Option<nat> {
    if branches == [] then None
    else
      match Test(branches[0], test)
      case None => None
      case Some(passes) => if passes then Some(branches[0].childID) else RunExcl(branches[1..], test)
  }

  /** Where the gateway continues; None if it stops the session with an error. */
  function Decide(t: Task, test: Tester): Option<seq<nat>> {
    match t
    case Incl(bb) =>
      var r := RunIncl(bb, test);
      if r == Some([]) then None else r
    case Excl(bb) =>
      var r := RunExcl(bb, test);
      if r.None? then None else Some([r.value])
    case _ => Some([])
  }

  /** The k-th path leaves the step and is the first one of these that passes. */
  predicate FirstPassing(paths: seq<Path>, id: nat, test: Tester, k: int) {
    && 0 <= k < |paths| && LeavesFor(paths[k], id) && Test(paths[k], test) == Some(true)
    && forall j | 0 <= j < k && LeavesFor(paths[j], id) :: Test(paths[j], test) == Some(false)
  }

  predicate AllTestable(paths: seq<Path>, id: nat, test: Tester) {
    forall p | p in paths && LeavesFor(p, id) :: Test(p, test).Some?
  }

  /** Ends of the passing paths that leave the step, in the order of the definition. */
  function PassingEnds(paths: seq<Path>, id: nat, test: Tester): seq<nat> {
    if paths == [] then []
    else
      (if LeavesFor(paths[0], id) && Test(paths[0], test) == Some(true) then [paths[0].childID] else [])
      + PassingEnds(paths[1..], id, test)
  }

  lemma {:induction false} InclTakesAllPassing(paths: seq<Path>, id: nat, test: Tester)
    ensures RunIncl(OutPaths(paths, id), test) ==
            if AllTestable(paths, id, test) then Some(PassingEnds(paths, id, test)) else None
  {
    if paths != [] {
      var p, rest := paths[0], OutPaths(paths[1..], id);
      InclTakesAllPassing(paths[1..], id, test);
      assert ([p] + rest)[1..] == rest && [] + rest == rest;
      assert OutPaths(paths, id) == if LeavesFor(p, id) then [p] + rest else rest;
      assert forall q :: q in paths <==> q == p || q in paths[1..];
      assert AllTestable(paths, id, test) <==>
             (LeavesFor(p, id) ==> Test(p, test).Some?) && AllTestable(paths[1..], id, test);
      assert [] + PassingEnds(paths[1..], id, test) == PassingEnds(paths[1..], id, test);
    }
  }

  // The first passing path behind one that leaves elsewhere or does not pass.
  lemma FirstPassingTail(paths: seq<Path>, id: nat, test: Tester, k: int)
    requires paths != [] && (LeavesFor(paths[0], id) ==> Test(paths[0], test) == Some(false))
    ensures FirstPassing(paths, id, test, k) <==> FirstPassing(paths[1..], id, test, k - 1)
    ensures FirstPassing(paths, id, test, k) ==> k > 0 && paths[k] == paths[1..][k - 1]
  {
    if FirstPassing(paths[1..], id, test, k - 1) {
      forall j | 0 <= j < k && LeavesFor(paths[j], id)
        ensures Test(paths[j], test) == Some(false)
      {
        assert j > 0 ==> paths[1..][j - 1] == paths[j];
      }
    }
    if FirstPassing(paths, id, test, k) {
      forall j | 0 <= j < k - 1 && LeavesFor(paths[1..][j], id)
        ensures Test(paths[1..][j], test) == Some(false)
      {
        assert paths[1..][j] == paths[j + 1];
      }
    }
  }

  // No path behind one that passes or cannot be tested is the first passing one.
  lemma FirstPassingHead(paths: seq<Path>, id: nat, test: Tester, k: int)
    requires paths != [] && LeavesFor(paths[0], id) && Test(paths[0], test) != Some(false)
    ensures FirstPassing(paths, id, test, k) <==> k == 0 && Test(paths[0], test) == Some(true)
  {
  }

  /** The result is the end of the first passing path, if there is one. */
  ghost predicate IsFirstPassing(paths: seq<Path>, id: nat, test: Tester, r: Option<nat>) {
    && (r.Some? ==> exists k :: FirstPassing(paths, id, test, k) && r.value == paths[k].childID)
    && (forall k | FirstPassing(paths, id, test, k) :: r == Some(paths[k].childID))
  }

  lemma FirstPassingBehind(paths: seq<Path>, id: nat, test: Tester, r: Option<nat>)
    requires paths != [] && (LeavesFor(paths[0], id) ==> Test(paths[0], test) == Some(false))
    requires IsFirstPassing(paths[1..], id, test, r)
    ensures IsFirstPassing(paths, id, test, r)
  {
    forall k
      ensures FirstPassing(paths, id, test, k) <==> FirstPassing(paths[1..], id, test, k - 1)
      ensures FirstPassing(paths, id, test, k) ==> k > 0 && paths[k] == paths[1..][k - 1]
    {
      FirstPassingTail(paths, id, test, k);
    }
    hide FirstPassing;
    if r.Some? {
      var k :| FirstPassing(paths[1..], id, test, k) && r.value == paths[1..][k].childID;
      assert FirstPassing(paths, id, test, k + 1);
    }
  }

  lemma FirstPassingHere(paths: seq<Path>, id: nat, test: Tester)
    requires paths != [] && LeavesFor(paths[0], id) && Test(paths[0], test) != Some(false)
    ensures IsFirstPassing(paths, id, test,
                           if Test(paths[0], test) == Some(true) then Some(paths[0].childID) else None)
  {
    forall k
      ensures FirstPassing(paths, id, test, k) <==> k == 0 && Test(paths[0], test) == Some(true)
    {
      FirstPassingHead(paths, id, test, k);
    }
    hide FirstPassing;
  }

  lemma {:induction false} ExclTakesFirstPassing(paths: seq<Path>, id: nat, test: Tester)
    ensures IsFirstPassing(paths, id, test, RunExcl(OutPaths(paths, id), test))
  {
    if paths != [] {
      var p, rest := paths[0], OutPaths(paths[1..], id);
      assert ([p] + rest)[1..] == rest && [] + rest == rest;
      assert OutPaths(paths, id) == if LeavesFor(p, id) then [p] + rest else rest;
      hide IsFirstPassing;
      if LeavesFor(p, id) && Test(p, test) != Some(false) {
        FirstPassingHere(paths, id, test);
      } else {
        ExclTakesFirstPassing(paths[1..], id, test);
        FirstPassingBehind(paths, id, test, RunExcl(rest, test));
      }
    }
  }

  /**
   Routing: whatever the tests of the paths say, in every graph an "excl" step continues with the first
   passing path that leaves it, and with none if no path before an untestable one passes; an "incl" step
   continues with all passing paths, if all can be tested and some pass.
   */
  lemma GatewayDecides(reg: Registry, def: Definition, s: Step, n: Node, test: Tester)
    requires GraphOf(reg, def).Some? && n in GraphOf(reg, def).value.steps
    requires s in def.steps && s.kind.GatewayKind? && s.id == n.id
    ensures s.ref == "excl" ==>
              var r := Decide(n.task, test);
              && (r.Some? ==> exists k :: FirstPassing(def.paths, s.id, test, k) && r == Some([def.paths[k].childID]))
              && (forall k | FirstPassing(def.paths, s.id, test, k) :: r == Some([def.paths[k].childID]))
    ensures s.ref == "incl" ==>
              var ends := PassingEnds(def.paths, s.id, test);
              Decide(n.task, test) == if AllTestable(def.paths, s.id, test) && ends != [] then Some(ends) else None
  {
    var t := TheStep(reg, def, s, n);
    hide GraphOf, Converted, ParseExprs, OtherChildren, ParentsOf, OutPaths, Leaving, PassingEnds, AllTestable;
    OutPathsLeave(def.paths, s.id);
    InclTakesAllPassing(def.paths, s.id, test);
    ExclTakesFirstPassing(def.paths, s.id, test);
  }

  // The step of a node is the one with its ID.
  lemma TheStep(reg: Registry, def: Definition, s: Step, n: Node) returns (t: Step)
    requires GraphOf(reg, def).Some? && n in GraphOf(reg, def).value.steps
    requires s in def.steps && s.id == n.id
    ensures t == s && !s.kind.VisualKind? && Does(reg, def, s, n)
  {
    hide Does;
    ExecutableMembers(def.steps);
    t := StepOfNode(reg, def, n);
    hide Converted, Executable;
    GraphMeansAcceptable(reg, def);
    UniqueOf(reg, def);
    SameID(def.steps, s, t);
    ConvertedDoes(reg, def, t, n);
  }

  lemma UniqueOf(reg: Registry, def: Definition)
    requires Acceptable(reg, def)
    ensures UniqueIDs(def.steps)
  {
  }

  // ----- Steps come after those they need -----

  /** The steps that the task of a node refers to. */
  function Needs(t: Task): set<nat> {
    match t
    case Join(pp) => set p | p in pp
    case _ => Routes(t)
  }

  lemma {:induction false} SequencedAt(reg: Registry, def: Definition, ss: seq<Step>, nodes: seq<Node>, i: nat)
    requires Sequenced(reg, def, ss, nodes) && i < |nodes|
    ensures Justified(reg, def, ss, nodes[..i], nodes[i])
    decreases |nodes|
  {
    hide Justified;
    var k := |nodes| - 1;
    if i < k {
      assert nodes[..k][..i] == nodes[..i];
      SequencedAt(reg, def, ss, nodes[..k], i);
    }
  }

  lemma NeedsAreAwaited(reg: Registry, def: Definition, s: Step, n: Node)
    requires Does(reg, def, s, n) && !s.kind.VisualKind?
    ensures forall w | w in Needs(n.task) :: MustWait(def, s, w)
  {
    hide OtherChildren;
    LeavingMembers(def.paths, s.id);
    ParentsMembers(def.paths, s.id);
  }

  lemma {:induction false} LeavingMembers(paths: seq<Path>, id: nat)
    ensures forall p :: p in Leaving(paths, id) <==> p in paths && LeavesFor(p, id)
  {
    if paths != [] {
      var k := |paths| - 1;
      LeavingMembers(paths[..k], id);
      assert forall p :: p in paths <==> p in paths[..k] || p == paths[k];
    }
  }

  lemma {:induction false} ParentsMembers(paths: seq<Path>, id: nat)
    ensures forall w :: w in ParentsOf(paths, id) <==> exists p :: p in paths && p.childID == id && p.parentID == w
  {
    if paths != [] {
      ParentsMembers(paths[1..], id);
      assert forall p :: p in paths <==> p == paths[0] || p in paths[1..];
    }
  }

  /**
   In every graph a join comes after all its parents, a deciding gateway after all its branches, an
   iterator after both its children, and an error handler after the step it hands over to.
   */
  lemma NodesComeAfterTheirNeeds(reg: Registry, def: Definition, i: nat)
    requires GraphOf(reg, def).Some? && i < |GraphOf(reg, def).value.steps|
    ensures var nodes := GraphOf(reg, def).value.steps;
            forall w | w in Needs(nodes[i].task) :: exists j | 0 <= j < i :: nodes[j].id == w
  {
    hide Attempt, VerifyStep, Awaits, MustWait, Does, Executable, AttemptIn, Converted;
    ExecutableMembers(def.steps);
    var ss, nodes := Executable(def.steps), GraphOf(reg, def).value.steps;
    assert Sequenced(reg, def, ss, []);
    ResolveKeeps(reg, def, []);
    SequencedAt(reg, def, ss, nodes, i);
    var s := StepOf(reg, def, ss, nodes[..i], nodes[i]);
    ConvertedDoes(reg, def, s, nodes[i]);
    NeedsAreAwaited(reg, def, s, nodes[i]);
    forall w | w in Needs(nodes[i].task)
      ensures exists j | 0 <= j < i :: nodes[j].id == w
    {
      AwaitsIff(def, s, w);
      assert w in Indexed(nodes[..i]);
    }
  }
}
