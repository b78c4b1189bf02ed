/**
 What the workflow converter computes (automation/service/workflow_converter.go:42-382,
 509-772): when a step verifies, when it can be converted, and the passes that resolve steps
 one after another. The loops themselves are in module Converter.
 */
module Resolution {
  import opened WorkflowTypes
  import opened Definitions
  import opened Params

  datatype Problem =
    | DuplicateID
    | WrongCount
    | MissingRef
    | UnexpectedRef
    | DisabledFunction
    | MissingArgument
    | WrongArgumentType
    | UnknownGateway
    | UnknownKind
    | BadExpression
    | BadConfiguration
    | NoProgress
    | UnresolvedPath

  // ----- Paths around a step -----

  // A path from a step to itself counts as inbound only.
  function InPaths(paths: seq<Path>, id: nat): seq<Path> {
    if paths == [] then []
    else (if paths[0].childID == id then [paths[0]] else []) + InPaths(paths[1..], id)
  }

  function OutPaths(paths: seq<Path>, id: nat): seq<Path> {
    if paths == [] then []
    else (if paths[0].childID != id && paths[0].parentID == id then [paths[0]] else []) + OutPaths(paths[1..], id)
  }

  lemma {:induction false} PathsAround(paths: seq<Path>, id: nat)
    ensures forall p :: p in InPaths(paths, id) <==> p in paths && p.childID == id
    ensures forall p :: p in OutPaths(paths, id) <==> p in paths && p.childID != id && p.parentID == id
  {
    if paths != [] {
      PathsAround(paths[1..], id);
      assert forall p :: p in paths <==> p == paths[0] || p in paths[1..];
    }
  }

  // ----- Verification of a single step -----

  /** Problems of a count that has to be between min and max; max -1 is no limit. */
  function Count(min: nat, max: int, n: nat): seq<Problem> {
    if max == 0 && min == max && n != min then [WrongCount]
    else if max > 0 && min == max && n != min then [WrongCount]
    else if n < min then [WrongCount]
    else if max > 0 && n > max then [WrongCount]
    else []
  }

  function NoRef(s: Step): seq<Problem> { if s.ref != "" then [UnexpectedRef] else [] }

  function RequiredRef(s: Step): seq<Problem> { if s.ref == "" then [MissingRef] else [] }

  function CheckArg(s: Step, name: string, typ: string): seq<Problem> {
    var e := FirstByTarget(s.args, name);
    if e.Some? && e.value.declared != typ then [WrongArgumentType] else []
  }

  function RequiredArg(s: Step, name: string, typ: string): seq<Problem> {
    if FirstByTarget(s.args, name).None? then [MissingArgument] else CheckArg(s, name, typ)
  }

  function CheckDisabled(reg: Registry, s: Step): seq<Problem> {
    if !reg.corredor && s.ref == "corredorExec" then [DisabledFunction] else []
  }

  function GatewayCheck(s: Step, inbound: nat, outbound: nat): seq<Problem> {
    match s.ref
    case "join" => Count(1, -1, inbound)
    case "fork" => Count(1, -1, outbound)
    case "incl" => Count(1, -1, outbound)
    case "excl" => Count(1, -1, outbound)
    case _ => [UnknownGateway]
  }

  /** Everything wrong with a step that can be told from the step and its paths. */
  function VerifyStep(reg: Registry, s: Step, ins: seq<Path>, outs: seq<Path>): seq<Problem> {
    var args := Count(0, 0, |s.args|);
    var results := Count(0, 0, |s.results|);
    var last := Count(0, 0, |outs|);
    var atMostOne := Count(0, 1, |outs|);
    match s.kind
    case ErrHandlerKind => NoRef(s) + args + results + Count(1, 2, |outs|)
    case DebugKind => NoRef(s) + results + atMostOne
    case VisualKind => results + args
    case ExpressionsKind => NoRef(s) + results + Count(1, -1, |s.args|) + atMostOne
    case GatewayKind => args + results + GatewayCheck(s, |ins|, |outs|)
    case ErrorKind => RequiredArg(s, "message", "String") + Count(0, 1, |s.args|) + results + last
    case TerminationKind => NoRef(s) + args + results + last
    case FunctionKind => RequiredRef(s) + CheckDisabled(reg, s) + atMostOne
    case IteratorKind => RequiredRef(s) + Count(2, 2, |outs|)
    case PromptKind => RequiredRef(s) + atMostOne
    case DelayKind => CheckArg(s, "timestamp", "DateTime") + CheckArg(s, "offset", "Duration")
                      + Count(1, 1, |s.args|) + results + atMostOne
    case BreakKind => NoRef(s) + args + results + atMostOne + last
    case ContinueKind => NoRef(s) + args + results + atMostOne + last
    case Other(_) => [UnknownKind]
  }

  // ----- Conversion of a single step -----

  /** unicode.IsSpace */
  predicate IsSpace(c: char) {
    var n := c as int;
    || 9 <= n <= 13 || n == 32 || n == 0x85 || n == 0xA0 || n == 0x1680 || 0x2000 <= n <= 0x200a
    || n == 0x2028 || n == 0x2029 || n == 0x202f || n == 0x205f || n == 0x3000
  }

  predicate Blank(s: string) {
    forall c | c in s :: IsSpace(c)
  }

  /** An expression with its language and type set; None if one cannot be set. */
  function ParseExpr(reg: Registry, e: Expr): Option<Expr> {
    if !Blank(e.expr) && !reg.parses(e.expr) then None
    else if SetTypeName(e.declared) !in reg.types then None
    else if exists t | t in e.tests :: !reg.parses(t) then None
    else Some(e.(typ := Some(SetTypeName(e.declared)), compiled := e.compiled || !Blank(e.expr)))
  }

  function ParseExprs(reg: Registry, ee: seq<Expr>): Option<seq<Expr>> {
    if ee == [] then Some([])
    else
      var e := ParseExpr(reg, ee[0]);
      if e.None? then None
      else
        var rest := ParseExprs(reg, ee[1..]);
        if rest.None? then None else Some([e.value] + rest.value)
  }

  /** Outcome of one attempt to convert a step: `Waiting` is "come back later". */
  datatype Attempted = Resolved(node: Node) | Waiting | Failed(problem: Problem)

  datatype Scan = AllThere | Missing | BadExpr

  /** Walks the branches of an inclusive or exclusive gateway up to the first obstacle. */
  function ScanBranches(reg: Registry, outs: seq<Path>, known: set<nat>): Scan {
    if outs == [] then AllThere
    else if outs[0].childID !in known then Missing
    else if outs[0].expr != "" && !reg.parses(outs[0].expr) then BadExpr
    else ScanBranches(reg, outs[1..], known)
  }

  function ParentIDs(ins: seq<Path>): (r: seq<nat>)
    ensures |r| == |ins| && forall i | 0 <= i < |ins| :: r[i] == ins[i].parentID
  {
    seq(|ins|, i requires 0 <= i < |ins| => ins[i].parentID)
  }

  function AttemptGateway(reg: Registry, s: Step, ins: seq<Path>, outs: seq<Path>, known: set<nat>): Attempted {
    if s.ref == "fork" then Resolved(Node(s.id, Fork))
    else if s.ref == "join" then
      if forall p | p in ins :: p.parentID in known then Resolved(Node(s.id, Join(ParentIDs(ins)))) else Waiting
    else if s.ref == "incl" || s.ref == "excl" then
      match ScanBranches(reg, outs, known)
      case Missing => Waiting
      case BadExpr => Failed(BadExpression)
      case AllThere =>
        if |outs| < 2 then Failed(BadConfiguration)
        else Resolved(Node(s.id, if s.ref == "excl" then Excl(outs) else Incl(outs)))
    else Failed(BadConfiguration)
  }

  function KindName(k: Kind): string {
    match k
    case FunctionKind => "function"
    case IteratorKind => "iterator"
    case _ => ""
  }

  function AttemptFunction(reg: Registry, s: Step, args: seq<Expr>, results: seq<Expr>, outs: seq<Path>,
          known: set<nat>): Attempted {
    if s.ref !in reg.functions then Failed(BadConfiguration)
    else
      var def := reg.functions[s.ref];
      if def.kind != KindName(s.kind) then Failed(BadConfiguration)
      else if def.kind == "iterator" && !def.hasIterator then Failed(BadConfiguration)
      else if def.kind != "iterator" && !def.hasHandler then Failed(BadConfiguration)
      else if !AcceptsArguments(def.params, args) then Failed(BadConfiguration)
      else if !AcceptsResults(def.results, results) then Failed(BadConfiguration)
      else if def.kind == "iterator" then
        if |outs| != 2 then Failed(BadConfiguration)
        else if outs[0].childID in known && outs[1].childID in known then
          Resolved(Node(s.id, Loop(def, args, results, outs[0].childID, outs[1].childID)))
        else Waiting
      else if def.kind != "function" then Failed(BadConfiguration)
      else Resolved(Node(s.id, Call(def, args, results)))
  }

  function AttemptErrHandler(s: Step, outs: seq<Path>, known: set<nat>): Attempted {
    if |outs| == 0 || |outs| > 2 then Failed(BadConfiguration)
    else if |outs| == 1 then Resolved(Node(s.id, Handler(None)))
    else if outs[1].childID in known then Resolved(Node(s.id, Handler(Some(outs[1].childID))))
    else Waiting
  }

  /** One attempt, given the IDs that are resolved already. */
  function Attempt(reg: Registry, s: Step, ins: seq<Path>, outs: seq<Path>, known: set<nat>): (r: Attempted)
    ensures r.Resolved? ==> r.node.id == s.id
  {
    var args := ParseExprs(reg, s.args);
    var results := ParseExprs(reg, s.results);
    if args.None? || results.None? then Failed(BadExpression)
    else
      match s.kind
      case VisualKind => Waiting
      case GatewayKind => AttemptGateway(reg, s, ins, outs, known)
      case FunctionKind => AttemptFunction(reg, s, args.value, results.value, outs, known)
      case IteratorKind => AttemptFunction(reg, s, args.value, results.value, outs, known)
      case ErrHandlerKind => AttemptErrHandler(s, outs, known)
      case Other(_) => Failed(UnknownKind)
      case _ => Resolved(Node(s.id, Plain(s.kind, args.value, results.value)))
  }

  // ----- Declarative meaning -----

  /** The steps a step has to wait for. */
  function WaitsFor(s: Step, ins: seq<Path>, outs: seq<Path>): set<nat> {
    match s.kind
    case GatewayKind =>
      if s.ref == "join" then set p | p in ins :: p.parentID
      else if s.ref == "incl" || s.ref == "excl" then set p | p in outs :: p.childID
      else {}
    case IteratorKind => if |outs| == 2 then {outs[0].childID, outs[1].childID} else {}
    case ErrHandlerKind => if |outs| == 2 then {outs[1].childID} else {}
    case _ => {}
  }

  /** The conversion of a step once all it waits for is there. */
  function Conversion(reg: Registry, s: Step, ins: seq<Path>, outs: seq<Path>): Attempted {
    Attempt(reg, s, ins, outs, WaitsFor(s, ins, outs))
  }

  lemma {:induction false} ScanBranchesMeaning(reg: Registry, outs: seq<Path>, known: set<nat>, all: set<nat>)
    requires forall p | p in outs :: p.childID in all
    ensures (forall p | p in outs :: p.childID in known) ==>
              ScanBranches(reg, outs, known) == ScanBranches(reg, outs, all)
    ensures (exists p | p in outs :: p.childID !in known) ==> !ScanBranches(reg, outs, known).AllThere?
    ensures ScanBranches(reg, outs, known).BadExpr? ==> ScanBranches(reg, outs, all).BadExpr?
  {
    if outs != [] {
      ScanBranchesMeaning(reg, outs[1..], known, all);
    }
  }

  /**
   An attempt succeeds exactly when everything awaited is resolved and the conversion as such
   succeeds; an attempt that fails, fails for good.
   */
  lemma AttemptMeaning(reg: Registry, s: Step, ins: seq<Path>, outs: seq<Path>, known: set<nat>)
    ensures var c := Conversion(reg, s, ins, outs);
            var a := Attempt(reg, s, ins, outs, known);
            && (WaitsFor(s, ins, outs) <= known ==> a == c)
            && (a.Resolved? ==> WaitsFor(s, ins, outs) <= known)
            && (a.Failed? ==> !c.Resolved?)
  {
    if s.kind.GatewayKind? && (s.ref == "incl" || s.ref == "excl") {
      ScanBranchesMeaning(reg, outs, known, WaitsFor(s, ins, outs));
    }
  }

  predicate UniqueIDs(steps: seq<Step>) {
    forall i, j | 0 <= i < j < |steps| :: steps[i].id != steps[j].id
  }

  /** The steps that take part in resolution: all but the visual ones. */
  function Executable(steps: seq<Step>): seq<Step> {
    if steps == [] then []
    else (if steps[0].kind.VisualKind? then [] else [steps[0]]) + Executable(steps[1..])
  }

  lemma {:induction false} ExecutableMembers(steps: seq<Step>)
    ensures forall s :: s in Executable(steps) <==> s in steps && !s.kind.VisualKind?
  {
    if steps != [] {
      ExecutableMembers(steps[1..]);
      assert forall s :: s in steps <==> s == steps[0] || s in steps[1..];
    }
  }

  function IDs(steps: seq<Step>): set<nat> {
    set s | s in steps :: s.id
  }

  function Awaits(def: Definition, s: Step): set<nat> {
    WaitsFor(s, InPaths(def.paths, s.id), OutPaths(def.paths, s.id))
  }

  function Converted(reg: Registry, def: Definition, s: Step): Attempted {
    Conversion(reg, s, InPaths(def.paths, s.id), OutPaths(def.paths, s.id))
  }

  function Verified(reg: Registry, def: Definition, s: Step): seq<Problem> {
    VerifyStep(reg, s, InPaths(def.paths, s.id), OutPaths(def.paths, s.id))
  }

  predicate StepFine(reg: Registry, def: Definition, s: Step) {
    Verified(reg, def, s) == [] && Converted(reg, def, s).Resolved?
  }

  predicate PathsFine(def: Definition, ids: set<nat>) {
    forall p | p in def.paths :: p.parentID in ids && p.childID in ids
  }

  /** Every step ranks above the steps it waits for. */
  ghost predicate Ranks(def: Definition, ss: seq<Step>, rank: map<nat, nat>) {
    forall s | s in ss ::
      forall w | w in Awaits(def, s) :: s.id in rank && w in rank && rank[w] < rank[s.id]
  }

  /** A definition without errors, said without reference to any order of resolution. */
  ghost predicate Acceptable(reg: Registry, def: Definition) {
    var ss := Executable(def.steps);
    && UniqueIDs(def.steps)
    && (forall s | s in ss :: StepFine(reg, def, s))
    && PathsFine(def, IDs(ss))
    && exists rank: map<nat, nat> :: Ranks(def, ss, rank)
  }

  // Awaited steps are ends of paths of the step.
  lemma AwaitedAreEnds(def: Definition, s: Step, w: nat)
    requires w in Awaits(def, s)
    ensures exists p :: p in def.paths
                        && (p.parentID == s.id || p.childID == s.id) && (p.parentID == w || p.childID == w)
  {
    hide InPaths, OutPaths;
    var ins, outs := InPaths(def.paths, s.id), OutPaths(def.paths, s.id);
    PathsAround(def.paths, s.id);
    assert (exists p :: p in ins && p.parentID == w) || (exists p :: p in outs && p.childID == w);
  }

  // ----- Passes -----

  function AttemptIn(reg: Registry, def: Definition, s: Step, nodes: seq<Node>): Attempted {
    Attempt(reg, s, InPaths(def.paths, s.id), OutPaths(def.paths, s.id), Indexed(nodes))
  }

  predicate Done(s: Step, nodes: seq<Node>) {
    s.id in Indexed(nodes)
  }

  function PassStep(reg: Registry, def: Definition, s: Step, nodes: seq<Node>): seq<Node> {
    if Done(s, nodes) then nodes
    else
      match AttemptIn(reg, def, s, nodes)
      case Resolved(n) => nodes + [n]
      case _ => nodes
  }

  predicate CleanStep(reg: Registry, def: Definition, s: Step, nodes: seq<Node>) {
    Done(s, nodes) || (Verified(reg, def, s) == [] && !AttemptIn(reg, def, s, nodes).Failed?)
  }

  /** One pass over all steps: what is resolved after it, and whether no issue came up. */
  function Pass(reg: Registry, def: Definition, ss: seq<Step>, nodes: seq<Node>): (r: seq<Node>)
    ensures |r| >= |nodes|
    ensures |r| == |nodes| ==> r == nodes
  {
    if ss == [] then nodes else Pass(reg, def, ss[1..], PassStep(reg, def, ss[0], nodes))
  }

  predicate CleanPass(reg: Registry, def: Definition, ss: seq<Step>, nodes: seq<Node>) {
    ss != [] ==> CleanStep(reg, def, ss[0], nodes) && CleanPass(reg, def, ss[1..], PassStep(reg, def, ss[0], nodes))
  }

  /** Repeated passes until as many steps as there are have been added, or nothing moves. */
  function Resolve(reg: Registry, def: Definition, ss: seq<Step>, nodes: seq<Node>): (seq<Node>, bool)
    decreases |ss| - |nodes|
  {
    if |nodes| >= |ss| then (nodes, true)
    else
      var next := Pass(reg, def, ss, nodes);
      if |next| == |nodes| then (nodes, false)
      else
        var (r, clean) := Resolve(reg, def, ss, next);
        (r, CleanPass(reg, def, ss, nodes) && clean)
  }

  /** The graph of a definition, or None if the converter reports issues. */
  function GraphOf(reg: Registry, def: Definition): Option<GraphValue> {
    if !UniqueIDs(def.steps) then None
    else
      var (nodes, clean) := Resolve(reg, def, Executable(def.steps), []);
      if clean && PathsFine(def, Indexed(nodes)) then Some(GraphValue(nodes, def.paths)) else None
  }
}
