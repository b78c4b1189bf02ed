/**
 What holds of every graph the converter returns: the arity of its steps, the consistency of
 routing with its links, well-typed handler input, and the role of the step ID zero.
 */
module GraphProperties {
  import opened WorkflowTypes
  import opened Definitions
  import opened Resolution
  import opened ResolutionProofs
  import opened Params

  // ----- Arity -----

  /** Children of a step other than the step itself. */
  function OtherChildren(links: seq<Path>, id: nat): seq<nat> {
    Without(ChildrenOf(links, id), id)
  }

  function Without(ids: seq<nat>, id: nat): seq<nat> {
    if ids == [] then [] else (if ids[0] == id then [] else [ids[0]]) + Without(ids[1..], id)
  }

  function ChildIDs(links: seq<Path>): (r: seq<nat>)
    ensures |r| == |links| && forall i | 0 <= i < |links| :: r[i] == links[i].childID
  {
    seq(|links|, i requires 0 <= i < |links| => links[i].childID)
  }

  lemma {:induction false} WithoutAppend(a: seq<nat>, b: seq<nat>, id: nat)
    ensures Without(a + b, id) == Without(a, id) + Without(b, id)
  {
    if a == [] {
      assert a + b == b;
    } else {
      assert (a + b)[1..] == a[1..] + b;
      WithoutAppend(a[1..], b, id);
    }
  }

  // The outbound paths of a step are its links to other steps.
  lemma {:induction false} OutPathsAreOtherChildren(paths: seq<Path>, id: nat)
    ensures OtherChildren(paths, id) == ChildIDs(OutPaths(paths, id))
  {
    if paths != [] {
      OutPathsAreOtherChildren(paths[1..], id);
      WithoutAppend(if paths[0].parentID == id then [paths[0].childID] else [], ChildrenOf(paths[1..], id), id);
    }
  }

  lemma {:induction false} InPathsAreParents(paths: seq<Path>, id: nat)
    ensures ParentsOf(paths, id) == ParentIDs(InPaths(paths, id))
  {
    if paths != [] {
      InPathsAreParents(paths[1..], id);
    }
  }

  predicate ProperArity(s: Step, n: nat) {
    match s.kind
    case IteratorKind => n == 2
    case TerminationKind => n == 0
    case ErrorKind => n == 0
    case BreakKind => n == 0
    case ContinueKind => n == 0
    case ErrHandlerKind => 1 <= n <= 2
    case GatewayKind => (s.ref == "incl" || s.ref == "excl" ==> n >= 2) && (s.ref == "fork" ==> n >= 1)
    case Other(_) => false
    case _ => n <= 1
  }

  lemma VerifiedArity(reg: Registry, s: Step, ins: seq<Path>, outs: seq<Path>)
    requires VerifyStep(reg, s, ins, outs) == [] && Conversion(reg, s, ins, outs).Resolved?
    ensures s.kind.VisualKind? || ProperArity(s, |outs|)
  {
  }

  /**
   Apart from links to themselves, iterators have exactly two children and steps that end or
   jump have none; steps that just continue have at most one.
   */
  lemma Arity(reg: Registry, def: Definition, s: Step)
    requires GraphOf(reg, def).Some? && s in Executable(def.steps)
    ensures ProperArity(s, |OtherChildren(GraphOf(reg, def).value.links, s.id)|)
  {
    hide Attempt, VerifyStep, WaitsFor, InPaths, OutPaths, Executable, ProperArity;
    ExecutableMembers(def.steps);
    GraphMeansAcceptable(reg, def);
    OutPathsAreOtherChildren(def.paths, s.id);
    assert StepFine(reg, def, s);
    VerifiedArity(reg, s, InPaths(def.paths, s.id), OutPaths(def.paths, s.id));
  }

  // ----- Routing -----

  /** The steps a step can send a session to by itself (pkg/wfexec/session.go:692-824). */
  function Routes(t: Task): set<nat> {
    match t
    case Incl(bb) => set p | p in bb :: p.childID
    case Excl(bb) => set p | p in bb :: p.childID
    case Loop(_, _, _, next, exit) => {next, exit}
    case Handler(Some(h)) => {h}
    case _ => {}
  }

  lemma {:induction false} ChildrenMeaning(links: seq<Path>, id: nat, c: nat)
    ensures c in ChildrenOf(links, id) <==> exists p :: p in links && p.parentID == id && p.childID == c
  {
    if links != [] {
      ChildrenMeaning(links[1..], id, c);
    }
  }

  lemma StepOfNode(reg: Registry, def: Definition, n: Node) returns (s: Step)
    requires GraphOf(reg, def).Some? && n in GraphOf(reg, def).value.steps
    ensures s in Executable(def.steps) && s.id == n.id && Converted(reg, def, s) == Resolved(n)
  {
    hide Attempt, VerifyStep, WaitsFor, InPaths, OutPaths, Executable;
    ExecutableMembers(def.steps);
    var ss := Executable(def.steps);
    assert Sequenced(reg, def, ss, []);
    ResolveKeeps(reg, def, []);
    NodesComeFromSteps(reg, def, ss, GraphOf(reg, def).value.steps);
    s :| s in ss && s.id == n.id && Converted(reg, def, s) == Resolved(n);
  }

  /**
   A session never leaves the links of its graph: whatever a gateway, an iterator or an error
   handler routes to is a resolved child of that step, and a join expects exactly its parents.
   The executor's check for inconsistent relationships therefore never fires on these steps.
   */
  lemma RoutesAreChildren(reg: Registry, def: Definition, n: Node)
    requires GraphOf(reg, def).Some? && n in GraphOf(reg, def).value.steps
    ensures var g := GraphOf(reg, def).value;
            && (forall c | c in Routes(n.task) :: c in ChildrenOf(g.links, n.id) && c in Indexed(g.steps))
            && (n.task.Join? ==> n.task.parents == ParentsOf(g.links, n.id))
  {
    hide Attempt, VerifyStep, WaitsFor, InPaths, OutPaths, Executable;
    PathsAround(def.paths, n.id);
    var s := StepOfNode(reg, def, n);
    if n.task.Join? {
      ConvertedTask(reg, def, s, n);
    }
    InPathsAreParents(def.paths, s.id);
    var outs := OutPaths(def.paths, s.id);
    forall c | c in Routes(n.task)
      ensures c in ChildrenOf(def.paths, n.id) && c in Indexed(GraphOf(reg, def).value.steps)
    {
      RoutesAreOutbound(reg, def, s, n, c);
      var p :| p in outs && p.childID == c;
      ChildrenMeaning(def.paths, s.id, c);
    }
  }

  // What each kind of attempt makes of the outbound paths.
  lemma GatewayTask(reg: Registry, s: Step, ins: seq<Path>, outs: seq<Path>, known: set<nat>)
    ensures var r := AttemptGateway(reg, s, ins, outs, known);
            r.Resolved? ==> r.node.task in [Fork, Join(ParentIDs(ins)), Incl(outs), Excl(outs)]
  {
    hide ScanBranches;
  }

  lemma FunctionTask(reg: Registry, s: Step, args: seq<Expr>, results: seq<Expr>, outs: seq<Path>, known: set<nat>)
    ensures var r := AttemptFunction(reg, s, args, results, outs, known);
            r.Resolved? ==>
              var t := r.node.task;
              && (t.Call? || t.Loop?) && t.args == args && AcceptsArguments(t.fn.params, args)
              && (t.Loop? ==> |outs| == 2 && t.next == outs[0].childID && t.exit == outs[1].childID)
  {
    hide AcceptsArguments, AcceptsResults;
  }

  lemma HandlerTask(s: Step, outs: seq<Path>, known: set<nat>)
    ensures var r := AttemptErrHandler(s, outs, known);
            r.Resolved? ==>
              && r.node.task.Handler?
              && (r.node.task.handler.Some? ==> |outs| == 2 && r.node.task.handler.value == outs[1].childID)
  {
  }

  /** How a converted step was converted. */
  lemma ConvertedTask(reg: Registry, def: Definition, s: Step, n: Node)
    requires Converted(reg, def, s) == Resolved(n)
    ensures var ins, outs := InPaths(def.paths, s.id), OutPaths(def.paths, s.id);
            match n.task
            case Incl(bb) => bb == outs
            case Excl(bb) => bb == outs
            case Join(pp) => pp == ParentIDs(ins)
            case Loop(fn, args, _, next, exit) =>
              && |outs| == 2 && next == outs[0].childID && exit == outs[1].childID
              && AcceptsArguments(fn.params, args) && ParseExprs(reg, s.args) == Some(args)
            case Call(fn, args, _) => AcceptsArguments(fn.params, args) && ParseExprs(reg, s.args) == Some(args)
            case Handler(h) => h.Some? ==> |outs| == 2 && h.value == outs[1].childID
            case _ => true
  {
    hide AttemptGateway, AttemptFunction, AttemptErrHandler, ParseExprs, InPaths, OutPaths, WaitsFor, AcceptsArguments;
    var ins, outs := InPaths(def.paths, s.id), OutPaths(def.paths, s.id);
    var known := WaitsFor(s, ins, outs);
    GatewayTask(reg, s, ins, outs, known);
    HandlerTask(s, outs, known);
    var args, results := ParseExprs(reg, s.args), ParseExprs(reg, s.results);
    if args.Some? && results.Some? {
      FunctionTask(reg, s, args.value, results.value, outs, known);
    }
  }

  lemma RoutesAreOutbound(reg: Registry, def: Definition, s: Step, n: Node, c: nat)
    requires Converted(reg, def, s) == Resolved(n) && c in Routes(n.task)
    ensures exists p :: p in OutPaths(def.paths, s.id) && p.childID == c
  {
    hide Converted, OutPaths, InPaths, ParseExprs;
    ConvertedTask(reg, def, s, n);
    var outs := OutPaths(def.paths, s.id);
    match n.task
    case Loop(_, _, _, _, _) =>
      assert outs[0] in outs && outs[1] in outs;
    case Handler(_) =>
      assert outs[1] in outs;
    case _ =>
  }

  // ----- Handler input -----

  lemma {:induction false} ParsedArguments(reg: Registry, ee: seq<Expr>)
    requires ParseExprs(reg, ee).Some?
    ensures var r := ParseExprs(reg, ee).value;
            && |r| == |ee| && TypesSet(r)
            && forall i | 0 <= i < |ee| :: r[i].target == ee[i].target && r[i].declared == ee[i].declared
  {
    if ee != [] {
      ParsedArguments(reg, ee[1..]);
    }
  }

  predicate TakesArguments(t: Task) {
    t.Call? || t.Loop?
  }

  lemma CallArgumentsAccepted(reg: Registry, def: Definition, s: Step, n: Node)
    requires Converted(reg, def, s) == Resolved(n) && TakesArguments(n.task)
    ensures AcceptsArguments(n.task.fn.params, n.task.args) && TypesSet(n.task.args)
    ensures ParseExprs(reg, s.args) == Some(n.task.args)
  {
    hide AcceptsArguments, ParseExprs, Converted;
    ConvertedTask(reg, def, s, n);
    ParsedArguments(reg, s.args);
  }

  /**
   From definition to handler: in a graph that the converter returned, a function or iterator
   whose step does not assign an argument twice is only ever called with input that its
   parameters allow, whatever the scope and the expressions evaluate to.
   */
  lemma HandlersGetWellTypedInput(reg: Registry, def: Definition, n: Node)
    requires GraphOf(reg, def).Some? && n in GraphOf(reg, def).value.steps
    requires TakesArguments(n.task) && ProperParams(n.task.fn.params)
    requires forall s | s in def.steps && s.id == n.id :: DistinctTargets(s.args)
    ensures Sound(n.task.fn.params, n.task.args)
  {
    hide Attempt, VerifyStep, WaitsFor, InPaths, OutPaths, Executable;
    ExecutableMembers(def.steps);
    var s := StepOfNode(reg, def, n);
    CallArgumentsAccepted(reg, def, s, n);
    ParsedArguments(reg, s.args);
    TypeSoundness(n.task.fn.params, n.task.args);
  }

  // ----- The step ID zero -----

  function Zeros(nodes: seq<Node>): nat {
    if nodes == [] then 0 else Zeros(nodes[..|nodes| - 1]) + (if nodes[|nodes| - 1].id == 0 then 1 else 0)
  }

  lemma ZerosSnoc(nodes: seq<Node>, n: Node)
    ensures Zeros(nodes + [n]) == Zeros(nodes) + (if n.id == 0 then 1 else 0)
  {
    assert (nodes + [n])[..|nodes|] == nodes;
  }

  lemma {:induction false} SizeIsIndexedPlusZeros(reg: Registry, def: Definition, ss: seq<Step>, nodes: seq<Node>)
    requires Sequenced(reg, def, ss, nodes)
    ensures |nodes| == |Indexed(nodes)| + Zeros(nodes)
    decreases |nodes|
  {
    hide Attempt, VerifyStep, WaitsFor, InPaths, OutPaths, Executable;
    if nodes != [] {
      var k := |nodes| - 1;
      assert nodes == nodes[..k] + [nodes[k]];
      IndexedSnoc(nodes[..k], nodes[k]);
      SizeIsIndexedPlusZeros(reg, def, ss, nodes[..k]);
      var s := StepOf(reg, def, ss, nodes[..k], nodes[k]);
    }
  }

  /** A step without ID that can always be converted. */
  predicate Recurring(reg: Registry, def: Definition, z: Step) {
    z.id == 0 && Converted(reg, def, z).Resolved? && Awaits(def, z) == {}
  }

  lemma PassStepZeros(reg: Registry, def: Definition, s: Step, nodes: seq<Node>)
    ensures Zeros(PassStep(reg, def, s, nodes)) >= Zeros(nodes) + (if Recurring(reg, def, s) then 1 else 0)
  {
    hide Attempt, VerifyStep, WaitsFor, InPaths, OutPaths, Executable;
    AttemptMeaning(reg, s, InPaths(def.paths, s.id), OutPaths(def.paths, s.id), Indexed(nodes));
    var a := AttemptIn(reg, def, s, nodes);
    if a.Resolved? {
      ZerosSnoc(nodes, a.node);
    }
  }

  lemma {:induction false} PassZeros(reg: Registry, def: Definition, todo: seq<Step>, nodes: seq<Node>)
    ensures var r := Pass(reg, def, todo, nodes);
            && Zeros(r) >= Zeros(nodes) && |r| <= |nodes| + |todo|
            && ((exists z | z in todo :: Recurring(reg, def, z)) ==> Zeros(r) > Zeros(nodes))
    decreases |todo|
  {
    hide Attempt, VerifyStep, WaitsFor, InPaths, OutPaths, Executable;
    if todo != [] {
      PassStepZeros(reg, def, todo[0], nodes);
      PassZeros(reg, def, todo[1..], PassStep(reg, def, todo[0], nodes));
    }
  }

  // Each pass adds a recurring step once more.
  lemma {:induction false} ResolveZeros(reg: Registry, def: Definition, nodes: seq<Node>, z: Step)
    requires var ss := Executable(def.steps);
             z in ss && Recurring(reg, def, z) && Resolve(reg, def, ss, nodes).1
    ensures var ss := Executable(def.steps);
            var r := Resolve(reg, def, ss, nodes).0;
            && Zeros(r) >= Zeros(nodes)
            && (|nodes| < |ss| ==> Zeros(r) >= Zeros(nodes) + 1)
            && (|nodes| < |ss| && |Pass(reg, def, ss, nodes)| < |ss| ==> Zeros(r) >= Zeros(nodes) + 2)
    decreases |Executable(def.steps)| - |nodes|
  {
    hide Attempt, VerifyStep, WaitsFor, InPaths, OutPaths, Executable;
    var ss := Executable(def.steps);
    if |nodes| < |ss| {
      PassZeros(reg, def, ss, nodes);
      ResolveZeros(reg, def, Pass(reg, def, ss, nodes), z);
    }
  }

  /** Every step comes after the steps it waits for. */
  predicate ListedInOrder(def: Definition) {
    var ss := Executable(def.steps);
    forall i | 0 <= i < |ss| :: Awaits(def, ss[i]) <= IDs(ss[..i])
  }

  lemma {:induction false} OnePassIffListedInOrder(reg: Registry, def: Definition, i: nat, nodes: seq<Node>)
    requires var ss := Executable(def.steps);
             && i <= |ss| && UniqueIDs(ss)
             && (forall s | s in ss :: Converted(reg, def, s).Resolved? && 0 !in Awaits(def, s))
             && Indexed(nodes) == IDs(ss[..i]) - {0}
    ensures var ss := Executable(def.steps);
            |Pass(reg, def, ss[i..], nodes)| == |nodes| + |ss| - i <==>
            forall j | i <= j < |ss| :: Awaits(def, ss[j]) <= IDs(ss[..j])
    decreases |Executable(def.steps)| - i
  {
    hide Attempt, VerifyStep, WaitsFor, InPaths, OutPaths, Executable;
    var ss := Executable(def.steps);
    if i < |ss| {
      var s := ss[i];
      assert ss[i..][0] == s && ss[i..][1..] == ss[i + 1..];
      assert ss[..i + 1] == ss[..i] + [s];
      assert IDs(ss[..i + 1]) == IDs(ss[..i]) + {s.id};
      AttemptMeaning(reg, s, InPaths(def.paths, s.id), OutPaths(def.paths, s.id), Indexed(nodes));
      assert !Done(s, nodes);
      var next := PassStep(reg, def, s, nodes);
      PassZeros(reg, def, ss[i + 1..], next);
      if Awaits(def, s) <= IDs(ss[..i]) {
        var n := AttemptIn(reg, def, s, nodes).node;
        assert next == nodes + [n];
        IndexedSnoc(nodes, n);
        OnePassIffListedInOrder(reg, def, i + 1, next);
      } else {
        assert next == nodes;
      }
    }
  }

  // Nothing is linked to a step without ID in a graph, so it waits for nothing.
  lemma ZeroIsUnlinked(reg: Registry, def: Definition, s: Step)
    requires GraphOf(reg, def).Some? && s in Executable(def.steps)
    ensures 0 !in Awaits(def, s) && Converted(reg, def, s).Resolved?
    ensures s.id == 0 ==> Recurring(reg, def, s)
  {
    hide Attempt, VerifyStep, WaitsFor, InPaths, OutPaths, Executable;
    GraphMeansAcceptable(reg, def);
    assert StepFine(reg, def, s);
    forall w | w in Awaits(def, s)
      ensures w != 0 && s.id != 0
    {
      AwaitedAreEnds(def, s, w);
    }
  }

  lemma ZeroStepSize(reg: Registry, def: Definition, z: Step)
    requires GraphOf(reg, def).Some? && z in Executable(def.steps) && z.id == 0
    ensures var ss := Executable(def.steps);
            var nodes := GraphOf(reg, def).value.steps;
            && (|Pass(reg, def, ss, [])| < |ss| ==> |nodes| > |ss|)
            && (|Pass(reg, def, ss, [])| >= |ss| ==> |nodes| == |ss|)
  {
    hide Attempt, VerifyStep, WaitsFor, InPaths, OutPaths, Executable;
    ExecutableMembers(def.steps);
    var ss := Executable(def.steps);
    var nodes := GraphOf(reg, def).value.steps;
    GraphMeansAcceptable(reg, def);
    ExecutableUnique(def.steps);
    UniqueIsCount(ss);
    assert Sequenced(reg, def, ss, []);
    ResolveKeeps(reg, def, []);
    SizeIsIndexedPlusZeros(reg, def, ss, nodes);
    ZeroIsUnlinked(reg, def, z);
    ResolveZeros(reg, def, [], z);
    PassZeros(reg, def, ss, []);
    SubsetSize(IDs(ss) - {0}, Indexed(nodes));
  }

  /**
   Step IDs are meant to be non-zero: a step with ID zero is not found again and is added once
   more on every pass. A graph has every step exactly once if and only if no step has ID zero or
   the steps are listed in an order that needs one pass only.
   */
  lemma StepsExactlyOnce(reg: Registry, def: Definition)
    requires GraphOf(reg, def).Some?
    ensures |GraphOf(reg, def).value.steps| == |Executable(def.steps)| <==> NoZeroID(def) || ListedInOrder(def)
  {
    hide Attempt, VerifyStep, WaitsFor, InPaths, OutPaths, Executable, GraphOf, Pass;
    var ss := Executable(def.steps);
    if NoZeroID(def) {
      GraphIsFaithful(reg, def);
    } else {
      var z :| z in ss && z.id == 0;
      ZeroStepSize(reg, def, z);
      forall s | s in ss
        ensures 0 !in Awaits(def, s) && Converted(reg, def, s).Resolved?
      {
        ZeroIsUnlinked(reg, def, s);
      }
      GraphMeansAcceptable(reg, def);
      ExecutableUnique(def.steps);
      assert ss[0..] == ss && ss[..0] == [];
      OnePassIffListedInOrder(reg, def, 0, []);
      PassZeros(reg, def, ss, []);
    }
  }

  /**
   With ID zero the order of steps matters: the same four steps are rejected in one order, since
   the repeated step stops the passes too early, and accepted in another.
   */
  lemma ZeroIDBreaksOrderIndependence(reg: Registry)
    ensures var z := Step(0, DebugKind, "", [], []);
            var a := Step(1, GatewayKind, "join", [], []);
            var b := Step(2, GatewayKind, "join", [], []);
            var c := Step(3, DebugKind, "", [], []);
            var paths := [Path("", 2, 1), Path("", 3, 2)];
            && GraphOf(reg, Definition([z, a, b, c], paths)).None?
            && GraphOf(reg, Definition([c, b, a, z], paths)).Some?
  {
    var z := Step(0, DebugKind, "", [], []);
    var a := Step(1, GatewayKind, "join", [], []);
    var b := Step(2, GatewayKind, "join", [], []);
    var c := Step(3, DebugKind, "", [], []);
    var p, q := Path("", 2, 1), Path("", 3, 2);
    var paths := [p, q];
    forall id: nat
      ensures InPaths(paths, id) == (if id == 1 then [p] else []) + (if id == 2 then [q] else [])
      ensures OutPaths(paths, id) == (if id == 2 then [p] else []) + (if id == 3 then [q] else [])
    {
      assert paths[1..] == [q] && [q][1..] == [];
      assert InPaths([q], id) == (if id == 2 then [q] else []);
      assert OutPaths([q], id) == (if id == 3 then [q] else []);
    }
    RejectedOrder(reg, z, a, b, c, paths);
    AcceptedOrder(reg, z, a, b, c, paths);
  }

  lemma DebugStep(reg: Registry, def: Definition, s: Step, nodes: seq<Node>)
    requires s == Step(s.id, DebugKind, "", [], []) && |OutPaths(def.paths, s.id)| <= 1
    ensures Verified(reg, def, s) == []
    ensures AttemptIn(reg, def, s, nodes) == Resolved(Node(s.id, Plain(DebugKind, [], [])))
  {
  }

  lemma JoinStep(reg: Registry, def: Definition, s: Step, p: Path, nodes: seq<Node>)
    requires s == Step(s.id, GatewayKind, "join", [], []) && InPaths(def.paths, s.id) == [p]
    ensures Verified(reg, def, s) == []
    ensures AttemptIn(reg, def, s, nodes)
            == if p.parentID in Indexed(nodes) then Resolved(Node(s.id, Join([p.parentID]))) else Waiting
  {
    assert ParentIDs([p]) == [p.parentID];
  }

  predicate FourSteps(z: Step, a: Step, b: Step, c: Step, paths: seq<Path>) {
    && z == Step(0, DebugKind, "", [], []) && a == Step(1, GatewayKind, "join", [], [])
    && b == Step(2, GatewayKind, "join", [], []) && c == Step(3, DebugKind, "", [], [])
    && paths == [Path("", 2, 1), Path("", 3, 2)]
    && |OutPaths(paths, 0)| <= 1 && |OutPaths(paths, 3)| <= 1
    && InPaths(paths, 1) == [paths[0]] && InPaths(paths, 2) == [paths[1]]
  }

  lemma PassOfFour(reg: Registry, def: Definition, ss: seq<Step>, nodes: seq<Node>)
    requires |ss| == 4
    ensures var m0 := PassStep(reg, def, ss[0], nodes);
            var m1 := PassStep(reg, def, ss[1], m0);
            var m2 := PassStep(reg, def, ss[2], m1);
            && Pass(reg, def, ss, nodes) == PassStep(reg, def, ss[3], m2)
            && (CleanPass(reg, def, ss, nodes) <==>
                && CleanStep(reg, def, ss[0], nodes) && CleanStep(reg, def, ss[1], m0)
                && CleanStep(reg, def, ss[2], m1) && CleanStep(reg, def, ss[3], m2))
  {
    hide PassStep, CleanStep;
    var m0 := PassStep(reg, def, ss[0], nodes);
    var m1 := PassStep(reg, def, ss[1], m0);
    var m2 := PassStep(reg, def, ss[2], m1);
    var m3 := PassStep(reg, def, ss[3], m2);
    var s1, s2, s3 := ss[1..], ss[2..], ss[3..];
    assert s1[1..] == s2 && s2[1..] == s3 && s3[1..] == [];
    assert Pass(reg, def, [], m3) == m3 && CleanPass(reg, def, [], m3);
    assert Pass(reg, def, s3, m2) == m3 && Pass(reg, def, s2, m1) == m3 && Pass(reg, def, s1, m0) == m3;
    assert CleanPass(reg, def, s3, m2) == CleanStep(reg, def, ss[3], m2);
    assert CleanPass(reg, def, s2, m1) == (CleanStep(reg, def, ss[2], m1) && CleanPass(reg, def, s3, m2));
    assert CleanPass(reg, def, s1, m0) == (CleanStep(reg, def, ss[1], m0) && CleanPass(reg, def, s2, m1));
  }

  lemma ExecutableFour(ss: seq<Step>)
    requires |ss| == 4 && forall s | s in ss :: !s.kind.VisualKind?
    ensures Executable(ss) == ss
  {
    var s1, s2, s3 := ss[1..], ss[2..], ss[3..];
    assert s1[1..] == s2 && s2[1..] == s3 && s3[1..] == [];
    assert Executable(s3) == s3 && Executable(s2) == s2 && Executable(s1) == s1;
  }

  lemma RejectedOrder(reg: Registry, z: Step, a: Step, b: Step, c: Step, paths: seq<Path>)
    requires FourSteps(z, a, b, c, paths)
    ensures GraphOf(reg, Definition([z, a, b, c], paths)).None?
  {
    hide Attempt, VerifyStep, Pass, CleanPass, Executable, InPaths, OutPaths, AttemptIn, PassStep, CleanStep;
    var ss := [z, a, b, c];
    var def := Definition(ss, paths);
    ExecutableFour(ss);
    var n0, n2, n3 := Node(0, Plain(DebugKind, [], [])), Node(2, Join([3])), Node(3, Plain(DebugKind, [], []));
    var m1, m3 := [n0, n3], [n0, n3, n0, n2];
    RejectedPasses(reg, def, z, a, b, c);
    assert Resolve(reg, def, ss, m3).0 == m3;
    assert Resolve(reg, def, ss, m1).0 == m3;
    assert Resolve(reg, def, ss, []).0 == m3;
    assert Indexed(m3) == {2, 3};
    assert paths[0] in def.paths && paths[0].childID == 1;
  }

  lemma RejectedPasses(reg: Registry, def: Definition, z: Step, a: Step, b: Step, c: Step)
    requires FourSteps(z, a, b, c, def.paths)
    ensures var n0 := Node(0, Plain(DebugKind, [], []));
            var n2 := Node(2, Join([3]));
            var n3 := Node(3, Plain(DebugKind, [], []));
            && Pass(reg, def, [z, a, b, c], []) == [n0, n3]
            && Pass(reg, def, [z, a, b, c], [n0, n3]) == [n0, n3, n0, n2]
  {
    hide Attempt, VerifyStep;
    var ss := [z, a, b, c];
    var n0, n2, n3 := Node(0, Plain(DebugKind, [], [])), Node(2, Join([3])), Node(3, Plain(DebugKind, [], []));
    var m0, m1, m2, m3 := [n0], [n0, n3], [n0, n3, n0], [n0, n3, n0, n2];
    assert Indexed([]) == {} && Indexed(m0) == {} && Indexed(m1) == {3} && Indexed(m2) == {3} && Indexed(m3) == {2, 3};
    PassOfFour(reg, def, ss, []);
    assert PassStep(reg, def, z, []) == m0 by { DebugStep(reg, def, z, []); }
    assert PassStep(reg, def, a, m0) == m0 by { JoinStep(reg, def, a, def.paths[0], m0); }
    assert PassStep(reg, def, b, m0) == m0 by { JoinStep(reg, def, b, def.paths[1], m0); }
    assert PassStep(reg, def, c, m0) == m1 by { DebugStep(reg, def, c, m0); }
    PassOfFour(reg, def, ss, m1);
    assert PassStep(reg, def, z, m1) == m2 by { DebugStep(reg, def, z, m1); }
    assert PassStep(reg, def, a, m2) == m2 by { JoinStep(reg, def, a, def.paths[0], m2); }
    assert PassStep(reg, def, b, m2) == m3 by { JoinStep(reg, def, b, def.paths[1], m2); }
    assert PassStep(reg, def, c, m3) == m3;
  }

  lemma AcceptedOrder(reg: Registry, z: Step, a: Step, b: Step, c: Step, paths: seq<Path>)
    requires FourSteps(z, a, b, c, paths)
    ensures GraphOf(reg, Definition([c, b, a, z], paths)).Some?
  {
    hide Attempt, VerifyStep, Pass, CleanPass, Executable, InPaths, OutPaths, AttemptIn, PassStep, CleanStep;
    var ss := [c, b, a, z];
    var def := Definition(ss, paths);
    ExecutableFour(ss);
    var n0, n3 := Node(0, Plain(DebugKind, [], [])), Node(3, Plain(DebugKind, [], []));
    var m4 := [n3, Node(2, Join([3])), Node(1, Join([2])), n0];
    AcceptedPass(reg, def, z, a, b, c);
    assert Resolve(reg, def, ss, m4) == (m4, true);
    assert Resolve(reg, def, ss, []) == (m4, true);
    assert Indexed(m4) == {1, 2, 3};
  }

  lemma AcceptedPass(reg: Registry, def: Definition, z: Step, a: Step, b: Step, c: Step)
    requires FourSteps(z, a, b, c, def.paths)
    ensures var n0 := Node(0, Plain(DebugKind, [], []));
            var n3 := Node(3, Plain(DebugKind, [], []));
            && Pass(reg, def, [c, b, a, z], []) == [n3, Node(2, Join([3])), Node(1, Join([2])), n0]
            && CleanPass(reg, def, [c, b, a, z], [])
  {
    hide Attempt, VerifyStep;
    var ss := [c, b, a, z];
    var n0, n3 := Node(0, Plain(DebugKind, [], [])), Node(3, Plain(DebugKind, [], []));
    var n1, n2 := Node(1, Join([2])), Node(2, Join([3]));
    var m1, m2, m3, m4 := [n3], [n3, n2], [n3, n2, n1], [n3, n2, n1, n0];
    assert Indexed([]) == {} && Indexed(m1) == {3} && Indexed(m2) == {2, 3} && Indexed(m3) == {1, 2, 3};
    PassOfFour(reg, def, ss, []);
    assert PassStep(reg, def, c, []) == m1 && CleanStep(reg, def, c, []) by { DebugStep(reg, def, c, []); }
    assert PassStep(reg, def, b, m1) == m2 && CleanStep(reg, def, b, m1) by { JoinStep(reg, def, b, def.paths[1], m1); }
    assert PassStep(reg, def, a, m2) == m3 && CleanStep(reg, def, a, m2) by { JoinStep(reg, def, a, def.paths[0], m2); }
    assert PassStep(reg, def, z, m3) == m4 && CleanStep(reg, def, z, m3) by { DebugStep(reg, def, z, m3); }
  }
}
