/**
 The repeated passes of the converter compute the declarative meaning of a definition: soundness,
 completeness and faithfulness.
 */
module ResolutionProofs {
  import opened WorkflowTypes
  import opened Definitions
  import opened Resolution
  import opened Params

  // ----- Steps and IDs -----

  lemma {:induction false} ExecutableUnique(steps: seq<Step>)
    requires UniqueIDs(steps)
    ensures UniqueIDs(Executable(steps))
  {
    if steps != [] {
      assert UniqueIDs(steps[1..]);
      ExecutableUnique(steps[1..]);
      ExecutableMembers(steps[1..]);
      var rest := Executable(steps[1..]);
      forall s | s in rest
        ensures s.id != steps[0].id
      {
        var j :| 0 <= j < |steps[1..]| && steps[1..][j] == s;
        assert steps[j + 1] == s;
      }
    }
  }

  lemma SameID(steps: seq<Step>, a: Step, b: Step)
    requires UniqueIDs(steps) && a in steps && b in steps && a.id == b.id
    ensures a == b
  {
    var i :| 0 <= i < |steps| && steps[i] == a;
    var j :| 0 <= j < |steps| && steps[j] == b;
    assert i == j;
  }

  lemma IDsCons(steps: seq<Step>)
    requires steps != []
    ensures IDs(steps) == {steps[0].id} + IDs(steps[1..])
  {
    assert forall s :: s in steps <==> s == steps[0] || s in steps[1..];
  }

  // Uniqueness is a matter of counting.
  lemma {:induction false} UniqueIsCount(steps: seq<Step>)
    ensures |IDs(steps)| <= |steps|
    ensures UniqueIDs(steps) <==> |IDs(steps)| == |steps|
  {
    if steps != [] {
      IDsCons(steps);
      UniqueIsCount(steps[1..]);
      if steps[0].id in IDs(steps[1..]) {
        var s :| s in steps[1..] && s.id == steps[0].id;
        var j :| 0 <= j < |steps[1..]| && steps[1..][j] == s;
        assert steps[0].id == steps[j + 1].id;
        assert {steps[0].id} + IDs(steps[1..]) == IDs(steps[1..]);
      } else {
        forall i, j | 0 <= i < j < |steps|
          ensures UniqueIDs(steps[1..]) ==> steps[i].id != steps[j].id
        {
          if i == 0 {
            assert steps[1..][j - 1] in steps[1..];
          } else {
            assert steps[i] == steps[1..][i - 1] && steps[j] == steps[1..][j - 1];
          }
        }
        if UniqueIDs(steps) {
          assert UniqueIDs(steps[1..]);
        }
      }
    }
  }

  lemma SubsetOfSameSize<T>(a: set<T>, b: set<T>)
    requires a <= b && |a| >= |b|
    ensures a == b
  {
    assert |b - a| == |b| - |a|;
  }

  lemma SubsetSize<T>(a: set<T>, b: set<T>)
    requires a <= b
    ensures |a| <= |b|
  {
    assert |b - a| == |b| - |a|;
  }

  lemma IndexedSnoc(nodes: seq<Node>, n: Node)
    ensures Indexed(nodes + [n]) == Indexed(nodes) + (if n.id != 0 then {n.id} else {})
  {
    assert forall m :: m in nodes + [n] <==> m in nodes || m == n;
  }

  // ----- Resolved steps are justified, one after another -----

  /** A node is what the conversion of its step yields after the nodes before it. */
  ghost predicate Justified(reg: Registry, def: Definition, ss: seq<Step>, before: seq<Node>, n: Node) {
    exists s | s in ss ::
      && s.id == n.id && !Done(s, before)
      && Verified(reg, def, s) == [] && AttemptIn(reg, def, s, before) == Resolved(n)
  }

  ghost predicate Sequenced(reg: Registry, def: Definition, ss: seq<Step>, nodes: seq<Node>)
    decreases |nodes|
  {
    nodes != [] ==>
      var k := |nodes| - 1;
      Sequenced(reg, def, ss, nodes[..k]) && Justified(reg, def, ss, nodes[..k], nodes[k])
  }

  lemma SequencedSnoc(reg: Registry, def: Definition, ss: seq<Step>, nodes: seq<Node>, n: Node)
    requires Sequenced(reg, def, ss, nodes) && Justified(reg, def, ss, nodes, n)
    ensures Sequenced(reg, def, ss, nodes + [n])
  {
    assert (nodes + [n])[..|nodes|] == nodes;
  }

  /** The step behind a justified node. */
  lemma StepOf(reg: Registry, def: Definition, ss: seq<Step>, before: seq<Node>, n: Node) returns (s: Step)
    requires Justified(reg, def, ss, before, n)
    ensures s in ss && s.id == n.id && !Done(s, before) && Verified(reg, def, s) == []
    ensures Converted(reg, def, s) == Resolved(n) && Awaits(def, s) <= Indexed(before)
  {
    hide Attempt, VerifyStep, WaitsFor, InPaths, OutPaths, Executable;
    s :| s in ss && s.id == n.id && !Done(s, before)
         && Verified(reg, def, s) == [] && AttemptIn(reg, def, s, before) == Resolved(n);
    AttemptMeaning(reg, s, InPaths(def.paths, s.id), OutPaths(def.paths, s.id), Indexed(before));
  }

  lemma ConversionNeverWaits(reg: Registry, def: Definition, s: Step)
    requires !s.kind.VisualKind?
    ensures !Converted(reg, def, s).Waiting?
  {
    var ins, outs := InPaths(def.paths, s.id), OutPaths(def.paths, s.id);
    if s.kind.GatewayKind? && (s.ref == "incl" || s.ref == "excl") {
      NothingMissing(reg, outs, WaitsFor(s, ins, outs));
    }
  }

  lemma {:induction false} NothingMissing(reg: Registry, outs: seq<Path>, known: set<nat>)
    requires forall p | p in outs :: p.childID in known
    ensures !ScanBranches(reg, outs, known).Missing?
  {
    if outs != [] {
      NothingMissing(reg, outs[1..], known);
    }
  }

  /** What a pass without issues leaves of a step: resolved, fine without an ID, or waiting. */
  predicate Reached(reg: Registry, def: Definition, s: Step, nodes: seq<Node>) {
    || Done(s, nodes)
    || (Verified(reg, def, s) == [] && ((s.id == 0 && Converted(reg, def, s).Resolved?) || Awaits(def, s) != {}))
  }

  lemma PassStepKeeps(reg: Registry, def: Definition, ss: seq<Step>, s: Step, nodes: seq<Node>)
    requires Sequenced(reg, def, ss, nodes) && CleanStep(reg, def, s, nodes)
    requires s in ss && !s.kind.VisualKind?
    ensures var r := PassStep(reg, def, s, nodes);
            && Sequenced(reg, def, ss, r) && Indexed(nodes) <= Indexed(r)
            && Reached(reg, def, s, r)
  {
    hide Attempt, VerifyStep, WaitsFor, InPaths, OutPaths, Executable;
    var ins, outs := InPaths(def.paths, s.id), OutPaths(def.paths, s.id);
    AttemptMeaning(reg, s, ins, outs, Indexed(nodes));
    ConversionNeverWaits(reg, def, s);
    var a := AttemptIn(reg, def, s, nodes);
    if !Done(s, nodes) && a.Resolved? {
      SequencedSnoc(reg, def, ss, nodes, a.node);
      IndexedSnoc(nodes, a.node);
    }
  }

  lemma {:induction false} PassKeeps(reg: Registry, def: Definition, ss: seq<Step>, todo: seq<Step>, nodes: seq<Node>)
    requires Sequenced(reg, def, ss, nodes) && CleanPass(reg, def, todo, nodes)
    requires forall s | s in todo :: s in ss && !s.kind.VisualKind?
    ensures var r := Pass(reg, def, todo, nodes);
            && Sequenced(reg, def, ss, r) && Indexed(nodes) <= Indexed(r)
            && forall s | s in todo :: Reached(reg, def, s, r)
    decreases |todo|
  {
    hide Attempt, VerifyStep, WaitsFor, InPaths, OutPaths, Executable;
    if todo != [] {
      PassStepKeeps(reg, def, ss, todo[0], nodes);
      PassKeeps(reg, def, ss, todo[1..], PassStep(reg, def, todo[0], nodes));
    }
  }

  lemma {:induction false} ResolveKeeps(reg: Registry, def: Definition, nodes: seq<Node>)
    requires var ss := Executable(def.steps);
             Sequenced(reg, def, ss, nodes) && Resolve(reg, def, ss, nodes).1
    ensures var ss := Executable(def.steps);
            var r := Resolve(reg, def, ss, nodes).0;
            && Sequenced(reg, def, ss, r) && Indexed(nodes) <= Indexed(r) && |r| >= |ss|
            && (|nodes| < |ss| ==> forall s | s in ss :: Reached(reg, def, s, r))
    decreases |Executable(def.steps)| - |nodes|
  {
    hide Attempt, VerifyStep, WaitsFor, InPaths, OutPaths, Executable;
    ExecutableMembers(def.steps);
    var ss := Executable(def.steps);
    if |nodes| < |ss| {
      var next := Pass(reg, def, ss, nodes);
      PassKeeps(reg, def, ss, ss, nodes);
      ResolveKeeps(reg, def, next);
    }
  }

  // ----- A resolved step is fine and ranks above what it waited for -----

  function Rank(nodes: seq<Node>): (r: map<nat, nat>)
    ensures Indexed(nodes) <= r.Keys
    ensures forall id | id in r :: r[id] < |nodes|
  {
    if nodes == [] then map[]
    else
      var k := |nodes| - 1;
      IndexedSnoc(nodes[..k], nodes[k]);
      assert nodes == nodes[..k] + [nodes[k]];
      Rank(nodes[..k])[nodes[k].id := k]
  }

  lemma {:induction false} DoneIsFine(reg: Registry, def: Definition, nodes: seq<Node>, s: Step)
    requires UniqueIDs(def.steps) && s in Executable(def.steps)
    requires Sequenced(reg, def, Executable(def.steps), nodes) && Done(s, nodes)
    ensures StepFine(reg, def, s) && Converted(reg, def, s).node in nodes
    ensures Awaits(def, s) <= Indexed(nodes)
    ensures forall w | w in Awaits(def, s) :: Rank(nodes)[w] < Rank(nodes)[s.id]
    decreases |nodes|
  {
    hide Attempt, VerifyStep, WaitsFor, InPaths, OutPaths, Executable;
    ExecutableMembers(def.steps);
    var ss := Executable(def.steps);
    var k := |nodes| - 1;
    var before, n := nodes[..k], nodes[k];
    assert nodes == before + [n];
    IndexedSnoc(before, n);
    var s' := StepOf(reg, def, ss, before, n);
    if s.id == n.id {
      SameID(def.steps, s, s');
      forall w | w in Awaits(def, s)
        ensures Rank(nodes)[w] < Rank(nodes)[s.id]
      {
        assert w in Indexed(before) && w in Rank(before);
      }
    } else {
      DoneIsFine(reg, def, before, s);
      assert Rank(nodes)[s.id] == Rank(before)[s.id];
      forall w | w in Awaits(def, s)
        ensures Rank(nodes)[w] < Rank(nodes)[s.id]
      {
        assert w in Indexed(before) && w != n.id;
      }
    }
  }

  lemma {:induction false} NodesComeFromSteps(reg: Registry, def: Definition, ss: seq<Step>, nodes: seq<Node>)
    requires Sequenced(reg, def, ss, nodes)
    ensures forall n | n in nodes :: exists s :: s in ss && s.id == n.id && Converted(reg, def, s) == Resolved(n)
    ensures Indexed(nodes) <= IDs(ss)
    decreases |nodes|
  {
    hide Attempt, VerifyStep, WaitsFor, InPaths, OutPaths, Executable;
    if nodes != [] {
      var k := |nodes| - 1;
      var before, n := nodes[..k], nodes[k];
      assert nodes == before + [n];
      NodesComeFromSteps(reg, def, ss, before);
      var s := StepOf(reg, def, ss, before, n);
      assert forall m :: m in nodes <==> m in before || m == n;
    }
  }

  /** Soundness: whatever the converter turns into a graph is an acceptable definition. */
  lemma GraphMeansAcceptable(reg: Registry, def: Definition)
    requires GraphOf(reg, def).Some?
    ensures Acceptable(reg, def)
    ensures forall s | s in Executable(def.steps) && s.id != 0 :: Done(s, GraphOf(reg, def).value.steps)
  {
    hide Attempt, VerifyStep, WaitsFor, InPaths, OutPaths, Executable;
    ExecutableMembers(def.steps);
    var ss := Executable(def.steps);
    var nodes := Resolve(reg, def, ss, []).0;
    assert Sequenced(reg, def, ss, []);
    ResolveKeeps(reg, def, []);
    NodesComeFromSteps(reg, def, ss, nodes);
    forall s | s in ss
      ensures StepFine(reg, def, s) && (s.id != 0 ==> Done(s, nodes))
    {
      assert |ss| > 0;
      if Awaits(def, s) != {} {
        var w :| w in Awaits(def, s);
        AwaitedAreEnds(def, s, w);
      }
      ConversionNeverWaits(reg, def, s);
      if Done(s, nodes) {
        DoneIsFine(reg, def, nodes, s);
      }
    }
    forall s | s in ss
      ensures forall w | w in Awaits(def, s) ::
                s.id in Rank(nodes) && w in Rank(nodes) && Rank(nodes)[w] < Rank(nodes)[s.id]
    {
      forall w | w in Awaits(def, s)
        ensures s.id in Rank(nodes) && w in Rank(nodes) && Rank(nodes)[w] < Rank(nodes)[s.id]
      {
        AwaitedAreEnds(def, s, w);
        DoneIsFine(reg, def, nodes, s);
      }
    }
    assert Ranks(def, ss, Rank(nodes));
  }

  // ----- Completeness -----

  /** Steps with a proper ID: zero is the ID the graph never finds again. */
  predicate NoZeroID(def: Definition) {
    forall s | s in Executable(def.steps) :: s.id != 0
  }

  lemma {:induction false} AcceptablePassIsClean(reg: Registry, def: Definition, todo: seq<Step>, nodes: seq<Node>)
    requires forall s | s in todo :: StepFine(reg, def, s)
    ensures CleanPass(reg, def, todo, nodes)
    decreases |todo|
  {
    hide Attempt, VerifyStep, WaitsFor, InPaths, OutPaths, Executable;
    if todo != [] {
      var s := todo[0];
      assert s in todo;
      AttemptMeaning(reg, s, InPaths(def.paths, s.id), OutPaths(def.paths, s.id), Indexed(nodes));
      AcceptablePassIsClean(reg, def, todo[1..], PassStep(reg, def, s, nodes));
    }
  }

  lemma {:induction false} NothingMoves(reg: Registry, def: Definition, todo: seq<Step>, nodes: seq<Node>)
    requires |Pass(reg, def, todo, nodes)| == |nodes|
    ensures forall s | s in todo :: Done(s, nodes) || !AttemptIn(reg, def, s, nodes).Resolved?
    decreases |todo|
  {
    hide Attempt, VerifyStep, WaitsFor, InPaths, OutPaths, Executable;
    if todo != [] {
      var next := PassStep(reg, def, todo[0], nodes);
      assert |next| <= |Pass(reg, def, todo[1..], next)|;
      NothingMoves(reg, def, todo[1..], nodes);
    }
  }

  // If nothing moves, everything is resolved: go down the ranks.
  lemma {:induction false} NothingMovesMeansDone(reg: Registry, def: Definition, nodes: seq<Node>, rank: map<nat,
          nat>, s: Step)
    requires var ss := Executable(def.steps);
             && (forall t | t in ss ::
                   StepFine(reg, def, t) && (Done(t, nodes) || !AttemptIn(reg, def, t, nodes).Resolved?))
             && PathsFine(def, IDs(ss)) && Ranks(def, ss, rank) && s in ss
    ensures Done(s, nodes)
    decreases if s.id in rank then rank[s.id] else 0
  {
    hide Attempt, VerifyStep, WaitsFor, InPaths, OutPaths, Executable;
    forall w | w in Awaits(def, s)
      ensures w in Indexed(nodes)
    {
      AwaitedAreEnds(def, s, w);
      assert w in IDs(Executable(def.steps));
      var t :| t in Executable(def.steps) && t.id == w;
      NothingMovesMeansDone(reg, def, nodes, rank, t);
    }
    AttemptMeaning(reg, s, InPaths(def.paths, s.id), OutPaths(def.paths, s.id), Indexed(nodes));
  }

  lemma {:induction false} IndexedCount(reg: Registry, def: Definition, nodes: seq<Node>)
    requires NoZeroID(def) && Sequenced(reg, def, Executable(def.steps), nodes)
    ensures |Indexed(nodes)| == |nodes|
    ensures DistinctNodes(nodes)
    decreases |nodes|
  {
    hide Attempt, VerifyStep, WaitsFor, InPaths, OutPaths, Executable, AttemptIn, Verified, Converted, Indexed,
         DistinctNodes;
    if nodes != [] {
      var k := |nodes| - 1;
      var before, n := nodes[..k], nodes[k];
      var s := StepOf(reg, def, Executable(def.steps), before, n);
      IndexedCount(reg, def, before);
      NewNodeIsDistinct(before, n);
      assert nodes == before + [n];
    } else {
      NoNodes();
    }
  }

  predicate DistinctNodes(nodes: seq<Node>) {
    forall i, j | 0 <= i < j < |nodes| :: nodes[i].id != nodes[j].id
  }

  lemma NoNodes()
    ensures Indexed([]) == {} && DistinctNodes([])
  {
  }

  lemma NewNodeIsDistinct(nodes: seq<Node>, n: Node)
    requires DistinctNodes(nodes) && n.id != 0 && n.id !in Indexed(nodes)
    ensures DistinctNodes(nodes + [n])
    ensures |Indexed(nodes + [n])| == |Indexed(nodes)| + 1
  {
    IndexedSnoc(nodes, n);
    forall i | 0 <= i < |nodes|
      ensures nodes[i].id != n.id
    {
      assert nodes[i] in nodes;
    }
  }

  lemma {:induction false} AcceptableResolves(reg: Registry, def: Definition, nodes: seq<Node>)
    requires Acceptable(reg, def) && NoZeroID(def)
    requires Sequenced(reg, def, Executable(def.steps), nodes)
    ensures Resolve(reg, def, Executable(def.steps), nodes).1
    decreases |Executable(def.steps)| - |nodes|
  {
    hide Attempt, VerifyStep, WaitsFor, InPaths, OutPaths, Executable;
    ExecutableMembers(def.steps);
    var ss := Executable(def.steps);
    if |nodes| < |ss| {
      AcceptablePassIsClean(reg, def, ss, nodes);
      var next := Pass(reg, def, ss, nodes);
      if |next| == |nodes| {
        NothingMoves(reg, def, ss, nodes);
        var rank: map<nat, nat> :| Ranks(def, ss, rank);
        forall s | s in ss
          ensures Done(s, nodes)
        {
          NothingMovesMeansDone(reg, def, nodes, rank, s);
        }
        ExecutableUnique(def.steps);
        UniqueIsCount(ss);
        SubsetSize(IDs(ss), Indexed(nodes));
        IndexedCount(reg, def, nodes);
        assert false;
      }
      PassKeeps(reg, def, ss, ss, nodes);
      AcceptableResolves(reg, def, next);
    }
  }

  lemma AllResolved(reg: Registry, def: Definition)
    requires Acceptable(reg, def) && NoZeroID(def)
    ensures var ss := Executable(def.steps);
            var (nodes, clean) := Resolve(reg, def, ss, []);
            && clean && Sequenced(reg, def, ss, nodes)
            && Indexed(nodes) == IDs(ss) && |nodes| == |ss|
  {
    hide Attempt, VerifyStep, WaitsFor, InPaths, OutPaths, Executable;
    ExecutableMembers(def.steps);
    var ss := Executable(def.steps);
    assert Sequenced(reg, def, ss, []);
    AcceptableResolves(reg, def, []);
    ResolveKeeps(reg, def, []);
    var nodes := Resolve(reg, def, ss, []).0;
    NodesComeFromSteps(reg, def, ss, nodes);
    IndexedCount(reg, def, nodes);
    ExecutableUnique(def.steps);
    UniqueIsCount(ss);
    SubsetOfSameSize(Indexed(nodes), IDs(ss));
  }

  // ----- Faithfulness -----

  /** The nodes of a definition, each converted on its own. */
  function NodesOf(reg: Registry, def: Definition): set<Node> {
    set s | s in Executable(def.steps) && Converted(reg, def, s).Resolved? :: Converted(reg, def, s).node
  }

  /** The graph has one node for each executable step, its own conversion, and the given paths. */
  lemma GraphIsFaithful(reg: Registry, def: Definition)
    requires NoZeroID(def) && GraphOf(reg, def).Some?
    ensures var g := GraphOf(reg, def).value;
            && g.links == def.paths
            && |g.steps| == |Executable(def.steps)| && DistinctNodes(g.steps)
            && (set n | n in g.steps) == NodesOf(reg, def)
            && Indexed(g.steps) == IDs(Executable(def.steps))
  {
    hide Attempt, VerifyStep, WaitsFor, InPaths, OutPaths, Executable;
    ExecutableMembers(def.steps);
    GraphMeansAcceptable(reg, def);
    AllResolved(reg, def);
    var ss := Executable(def.steps);
    var nodes := GraphOf(reg, def).value.steps;
    IndexedCount(reg, def, nodes);
    NodesComeFromSteps(reg, def, ss, nodes);
    forall n
      ensures n in nodes <==> n in NodesOf(reg, def)
    {
      if n in NodesOf(reg, def) {
        var s :| s in ss && Converted(reg, def, s) == Resolved(n);
        DoneIsFine(reg, def, nodes, s);
      }
    }
  }

  lemma {:induction false} ExecutablePermutation(a: seq<Step>, b: seq<Step>)
    requires multiset(a) == multiset(b)
    ensures forall s :: s in a <==> s in b
    ensures |a| == |b|
  {
    assert forall s :: s in a <==> s in multiset(a);
    assert |a| == |multiset(a)| && |b| == |multiset(b)|;
  }

  lemma AcceptablePermutation(reg: Registry, a: Definition, b: Definition)
    requires a.paths == b.paths && multiset(a.steps) == multiset(b.steps)
    requires Acceptable(reg, a)
    ensures Acceptable(reg, b)
  {
    hide Attempt, VerifyStep, WaitsFor, InPaths, OutPaths, Executable;
    ExecutableMembers(a.steps);
    ExecutableMembers(b.steps);
    ExecutablePermutation(a.steps, b.steps);
    UniqueIsCount(a.steps);
    UniqueIsCount(b.steps);
    assert IDs(a.steps) == IDs(b.steps);
    var sa, sb := Executable(a.steps), Executable(b.steps);
    assert IDs(sa) == IDs(sb);
    forall s | s in sb
      ensures StepFine(reg, b, s)
    {
      assert StepFine(reg, a, s);
    }
    var rank: map<nat, nat> :| Ranks(a, sa, rank);
    forall s | s in sb
      ensures forall w | w in Awaits(b, s) :: s.id in rank && w in rank && rank[w] < rank[s.id]
    {
      assert s in sa && Awaits(a, s) == Awaits(b, s);
    }
    assert Ranks(b, sb, rank);
  }
}
