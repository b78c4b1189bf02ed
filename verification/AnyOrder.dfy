/**
 Which definitions become a graph in every order of their steps. A step with ID zero is never
 found again and so counted once on every pass: the passes may stop before the other steps are
 resolved (automation/service/workflow_converter.go:78-127, pkg/wfexec/graph.go:28-44).
 */
module AnyOrder {
  import opened WorkflowTypes
  import opened Definitions
  import opened Resolution
  import opened ResolutionProofs
  import opened GraphProperties
  import StepMeaning

  /** No path starts or ends at ID zero. */
  predicate Unlinked(def: Definition) {
    forall p | p in def.paths :: p.parentID != 0 && p.childID != 0
  }

  /** The step waits for a step that waits itself. */
  ghost predicate HeadsChain(def: Definition, s: Step) {
    exists t :: Links(def, s, t) && Awaits(def, t) != {}
  }

  predicate Links(def: Definition, s: Step, t: Step) {
    t in Executable(def.steps) && t.id in Awaits(def, s)
  }

  ghost predicate Shallow(def: Definition) {
    forall s | s in Executable(def.steps) :: !HeadsChain(def, s)
  }

  /** A step with ID zero, if there is one, cannot stop the passes too early. */
  ghost predicate ZeroHarmless(def: Definition) {
    NoZeroID(def) || (Unlinked(def) && Shallow(def))
  }

  // ----- Passes as sets of known IDs -----

  /** The IDs known after a pass. */
  function Known(def: Definition, todo: seq<Step>, known: set<nat>): set<nat>
    decreases |todo|
  {
    if todo == [] then known
    else
      var s := todo[0];
      Known(def, todo[1..], if s.id != 0 && Awaits(def, s) <= known then known + {s.id} else known)
  }

  function ZeroSteps(ss: seq<Step>): nat {
    if ss == [] then 0 else (if ss[0].id == 0 then 1 else 0) + ZeroSteps(ss[1..])
  }

  lemma {:induction false} OneZeroStep(ss: seq<Step>)
    requires UniqueIDs(ss)
    ensures ZeroSteps(ss) == if 0 in IDs(ss) then 1 else 0
  {
    if ss != [] {
      assert UniqueIDs(ss[1..]);
      OneZeroStep(ss[1..]);
      IDsCons(ss);
      UniqueIsCount(ss);
      UniqueIsCount(ss[1..]);
    }
  }

  /** Fine steps, of which those without ID wait for nothing. */
  predicate Steady(reg: Registry, def: Definition, todo: seq<Step>) {
    forall s | s in todo :: StepFine(reg, def, s) && (s.id == 0 ==> Awaits(def, s) == {})
  }

  lemma {:induction false} PassKnows(reg: Registry, def: Definition, todo: seq<Step>, nodes: seq<Node>)
    requires Steady(reg, def, todo)
    ensures var r := Pass(reg, def, todo, nodes);
            && Indexed(r) == Known(def, todo, Indexed(nodes))
            && Zeros(r) == Zeros(nodes) + ZeroSteps(todo)
    decreases |todo|
  {
    hide Attempt, VerifyStep, WaitsFor, InPaths, OutPaths, Executable;
    if todo != [] {
      var s := todo[0];
      assert StepFine(reg, def, s);
      AttemptMeaning(reg, s, InPaths(def.paths, s.id), OutPaths(def.paths, s.id), Indexed(nodes));
      var a := AttemptIn(reg, def, s, nodes);
      if a.Resolved? {
        IndexedSnoc(nodes, a.node);
        ZerosSnoc(nodes, a.node);
      }
      var known := Indexed(nodes);
      assert Done(s, nodes) ==> known + {s.id} == known;
      assert Indexed(PassStep(reg, def, s, nodes))
             == if s.id != 0 && Awaits(def, s) <= known then known + {s.id} else known;
      PassKnows(reg, def, todo[1..], PassStep(reg, def, s, nodes));
    }
  }

  lemma {:induction false} KnownBounds(def: Definition, todo: seq<Step>, known: set<nat>)
    ensures known <= Known(def, todo, known) <= known + (IDs(todo) - {0})
    ensures forall s | s in todo && s.id != 0 && Awaits(def, s) <= known :: s.id in Known(def, todo, known)
    decreases |todo|
  {
    hide Awaits;
    if todo != [] {
      var s := todo[0];
      IDsCons(todo);
      KnownBounds(def, todo[1..], if s.id != 0 && Awaits(def, s) <= known then known + {s.id} else known);
    }
  }

  // Steps that come after all they wait for become known.
  lemma {:induction false} ListedBecomeKnown(def: Definition, todo: seq<Step>, known: set<nat>, good: set<nat>)
    requires forall i | 0 <= i < |todo| && todo[i].id in good ::
               todo[i].id != 0 && Awaits(def, todo[i]) <= known + (IDs(todo[..i]) * good)
    ensures IDs(todo) * good <= Known(def, todo, known)
    decreases |todo|
  {
    hide Awaits;
    if todo != [] {
      var s, rest := todo[0], todo[1..];
      var next := if s.id != 0 && Awaits(def, s) <= known then known + {s.id} else known;
      IDsCons(todo);
      assert IDs(todo[..0]) == {};
      assert s.id in good ==> s.id in next;
      forall i | 0 <= i < |rest| && rest[i].id in good
        ensures rest[i].id != 0 && Awaits(def, rest[i]) <= next + (IDs(rest[..i]) * good)
      {
        assert rest[i] == todo[i + 1] && todo[..i + 1] == [s] + rest[..i];
        IDsCons(todo[..i + 1]);
      }
      ListedBecomeKnown(def, rest, next, good);
      KnownBounds(def, rest, next);
    }
  }

  /** One pass of an acceptable definition with a step without ID. */
  lemma PassWithZero(reg: Registry, def: Definition, nodes: seq<Node>)
    requires Acceptable(reg, def) && !NoZeroID(def) && Unlinked(def)
    requires Sequenced(reg, def, Executable(def.steps), nodes)
    ensures var ss := Executable(def.steps);
            var r := Pass(reg, def, ss, nodes);
            && Sequenced(reg, def, ss, r) && CleanPass(reg, def, ss, nodes)
            && Indexed(r) == Known(def, ss, Indexed(nodes))
            && Zeros(r) == Zeros(nodes) + 1 && |r| == |Indexed(r)| + Zeros(r)
  {
    hide Attempt, VerifyStep, WaitsFor, InPaths, OutPaths, Executable, Pass;
    ExecutableMembers(def.steps);
    var ss := Executable(def.steps);
    forall s | s in ss && s.id == 0
      ensures Awaits(def, s) == {}
    {
      ZeroWaitsForNothing(def, s);
    }
    AcceptablePassIsClean(reg, def, ss, nodes);
    PassKeeps(reg, def, ss, ss, nodes);
    PassKnows(reg, def, ss, nodes);
    SizeIsIndexedPlusZeros(reg, def, ss, Pass(reg, def, ss, nodes));
    ExecutableUnique(def.steps);
    OneZeroStep(ss);
  }

  lemma ZeroWaitsForNothing(def: Definition, s: Step)
    requires Unlinked(def)
    ensures 0 !in Awaits(def, s)
    ensures s.id == 0 ==> Awaits(def, s) == {}
  {
    hide WaitsFor, InPaths, OutPaths;
    forall w | w in Awaits(def, s)
      ensures w != 0 && s.id != 0
    {
      AwaitedAreEnds(def, s, w);
    }
  }

  // Awaited IDs are IDs of steps.
  lemma AwaitedStep(reg: Registry, def: Definition, s: Step, w: nat) returns (t: Step)
    requires Acceptable(reg, def) && w in Awaits(def, s)
    ensures Links(def, s, t) && t.id == w
  {
    hide WaitsFor, InPaths, OutPaths, StepFine, Executable;
    AwaitedAreEnds(def, s, w);
    t :| t in Executable(def.steps) && t.id == w;
  }

  // ----- Two passes are enough for shallow definitions -----

  lemma SecondPassKnowsAll(reg: Registry, def: Definition, known: set<nat>)
    requires Acceptable(reg, def) && Unlinked(def) && Shallow(def)
    requires known == Known(def, Executable(def.steps), {})
    ensures Known(def, Executable(def.steps), known) == IDs(Executable(def.steps)) - {0}
  {
    hide WaitsFor, InPaths, OutPaths, StepFine, Executable;
    var ss := Executable(def.steps);
    KnownBounds(def, ss, {});
    KnownBounds(def, ss, known);
    forall s | s in ss && s.id != 0
      ensures Awaits(def, s) <= known
    {
      forall w | w in Awaits(def, s)
        ensures w in known
      {
        var t := AwaitedStep(reg, def, s, w);
        ZeroWaitsForNothing(def, s);
        assert !HeadsChain(def, s);
      }
    }
  }

  lemma ShallowResolves(reg: Registry, def: Definition)
    requires Acceptable(reg, def) && !NoZeroID(def) && Unlinked(def) && Shallow(def)
    ensures var ss := Executable(def.steps);
            var (nodes, clean) := Resolve(reg, def, ss, []);
            && clean && Sequenced(reg, def, ss, nodes)
            && Indexed(nodes) == IDs(ss) - {0} && Zeros(nodes) > 0
  {
    hide Acceptable, Attempt, WaitsFor, InPaths, OutPaths, Executable, Known, Pass, CleanPass, Sequenced, Unlinked,
         Shallow;
    var ss := Executable(def.steps);
    EmptySequence(reg, def);
    PassWithZero(reg, def, []);
    var n1 := Pass(reg, def, ss, []);
    PassWithZero(reg, def, n1);
    var n2 := Pass(reg, def, ss, n1);
    SecondPassKnowsAll(reg, def, Indexed(n1));
    KnownBounds(def, ss, {});
    KnownBounds(def, ss, Indexed(n1));
    StepCount(reg, def);
    if |n1| >= |ss| {
      SubsetOfSameSize(Indexed(n1), IDs(ss) - {0});
    } else {
      SubsetSize(Indexed(n1), Indexed(n2));
      assert |n2| > |n1| && |n2| >= |ss|;
      assert Resolve(reg, def, ss, n2) == (n2, true);
      assert Resolve(reg, def, ss, n1) == (n2, CleanPass(reg, def, ss, n1));
    }
  }

  lemma EmptySequence(reg: Registry, def: Definition)
    ensures Sequenced(reg, def, Executable(def.steps), [])
    ensures Indexed([]) == {} && Zeros([]) == 0
  {
  }

  lemma StepCount(reg: Registry, def: Definition)
    requires Acceptable(reg, def) && !NoZeroID(def)
    ensures var ss := Executable(def.steps); 0 in IDs(ss) && |IDs(ss) - {0}| == |ss| - 1 && |ss| > 0
  {
    hide StepFine, Awaits;
    var ss := Executable(def.steps);
    ExecutableUnique(def.steps);
    UniqueIsCount(ss);
    var z :| z in ss && z.id == 0;
    assert IDs(ss) == (IDs(ss) - {0}) + {0};
  }

  /**
   The passes reach exactly the least fixpoint: unless a step with ID zero can stop them early, a
   definition becomes a graph if and only if it is acceptable.
   */
  lemma GraphIffAcceptable(reg: Registry, def: Definition)
    requires ZeroHarmless(def)
    ensures GraphOf(reg, def).Some? <==> Acceptable(reg, def)
  {
    hide Attempt, VerifyStep, WaitsFor, InPaths, OutPaths, Executable, StepFine, Sequenced, Shallow;
    if GraphOf(reg, def).Some? {
      GraphMeansAcceptable(reg, def);
    }
    if Acceptable(reg, def) {
      if NoZeroID(def) {
        AllResolved(reg, def);
      } else {
        ShallowResolves(reg, def);
      }
    }
  }

  /** The same, told from steps and paths alone. */
  lemma GraphIffMeaningful(reg: Registry, def: Definition)
    requires ZeroHarmless(def)
    ensures GraphOf(reg, def).Some? <==> StepMeaning.Meaningful(reg, def)
  {
    hide GraphOf, Acceptable, StepMeaning.Meaningful, ZeroHarmless;
    GraphIffAcceptable(reg, def);
    StepMeaning.AcceptableIff(reg, def);
  }

  // ----- A chain is rejected in some order -----

  function RankOf(rank: map<nat, nat>, s: Step): nat {
    if s.id in rank then rank[s.id] else 0
  }

  predicate Ascending(rank: map<nat, nat>, ss: seq<Step>) {
    forall i, j | 0 <= i < j < |ss| :: RankOf(rank, ss[i]) <= RankOf(rank, ss[j])
  }

  lemma {:induction false} Lowest(rank: map<nat, nat>, m: multiset<Step>) returns (s: Step)
    requires m != multiset{}
    ensures s in m && forall t | t in m :: RankOf(rank, s) <= RankOf(rank, t)
    decreases |m|
  {
    hide RankOf;
    s :| s in m;
    var first, rest := s, m - multiset{s};
    SizeWithout(m, first);
    if rest != multiset{} {
      var t := Lowest(rank, rest);
      if RankOf(rank, t) < RankOf(rank, s) {
        s := t;
      }
    }
    forall u | u in m
      ensures RankOf(rank, s) <= RankOf(rank, u)
    {
      assert u == first || u in rest;
    }
  }

  lemma SizeWithout(m: multiset<Step>, s: Step)
    requires s in m
    ensures |m - multiset{s}| == |m| - 1
    ensures multiset{s} + (m - multiset{s}) == m
  {
    assert m == multiset{s} + (m - multiset{s});
  }

  /** Steps can be listed by rank. */
  lemma {:induction false} Listing(rank: map<nat, nat>, m: multiset<Step>) returns (ss: seq<Step>)
    ensures multiset(ss) == m && Ascending(rank, ss)
    decreases |m|
  {
    hide RankOf;
    if m == multiset{} {
      ss := [];
      return;
    }
    var s := Lowest(rank, m);
    SizeWithout(m, s);
    var rest := Listing(rank, m - multiset{s});
    ss := [s] + rest;
    assert multiset(ss) == multiset{s} + multiset(rest);
    hide Ascending;
    forall t | t in rest
      ensures RankOf(rank, s) <= RankOf(rank, t)
    {
      assert t in multiset(rest);
    }
    AscendingCons(rank, s, rest);
  }

  lemma AscendingCons(rank: map<nat, nat>, s: Step, rest: seq<Step>)
    requires Ascending(rank, rest) && forall t | t in rest :: RankOf(rank, s) <= RankOf(rank, t)
    ensures Ascending(rank, [s] + rest)
  {
    hide RankOf;
    var ss := [s] + rest;
    forall i, j | 0 <= i < j < |ss|
      ensures RankOf(rank, ss[i]) <= RankOf(rank, ss[j])
    {
      assert ss[j] == rest[j - 1] && rest[j - 1] in rest;
      if i > 0 {
        assert ss[i] == rest[i - 1];
      }
    }
  }

  lemma {:induction false} ExecutableAscends(rank: map<nat, nat>, ss: seq<Step>)
    requires Ascending(rank, ss)
    ensures Ascending(rank, Executable(ss))
  {
    if ss != [] {
      ExecutableMembers(ss[1..]);
      ExecutableAscends(rank, ss[1..]);
    }
  }

  lemma {:induction false} Highest(rank: map<nat, nat>, heads: set<Step>) returns (s: Step)
    requires heads != {}
    ensures s in heads && forall t | t in heads :: RankOf(rank, t) <= RankOf(rank, s)
    decreases |heads|
  {
    s :| s in heads;
    if heads != {s} {
      var t := Highest(rank, heads - {s});
      if RankOf(rank, t) > RankOf(rank, s) {
        s := t;
      }
    }
  }

  /**
   The steps that make the passes stop early: `a` waits for `b`, `b` waits too, nothing waits for
   `a`, and the other steps are listed by rank.
   */
  ghost predicate EarlyStop(reg: Registry, def: Definition, rank: map<nat, nat>, z: Step, a: Step, b: Step,
          others: seq<Step>) {
    && Acceptable(reg, def) && Unlinked(def) && Ranks(def, Executable(def.steps), rank)
    && Executable(def.steps) == [z, a, b] + others && z.id == 0
    && b.id in Awaits(def, a) && Awaits(def, b) != {}
    && (forall s | s in Executable(def.steps) :: a.id !in Awaits(def, s))
    && Ascending(rank, others)
  }

  // The IDs awaited by one of the other steps come earlier in the list, or are that of b.
  lemma AwaitedComesBefore(reg: Registry, def: Definition, rank: map<nat, nat>, z: Step, a: Step, b: Step,
          others: seq<Step>, i: nat)
    requires EarlyStop(reg, def, rank, z, a, b, others) && i < |others|
    ensures others[i].id != 0 && others[i].id != a.id && others[i].id != b.id
    ensures Awaits(def, others[i]) <= {b.id} + IDs(others[..i])
  {
    hide WaitsFor, InPaths, OutPaths, StepFine, Executable, Awaits;
    var ss := Executable(def.steps);
    ExecutableUnique(def.steps);
    var s := others[i];
    assert ss[0] == z && ss[1] == a && ss[2] == b && ss[i + 3] == s;
    ZeroWaitsForNothing(def, s);
    forall w | w in Awaits(def, s)
      ensures w == b.id || w in IDs(others[..i])
    {
      var t := AwaitedStep(reg, def, s, w);
      var j :| 0 <= j < |ss| && ss[j] == t;
      assert s in ss && rank[w] < rank[s.id];
      if j > 2 {
        assert others[j - 3] == t && j - 3 < i;
        assert t in others[..i];
      }
    }
  }

  // What is known after a pass over a list that starts with z, a and b, where a does not become known.
  lemma KnownAfterThree(def: Definition, z: Step, a: Step, b: Step, others: seq<Step>, known: set<nat>)
    requires z.id == 0 && b.id != 0 && !(Awaits(def, a) <= known)
    ensures Known(def, [z, a, b] + others, known)
            == Known(def, others, if Awaits(def, b) <= known then known + {b.id} else known)
  {
    hide Awaits, Known;
    KnownSkips(def, z, [a] + ([b] + others), known);
    KnownSkips(def, a, [b] + others, known);
    KnownSkips(def, b, others, known);
    assert [z, a, b] + others == [z] + ([a] + ([b] + others));
  }

  lemma ThreeIDs(reg: Registry, def: Definition, rank: map<nat, nat>, z: Step, a: Step, b: Step, others: seq<Step>)
    requires EarlyStop(reg, def, rank, z, a, b, others)
    ensures a.id != 0 && b.id != 0 && a.id != b.id
    ensures a.id !in IDs(others) && b.id !in IDs(others)
    ensures 0 !in Awaits(def, a) && 0 !in Awaits(def, b)
  {
    hide Awaits, Executable, StepFine, PathsFine, Ranks, Ascending;
    ExecutableUnique(def.steps);
    UniqueThree(Executable(def.steps), z, a, b, others);
    ZeroWaitsForNothing(def, a);
    ZeroWaitsForNothing(def, b);
  }

  lemma UniqueThree(ss: seq<Step>, z: Step, a: Step, b: Step, others: seq<Step>)
    requires UniqueIDs(ss) && ss == [z, a, b] + others
    ensures z.id != a.id && z.id != b.id && a.id != b.id
    ensures a.id !in IDs(others) && b.id !in IDs(others)
  {
    assert ss[0] == z && ss[1] == a && ss[2] == b;
    forall s | s in others
      ensures s.id != a.id && s.id != b.id
    {
      var i :| 0 <= i < |others| && others[i] == s;
      assert ss[i + 3] == s;
    }
  }

  // Everything b waits for is known after the first pass, without b or a.
  lemma FirstPassKnows(reg: Registry, def: Definition, rank: map<nat, nat>, z: Step, a: Step, b: Step,
          others: seq<Step>)
    requires EarlyStop(reg, def, rank, z, a, b, others)
    ensures var known := Known(def, others, {});
            && Known(def, Executable(def.steps), {}) == known <= IDs(others)
            && Awaits(def, b) <= known && a.id !in known && b.id !in known
  {
    hide Executable, Awaits, Known, Acceptable, Unlinked, Ranks, Ascending;
    ThreeIDs(reg, def, rank, z, a, b, others);
    KnownAfterThree(def, z, a, b, others, {});
    KnownBounds(def, others, {});
    BelowBKnown(reg, def, rank, z, a, b, others);
  }

  lemma BelowBKnown(reg: Registry, def: Definition, rank: map<nat, nat>, z: Step, a: Step, b: Step, others: seq<Step>)
    requires EarlyStop(reg, def, rank, z, a, b, others)
    ensures Awaits(def, b) <= Known(def, others, {})
  {
    hide WaitsFor, InPaths, OutPaths, StepFine, Executable, Awaits, Known, EarlyStop;
    var good := set s | s in others && RankOf(rank, s) < RankOf(rank, b) :: s.id;
    forall i | 0 <= i < |others| && others[i].id in good
      ensures others[i].id != 0 && Awaits(def, others[i]) <= {} + (IDs(others[..i]) * good)
    {
      AwaitedComesBefore(reg, def, rank, z, a, b, others, i);
      GoodAwaitsGood(reg, def, rank, z, a, b, others, i, good);
    }
    ListedBecomeKnown(def, others, {}, good);
    forall w | w in Awaits(def, b)
      ensures w in IDs(others) * good
    {
      BIsExecutable(reg, def, rank, z, a, b, others);
      LowerThanB(reg, def, rank, z, a, b, others, b, w);
    }
  }

  lemma BIsExecutable(reg: Registry, def: Definition, rank: map<nat, nat>, z: Step, a: Step, b: Step, others: seq<Step>)
    requires EarlyStop(reg, def, rank, z, a, b, others)
    ensures b in Executable(def.steps)
  {
    hide Executable, Acceptable, Awaits;
  }

  lemma KnownSkips(def: Definition, s: Step, rest: seq<Step>, known: set<nat>)
    ensures var next := if s.id != 0 && Awaits(def, s) <= known then known + {s.id} else known;
            Known(def, [s] + rest, known) == Known(def, rest, next)
  {
    hide Awaits;
    assert ([s] + rest)[1..] == rest;
  }

  // What b, or a step below b, waits for is one of the other steps and below b.
  lemma LowerThanB(reg: Registry, def: Definition, rank: map<nat, nat>, z: Step, a: Step, b: Step,
          others: seq<Step>, s: Step, w: nat)
    requires EarlyStop(reg, def, rank, z, a, b, others)
    requires s in Executable(def.steps) && w in Awaits(def, s) && RankOf(rank, s) <= RankOf(rank, b)
    ensures exists t :: t in others && t.id == w && RankOf(rank, t) < RankOf(rank, b)
  {
    hide WaitsFor, InPaths, OutPaths, StepFine, Executable, Awaits;
    ZeroWaitsForNothing(def, s);
    var t := AwaitedStep(reg, def, s, w);
    assert w in rank && s.id in rank && rank[w] < rank[s.id];
    assert t != b && t != a && t != z;
  }

  lemma GoodAwaitsGood(reg: Registry, def: Definition, rank: map<nat, nat>, z: Step, a: Step, b: Step,
          others: seq<Step>, i: nat, good: set<nat>)
    requires EarlyStop(reg, def, rank, z, a, b, others) && i < |others| && others[i].id in good
    requires good == set s | s in others && RankOf(rank, s) < RankOf(rank, b) :: s.id
    ensures Awaits(def, others[i]) <= IDs(others[..i]) * good
  {
    hide WaitsFor, InPaths, OutPaths, StepFine, Executable, Awaits;
    var s := others[i];
    var s' :| s' in others && RankOf(rank, s') < RankOf(rank, b) && s'.id == s.id;
    assert RankOf(rank, s) == RankOf(rank, s');
    assert s in Executable(def.steps) && b in Executable(def.steps);
    AwaitedComesBefore(reg, def, rank, z, a, b, others, i);
    forall w | w in Awaits(def, s)
      ensures w in IDs(others[..i]) * good
    {
      LowerThanB(reg, def, rank, z, a, b, others, s, w);
      var t :| t in others && t.id == w && RankOf(rank, t) < RankOf(rank, b);
      var k :| 0 <= k < |others| && others[k] == t;
      AwaitedComesBefore(reg, def, rank, z, a, b, others, k);
    }
  }

  // The second pass meets a first and resolves everything else.
  lemma SecondPassMisses(reg: Registry, def: Definition, rank: map<nat, nat>, z: Step, a: Step, b: Step,
          others: seq<Step>, known: set<nat>)
    requires EarlyStop(reg, def, rank, z, a, b, others) && known == Known(def, others, {})
    ensures Known(def, Executable(def.steps), known) == {b.id} + IDs(others)
    ensures a.id !in {b.id} + IDs(others) && b.id !in IDs(others)
  {
    hide Executable, Awaits, Known, Acceptable, Ranks;
    ThreeIDs(reg, def, rank, z, a, b, others);
    FirstPassKnows(reg, def, rank, z, a, b, others);
    KnownAfterThree(def, z, a, b, others, known);
    AllOthersKnown(reg, def, rank, z, a, b, others, known + {b.id});
    KnownBounds(def, others, known + {b.id});
  }

  lemma AllOthersKnown(reg: Registry, def: Definition, rank: map<nat, nat>, z: Step, a: Step, b: Step,
          others: seq<Step>, known: set<nat>)
    requires EarlyStop(reg, def, rank, z, a, b, others) && b.id in known
    ensures IDs(others) <= Known(def, others, known)
    ensures 0 !in IDs(others)
  {
    hide EarlyStop, Awaits, Known;
    forall i | 0 <= i < |others|
      ensures others[i].id != 0 && Awaits(def, others[i]) <= known + (IDs(others[..i]) * IDs(others))
    {
      AwaitedComesBefore(reg, def, rank, z, a, b, others, i);
      assert IDs(others[..i]) <= IDs(others);
    }
    ListedBecomeKnown(def, others, known, IDs(others));
    assert IDs(others) * IDs(others) == IDs(others);
  }

  lemma StopsEarly(reg: Registry, def: Definition, rank: map<nat, nat>, z: Step, a: Step, b: Step, others: seq<Step>)
    requires EarlyStop(reg, def, rank, z, a, b, others)
    ensures GraphOf(reg, def).None?
  {
    hide Acceptable, Attempt, WaitsFor, InPaths, OutPaths, Executable, Known, Pass, CleanPass, Sequenced, Ascending,
         Awaits;
    var ss := Executable(def.steps);
    assert z in ss && a in ss;
    EmptySequence(reg, def);
    PassWithZero(reg, def, []);
    var n1 := Pass(reg, def, ss, []);
    PassWithZero(reg, def, n1);
    var n2 := Pass(reg, def, ss, n1);
    FirstPassKnows(reg, def, rank, z, a, b, others);
    SecondPassMisses(reg, def, rank, z, a, b, others, Indexed(n1));
    ManyOthers(reg, def, z, a, b, others);
    SubsetSize(Indexed(n1), IDs(others));
    assert |n1| < |ss| && |n2| == |ss|;
    assert Resolve(reg, def, ss, n2) == (n2, true);
    assert Resolve(reg, def, ss, n1).0 == n2;
    assert Resolve(reg, def, ss, []).0 == n2;
    AwaitedAreEnds(def, a, b.id);
    assert !PathsFine(def, Indexed(n2));
  }

  lemma ManyOthers(reg: Registry, def: Definition, z: Step, a: Step, b: Step, others: seq<Step>)
    requires Acceptable(reg, def) && Executable(def.steps) == [z, a, b] + others && b.id !in IDs(others)
    ensures |IDs(others)| == |Executable(def.steps)| - 3
    ensures |{b.id} + IDs(others)| == |Executable(def.steps)| - 2
  {
    hide StepFine, Awaits, Executable;
    var ss := Executable(def.steps);
    ExecutableUnique(def.steps);
    forall i, j | 0 <= i < j < |others|
      ensures others[i].id != others[j].id
    {
      assert ss[i + 3].id != ss[j + 3].id;
    }
    UniqueIsCount(others);
  }

  /** An acceptable definition with a step without ID and a chain is rejected in this order. */
  lemma ChainBlocks(reg: Registry, def: Definition) returns (d: Definition)
    requires Acceptable(reg, def) && !NoZeroID(def) && Unlinked(def) && !Shallow(def)
    ensures d.paths == def.paths && multiset(d.steps) == multiset(def.steps)
    ensures GraphOf(reg, d).None?
  {
    hide StepFine, Awaits, Executable, GraphOf, PathsFine, UniqueIDs;
    var ss := Executable(def.steps);
    var rank: map<nat, nat> :| Ranks(def, ss, rank);
    var z :| z in ss && z.id == 0;
    var heads := set s | s in ss && HeadsChain(def, s);
    assert heads != {} by {
      var s :| s in ss && HeadsChain(def, s);
      assert s in heads;
    }
    var a := Highest(rank, heads);
    var b :| Links(def, a, b) && Awaits(def, b) != {};
    NothingWaitsForHighest(def, rank, heads, a);
    d := Rearranged(reg, def, rank, z, a, b);
    var others :| Executable(d.steps) == [z, a, b] + others && Ascending(rank, others);
    AcceptablePermutation(reg, def, d);
    SameAwaits(def, d);
    assert Ranks(d, Executable(d.steps), rank);
    StopsEarly(reg, d, rank, z, a, b, others);
  }

  lemma NothingWaitsForHighest(def: Definition, rank: map<nat, nat>, heads: set<Step>, a: Step)
    requires Ranks(def, Executable(def.steps), rank)
    requires heads == set s | s in Executable(def.steps) && HeadsChain(def, s)
    requires a in heads && forall t | t in heads :: RankOf(rank, t) <= RankOf(rank, a)
    ensures forall s | s in Executable(def.steps) :: a.id !in Awaits(def, s)
  {
    hide Awaits, Executable;
    forall s | s in Executable(def.steps)
      ensures a.id !in Awaits(def, s)
    {
      if a.id in Awaits(def, s) {
        WaitingHead(def, rank, s, a);
      }
    }
  }

  lemma WaitingHead(def: Definition, rank: map<nat, nat>, s: Step, a: Step)
    requires Ranks(def, Executable(def.steps), rank)
    requires s in Executable(def.steps) && Links(def, s, a) && HeadsChain(def, a)
    ensures HeadsChain(def, s) && RankOf(rank, a) < RankOf(rank, s)
  {
    hide Awaits, Executable;
    assert rank[a.id] < rank[s.id];
    assert Awaits(def, a) != {};
  }

  lemma Rearranged(reg: Registry, def: Definition, rank: map<nat, nat>, z: Step, a: Step,
          b: Step) returns (d: Definition)
    requires Acceptable(reg, def) && Unlinked(def) && Ranks(def, Executable(def.steps), rank)
    requires z in Executable(def.steps) && a in Executable(def.steps)
    requires z.id == 0 && Links(def, a, b)
    ensures d.paths == def.paths && multiset(d.steps) == multiset(def.steps)
    ensures exists others :: Executable(d.steps) == [z, a, b] + others && Ascending(rank, others)
  {
    hide StepFine, Awaits, Executable;
    ZeroWaitsForNothing(def, a);
    ExecutableMembers(def.steps);
    var rest := ThreeFirst(rank, def.steps, z, a, b);
    d := Definition([z, a, b] + rest, def.paths);
    ExecutableAscends(rank, rest);
    ExecutableThree(z, a, b, rest);
  }

  lemma ThreeFirst(rank: map<nat, nat>, steps: seq<Step>, z: Step, a: Step, b: Step) returns (rest: seq<Step>)
    requires z in steps && a in steps && b in steps && z != a && z != b && a != b
    ensures multiset([z, a, b] + rest) == multiset(steps) && Ascending(rank, rest)
  {
    hide Ascending;
    var m := multiset(steps);
    assert multiset{z, a, b} <= m;
    rest := Listing(rank, m - multiset{z, a, b});
    assert multiset([z, a, b] + rest) == multiset{z, a, b} + multiset(rest);
  }

  lemma ExecutableThree(z: Step, a: Step, b: Step, rest: seq<Step>)
    requires !z.kind.VisualKind? && !a.kind.VisualKind? && !b.kind.VisualKind?
    ensures Executable([z, a, b] + rest) == [z, a, b] + Executable(rest)
  {
    hide Executable;
    ExecutableSkips(z, [a] + ([b] + rest));
    ExecutableSkips(a, [b] + rest);
    ExecutableSkips(b, rest);
    assert [z, a, b] + rest == [z] + ([a] + ([b] + rest));
    assert [z] + ([a] + ([b] + Executable(rest))) == [z, a, b] + Executable(rest);
  }

  lemma ExecutableSkips(s: Step, rest: seq<Step>)
    requires !s.kind.VisualKind?
    ensures Executable([s] + rest) == [s] + Executable(rest)
  {
    assert ([s] + rest)[1..] == rest;
  }

  lemma SameAwaits(a: Definition, b: Definition)
    requires a.paths == b.paths && multiset(a.steps) == multiset(b.steps)
    ensures forall s :: Awaits(a, s) == Awaits(b, s)
    ensures forall s :: s in Executable(a.steps) <==> s in Executable(b.steps)
  {
    hide WaitsFor, InPaths, OutPaths, Executable;
    ExecutableMembers(a.steps);
    ExecutableMembers(b.steps);
    ExecutablePermutation(a.steps, b.steps);
  }

  // ----- Order independence -----

  predicate Reordered(a: Definition, b: Definition) {
    a.paths == b.paths && multiset(a.steps) == multiset(b.steps)
  }

  lemma HarmlessReordered(a: Definition, b: Definition)
    requires Reordered(a, b) && ZeroHarmless(a)
    ensures ZeroHarmless(b) && NoZeroID(a) == NoZeroID(b)
  {
    hide Awaits, Executable;
    SameAwaits(a, b);
    forall s | s in Executable(b.steps) && !NoZeroID(a)
      ensures !HeadsChain(b, s)
    {
      assert !HeadsChain(a, s);
      forall t | Links(b, s, t)
        ensures Awaits(b, t) == {}
      {
        assert Links(a, s, t);
      }
    }
  }

  /**
   A definition becomes a graph in every order of its steps if and only if it is acceptable and
   either no step has ID zero, or no path touches ID zero and no step waits for one that waits.
   */
  lemma EveryOrderIff(reg: Registry, def: Definition)
    ensures (forall d | Reordered(def, d) :: GraphOf(reg, d).Some?) <==> Acceptable(reg, def) && ZeroHarmless(def)
  {
    hide Acceptable, Awaits, Executable, GraphOf, Shallow;
    if Acceptable(reg, def) && !NoZeroID(def) && Unlinked(def) && !Shallow(def) {
      var d := ChainBlocks(reg, def);
      assert Reordered(def, d) && GraphOf(reg, d).None?;
    }
    if GraphOf(reg, def).Some? {
      GraphMeansAcceptable(reg, def);
      GraphIsUnlinked(reg, def);
    }
    assert Reordered(def, def);
    if Acceptable(reg, def) && ZeroHarmless(def) {
      forall d | Reordered(def, d)
        ensures GraphOf(reg, d).Some?
      {
        AcceptablePermutation(reg, def, d);
        HarmlessReordered(def, d);
        GraphIffAcceptable(reg, d);
      }
    }
  }

  lemma GraphIsUnlinked(reg: Registry, def: Definition)
    requires GraphOf(reg, def).Some?
    ensures Unlinked(def)
  {
    hide Resolve;
  }

  /** The nodes are the conversions of the steps, whether or not a step without ID repeats. */
  lemma NodesAreConversions(reg: Registry, def: Definition)
    requires ZeroHarmless(def) && GraphOf(reg, def).Some?
    ensures (set n | n in GraphOf(reg, def).value.steps) == NodesOf(reg, def)
  {
    hide Acceptable, Awaits, Executable, Shallow, Attempt, Converted, Sequenced;
    if NoZeroID(def) {
      GraphIsFaithful(reg, def);
    } else {
      GraphMeansAcceptable(reg, def);
      ShallowResolves(reg, def);
      var ss, nodes := Executable(def.steps), GraphOf(reg, def).value.steps;
      NodesComeFromSteps(reg, def, ss, nodes);
      forall n
        ensures n in nodes <==> n in NodesOf(reg, def)
      {
        if n in NodesOf(reg, def) {
          var s :| s in ss && Converted(reg, def, s) == Resolved(n);
          NodeOfStep(reg, def, nodes, s);
        }
      }
    }
  }

  lemma NodeOfStep(reg: Registry, def: Definition, nodes: seq<Node>, s: Step)
    requires Acceptable(reg, def) && Sequenced(reg, def, Executable(def.steps), nodes) && s in Executable(def.steps)
    requires Indexed(nodes) == IDs(Executable(def.steps)) - {0} && Zeros(nodes) > 0
    ensures Converted(reg, def, s).node in nodes
  {
    hide Awaits, Executable, Attempt, Converted, Sequenced;
    if s.id == 0 {
      var n := ZeroNode(nodes);
      NodesComeFromSteps(reg, def, Executable(def.steps), nodes);
      var t :| t in Executable(def.steps) && t.id == n.id && Converted(reg, def, t) == Resolved(n);
      ExecutableMembers(def.steps);
      SameID(def.steps, s, t);
    } else {
      DoneIsFine(reg, def, nodes, s);
    }
  }

  lemma {:induction false} ZeroNode(nodes: seq<Node>) returns (n: Node)
    requires Zeros(nodes) > 0
    ensures n in nodes && n.id == 0
  {
    var k := |nodes| - 1;
    if nodes[k].id == 0 {
      return nodes[k];
    }
    n := ZeroNode(nodes[..k]);
  }

  /**
   Order independence: permuting the steps of a definition changes neither whether it becomes a
   graph nor the nodes and links of that graph. Steps with proper IDs are there once each.
   */
  lemma OrderIndependence(reg: Registry, a: Definition, b: Definition)
    requires ZeroHarmless(a) && Reordered(a, b)
    ensures GraphOf(reg, a).Some? <==> GraphOf(reg, b).Some?
    ensures GraphOf(reg, a).Some? ==>
              var g, h := GraphOf(reg, a).value, GraphOf(reg, b).value;
              && g.links == h.links
              && (set n | n in g.steps) == (set n | n in h.steps)
              && (NoZeroID(a) ==> |g.steps| == |h.steps| && DistinctNodes(g.steps) && DistinctNodes(h.steps))
  {
    hide Acceptable, Awaits, Executable, Shallow, Attempt, GraphOf, ZeroHarmless, NoZeroID, NodesOf;
    HarmlessReordered(a, b);
    GraphIffAcceptable(reg, a);
    GraphIffAcceptable(reg, b);
    if Acceptable(reg, a) {
      AcceptablePermutation(reg, a, b);
      NodesAreConversions(reg, a);
      NodesAreConversions(reg, b);
      SameNodes(reg, a, b);
      GraphLinks(reg, a);
      GraphLinks(reg, b);
      if NoZeroID(a) {
        GraphIsFaithful(reg, a);
        GraphIsFaithful(reg, b);
        AcceptableIsUnique(reg, a);
        AcceptableIsUnique(reg, b);
        SameSize(a, b);
      }
    }
    if Acceptable(reg, b) {
      AcceptablePermutation(reg, b, a);
    }
  }

  lemma AcceptableIsUnique(reg: Registry, def: Definition)
    requires Acceptable(reg, def)
    ensures UniqueIDs(def.steps)
  {
  }

  lemma GraphLinks(reg: Registry, def: Definition)
    requires GraphOf(reg, def).Some?
    ensures GraphOf(reg, def).value.links == def.paths
  {
    hide Resolve;
  }

  lemma SameNodes(reg: Registry, a: Definition, b: Definition)
    requires Reordered(a, b)
    ensures NodesOf(reg, a) == NodesOf(reg, b)
  {
    hide WaitsFor, InPaths, OutPaths, Executable, Attempt;
    SameAwaits(a, b);
    forall s
      ensures Converted(reg, a, s) == Converted(reg, b, s)
    {
    }
  }

  lemma SameSize(a: Definition, b: Definition)
    requires Reordered(a, b) && UniqueIDs(a.steps) && UniqueIDs(b.steps)
    ensures |Executable(a.steps)| == |Executable(b.steps)|
  {
    hide Executable;
    SameAwaits(a, b);
    ExecutableUnique(a.steps);
    ExecutableUnique(b.steps);
    UniqueIsCount(Executable(a.steps));
    UniqueIsCount(Executable(b.steps));
    assert IDs(Executable(a.steps)) == IDs(Executable(b.steps));
  }
}
