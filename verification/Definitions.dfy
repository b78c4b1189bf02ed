/**
 Workflow definitions (automation/types/step.go, automation/types/workflow.go), the function
 registry (automation/service/registry.go) and execution graphs (pkg/wfexec/graph.go).
 */
module Definitions {
  import opened WorkflowTypes

  /** `Other` is a kind the converter does not know, including the empty one. */
  datatype Kind =
    | ExpressionsKind | GatewayKind | FunctionKind | IteratorKind | ErrorKind | TerminationKind
    | PromptKind | DelayKind | ErrHandlerKind | VisualKind | DebugKind | BreakKind | ContinueKind
    | Other(name: string)

  datatype Step = Step(id: nat, kind: Kind, ref: string, args: seq<Expr>, results: seq<Expr>)

  datatype Path = Path(expr: string, parentID: nat, childID: nat)

  datatype Definition = Definition(steps: seq<Step>, paths: seq<Path>)

  datatype Function = Function(
    kind: string,
    hasHandler: bool,
    hasIterator: bool,
    params: seq<Param>,
    results: seq<Param>)

  /** `parses` is the expression parser; `corredor` tells if corredor steps are enabled. */
  datatype Registry = Registry(
    functions: map<string, Function>,
    types: set<string>,
    parses: string -> bool,
    corredor: bool)

  /** What a step of the graph does; steps refer to each other by ID. */
  datatype Task =
    | Plain(kind: Kind, args: seq<Expr>, results: seq<Expr>)
    | Fork
    | Join(parents: seq<nat>)
    | Incl(branches: seq<Path>)
    | Excl(branches: seq<Path>)
    | Handler(handler: Option<nat>)
    | Call(fn: Function, args: seq<Expr>, results: seq<Expr>)
    | Loop(fn: Function, args: seq<Expr>, results: seq<Expr>, next: nat, exit: nat)

  datatype Node = Node(id: nat, task: Task)

  /** A graph as a value: steps in the order they were added and links in the order of paths. */
  datatype GraphValue = GraphValue(steps: seq<Node>, links: seq<Path>)

  /** IDs that the graph finds again: zero is never indexed (pkg/wfexec/graph.go:31-33). */
  function Indexed(nodes: seq<Node>): set<nat> {
    set n | n in nodes && n.id != 0 :: n.id
  }

  function ChildrenOf(links: seq<Path>, id: nat): seq<nat> {
    if links == [] then []
    else (if links[0].parentID == id then [links[0].childID] else []) + ChildrenOf(links[1..], id)
  }

  function ParentsOf(links: seq<Path>, id: nat): seq<nat> {
    if links == [] then []
    else (if links[0].childID == id then [links[0].parentID] else []) + ParentsOf(links[1..], id)
  }

  lemma {:induction false} ChildrenSnoc(links: seq<Path>, p: Path, id: nat)
    ensures ChildrenOf(links + [p], id) == ChildrenOf(links, id) + (if p.parentID == id then [p.childID] else [])
  {
    var last := if p.parentID == id then [p.childID] else [];
    if links == [] {
      assert links + [p] == [p] && [p][1..] == [];
    } else {
      assert (links + [p])[0] == links[0] && (links + [p])[1..] == links[1..] + [p];
      ChildrenSnoc(links[1..], p, id);
      Associative(if links[0].parentID == id then [links[0].childID] else [], ChildrenOf(links[1..], id), last);
    }
  }

  lemma {:induction false} ParentsSnoc(links: seq<Path>, p: Path, id: nat)
    ensures ParentsOf(links + [p], id) == ParentsOf(links, id) + (if p.childID == id then [p.parentID] else [])
  {
    var last := if p.childID == id then [p.parentID] else [];
    if links == [] {
      assert links + [p] == [p] && [p][1..] == [];
    } else {
      assert (links + [p])[0] == links[0] && (links + [p])[1..] == links[1..] + [p];
      ParentsSnoc(links[1..], p, id);
      Associative(if links[0].childID == id then [links[0].parentID] else [], ParentsOf(links[1..], id), last);
    }
  }

  lemma Associative<T>(a: seq<T>, b: seq<T>, c: seq<T>)
    ensures a + (b + c) == (a + b) + c
  {
  }

  class Graph {
    var steps: seq<Node>
    var index: map<nat, Node>
    var children: map<nat, seq<nat>>
    var parents: map<nat, seq<nat>>

    ghost predicate Valid()
      reads this
    {
      && index.Keys == Indexed(steps)
      && (forall id | id in index :: index[id] in steps && index[id].id == id)
    }

    ghost predicate Linked(links: seq<Path>)
      reads this
    {
      forall id: nat :: Children(id) == ChildrenOf(links, id) && Parents(id) == ParentsOf(links, id)
    }

    constructor ()
      ensures Valid() && Linked([]) && steps == []
    {
      steps, index, children, parents := [], map[], map[], map[];
    }

    function Children(id: nat): seq<nat>
      reads this
    {
      if id in children then children[id] else []
    }

    function Parents(id: nat): seq<nat>
      reads this
    {
      if id in parents then parents[id] else []
    }

    method AddStep(n: Node)
      requires Valid()
      modifies this`steps, this`index
      ensures Valid() && steps == old(steps) + [n]
    {
      steps := steps + [n];
      if n.id != 0 {
        index := index[n.id := n];
      }
    }

    method AddParent(child: nat, parent: nat, ghost links: seq<Path>, ghost p: Path)
      requires Linked(links) && p.childID == child && p.parentID == parent
      modifies this`children, this`parents
      ensures Linked(links + [p])
    {
      parents := parents[child := Parents(child) + [parent]];
      children := children[parent := Children(parent) + [child]];
      forall id: nat
        ensures Children(id) == ChildrenOf(links + [p], id) && Parents(id) == ParentsOf(links + [p], id)
      {
        ChildrenSnoc(links, p, id);
        ParentsSnoc(links, p, id);
      }
    }
  }
}
