/**
 Values, expressions and parameters of the workflow engine
 (automation/types/expr.go, automation/types/param.go, pkg/expr).

 Go's `interface{}` is `Value`, a value that may or may not carry a type; `expr.Vars` is a
 map; a nil entry of such a map is `NoValue`.
 */
module WorkflowTypes {

  datatype Option<+T> = None | Some(value: T)

  /** What an evaluator or the JSON decoder produces; `Nil` is Go's nil interface. */
  datatype Raw = Nil | Data(payload: string)

  datatype TypedValue = NoValue | TypedValue(typ: string, raw: Raw)

  datatype Value = Untyped(raw: Raw) | Typed(typ: string, raw: Raw)

  type Vars = map<string, TypedValue>

  const ANY := "Any"
  // name of expr.Unresolved{}
  const UNRESOLVED := ""

  /** `declared` is the Type property; `typ` and `compiled` are what conversion sets. */
  datatype Expr = Expr(
    target: string,
    source: string,
    expr: string,
    value: Raw,
    declared: string,
    tests: seq<string>,
    typ: Option<string>,
    compiled: bool)

  datatype Param = Param(name: string, types: seq<string>, required: bool)

  function AsValue(tv: TypedValue): Value {
    match tv
    case NoValue => Untyped(Nil)
    case TypedValue(t, r) => Typed(t, r)
  }

  /** A path that addresses one variable of the scope and nothing inside it. */
  predicate Simple(path: string) {
    path != "" && '.' !in path && '[' !in path && ']' !in path
  }

  predicate KnownType(t: string) {
    t != ANY && t != UNRESOLVED
  }

  function Targets(ee: seq<Expr>): set<string> {
    set e | e in ee :: e.target
  }

  predicate DistinctTargets(ee: seq<Expr>) {
    forall i, j | 0 <= i < j < |ee| :: ee[i].target != ee[j].target
  }

  predicate SimpleTargets(ee: seq<Expr>) {
    forall e | e in ee :: Simple(e.target)
  }
}
