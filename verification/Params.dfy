/**
 Compile-time checks of step arguments and results (automation/types/param.go:49-131) and
 what they guarantee about the evaluated arguments a handler receives.
 */
module Params {
  import opened WorkflowTypes
  import opened Expressions

  function FirstByTarget(ee: seq<Expr>, t: string): (r: Option<Expr>)
    ensures r.None? <==> t !in Targets(ee)
    ensures r.Some? ==> r.value in ee && r.value.target == t
  {
    if ee == [] then None
    else if ee[0].target == t then Some(ee[0])
    else TargetsCons(ee); FirstByTarget(ee[1..], t)
  }

  function LastByTarget(ee: seq<Expr>, t: string): (r: Option<Expr>)
    ensures r.None? <==> t !in Targets(ee)
    ensures r.Some? ==> r.value in ee && r.value.target == t
  {
    if ee == [] then None
    else if ee[|ee| - 1].target == t then Some(ee[|ee| - 1])
    else TargetsSnoc(ee); LastByTarget(ee[..|ee| - 1], t)
  }

  lemma TargetsSnoc(ee: seq<Expr>)
    requires ee != []
    ensures Targets(ee) == Targets(ee[..|ee| - 1]) + {ee[|ee| - 1].target}
  {
    assert forall e :: e in ee <==> e == ee[|ee| - 1] || e in ee[..|ee| - 1];
  }

  predicate Named(params: seq<Param>, name: string) {
    exists p | p in params :: p.name == name
  }

  predicate Compatible(p: Param, t: string) {
    t in p.types || ANY in p.types
  }

  /** What an accepted argument set looks like. */
  predicate AcceptsArguments(params: seq<Param>, ee: seq<Expr>) {
    && (forall e | e in ee :: Named(params, e.target))
    && (forall p | p in params :: AcceptsParam(p, ee))
  }

  predicate AcceptsParam(p: Param, ee: seq<Expr>) {
    var e := FirstByTarget(ee, p.name);
    if e.None? then !p.required else Compatible(p, e.value.declared)
  }

  predicate AcceptsResults(params: seq<Param>, ee: seq<Expr>) {
    && (forall e | e in ee :: e.source != "" ==> Named(params, e.source))
    && (forall p | p in params :: AcceptsResult(p, ee))
  }

  predicate AcceptsResult(p: Param, ee: seq<Expr>) {
    var e := FirstByTarget(ee, p.name);
    e.Some? && e.value.declared != "" ==> e.value.declared in p.types
  }

  datatype Complaint = UnknownName(name: string) | Required(name: string) | Incompatible(name: string)

  method GetByTarget(ee: seq<Expr>, t: string) returns (r: Option<Expr>)
    ensures r == FirstByTarget(ee, t)
  {
    for i := 0 to |ee|
      invariant FirstByTarget(ee, t) == FirstByTarget(ee[i..], t)
    {
      assert ee[i..][0] == ee[i] && ee[i..][1..] == ee[i + 1..];
      if ee[i].target == t {
        return Some(ee[i]);
      }
    }
    return None;
  }

  method HasName(params: seq<Param>, name: string) returns (found: bool)
    ensures found <==> Named(params, name)
  {
    for i := 0 to |params|
      invariant forall j | 0 <= j < i :: params[j].name != name
    {
      if params[i].name == name {
        return true;
      }
    }
    return false;
  }

  method HasType(p: Param, t: string) returns (found: bool)
    ensures found <==> t in p.types
  {
    for i := 0 to |p.types|
      invariant t !in p.types[..i]
    {
      if p.types[i] == t {
        return true;
      }
    }
    return false;
  }

  method VerifyArguments(params: seq<Param>, ee: seq<Expr>) returns (c: Option<Complaint>)
    ensures c.None? <==> AcceptsArguments(params, ee)
  {
    for i := 0 to |ee|
      invariant forall j | 0 <= j < i :: Named(params, ee[j].target)
    {
      var known := HasName(params, ee[i].target);
      if !known {
        return Some(UnknownName(ee[i].target));
      }
    }
    for i := 0 to |params|
      invariant forall j | 0 <= j < i :: AcceptsParam(params[j], ee)
    {
      var p := params[i];
      var e := GetByTarget(ee, p.name);
      if e.None? {
        if p.required {
          assert !AcceptsParam(p, ee);
          return Some(Required(p.name));
        }
        continue;
      }
      var exact := HasType(p, e.value.declared);
      var any := HasType(p, ANY);
      if !exact && !any {
        return Some(Incompatible(p.name));
      }
    }
    return None;
  }

  method VerifyResults(params: seq<Param>, ee: seq<Expr>) returns (c: Option<Complaint>)
    ensures c.None? <==> AcceptsResults(params, ee)
  {
    for i := 0 to |ee|
      invariant forall j | 0 <= j < i :: ee[j].source != "" ==> Named(params, ee[j].source)
    {
      if ee[i].source != "" {
        var known := HasName(params, ee[i].source);
        if !known {
          return Some(UnknownName(ee[i].source));
        }
      }
    }
    for i := 0 to |params|
      invariant forall j | 0 <= j < i :: AcceptsResult(params[j], ee)
    {
      var p := params[i];
      var e := GetByTarget(ee, p.name);
      if e.None? {
        continue;
      }
      var has := HasType(p, e.value.declared);
      if e.value.declared != "" && !has {
        assert !AcceptsResult(p, ee);
        return Some(Incompatible(p.name));
      }
    }
    return None;
  }

  // ----- What the checks accept, by position -----

  /** The i-th expression is the first one with the target. */
  predicate FirstAt(ee: seq<Expr>, t: string, i: int) {
    0 <= i < |ee| && ee[i].target == t && forall j | 0 <= j < i :: ee[j].target != t
  }

  predicate Declares(params: seq<Param>, name: string) {
    exists j | 0 <= j < |params| :: params[j].name == name
  }

  predicate TargetsDeclared(params: seq<Param>, ee: seq<Expr>) {
    forall i | 0 <= i < |ee| :: Declares(params, ee[i].target)
  }

  predicate RequiredGiven(params: seq<Param>, ee: seq<Expr>) {
    forall j | 0 <= j < |params| && params[j].required :: exists i | 0 <= i < |ee| :: ee[i].target == params[j].name
  }

  predicate FirstsAllowed(params: seq<Param>, ee: seq<Expr>) {
    forall j, i | 0 <= j < |params| && 0 <= i < |ee| && FirstAt(ee, params[j].name, i) ::
      ee[i].declared in params[j].types || "Any" in params[j].types
  }

  predicate ArgumentsMatch(params: seq<Param>, ee: seq<Expr>) {
    TargetsDeclared(params, ee) && RequiredGiven(params, ee) && FirstsAllowed(params, ee)
  }

  predicate ResultsMatch(params: seq<Param>, ee: seq<Expr>) {
    && (forall i | 0 <= i < |ee| && ee[i].source != "" :: Declares(params, ee[i].source))
    && (forall j, i | 0 <= j < |params| && 0 <= i < |ee| && FirstAt(ee, params[j].name, i) ::
          ee[i].declared == "" || ee[i].declared in params[j].types)
  }

  lemma {:induction false} FirstByTargetIsFirst(ee: seq<Expr>, t: string)
    ensures var r := FirstByTarget(ee, t);
            && (r.Some? ==> exists i :: FirstAt(ee, t, i) && ee[i] == r.value)
            && (r.None? ==> forall i | 0 <= i < |ee| :: ee[i].target != t)
    ensures forall i | FirstAt(ee, t, i) :: FirstByTarget(ee, t) == Some(ee[i])
  {
    if ee != [] && ee[0].target != t {
      FirstByTargetIsFirst(ee[1..], t);
      forall i | FirstAt(ee, t, i)
        ensures FirstAt(ee[1..], t, i - 1) && ee[1..][i - 1] == ee[i]
      {
      }
      if FirstByTarget(ee, t).Some? {
        var i :| FirstAt(ee[1..], t, i) && ee[1..][i] == FirstByTarget(ee[1..], t).value;
        assert FirstAt(ee, t, i + 1);
      }
    } else if ee != [] {
      assert FirstAt(ee, t, 0);
    }
  }

  /** Accepted arguments: declared targets, required ones there, the first one of each of an allowed type. */
  lemma AcceptsArgumentsIff(params: seq<Param>, ee: seq<Expr>)
    ensures AcceptsArguments(params, ee) <==> ArgumentsMatch(params, ee)
  {
    forall j | 0 <= j < |params|
      ensures AcceptsParam(params[j], ee) <==>
              && (params[j].required ==> exists i | 0 <= i < |ee| :: ee[i].target == params[j].name)
              && forall i | FirstAt(ee, params[j].name, i) ::
                   ee[i].declared in params[j].types || "Any" in params[j].types
    {
      FirstByTargetIsFirst(ee, params[j].name);
    }
    hide AcceptsParam, FirstAt;
    NamedIff(params);
    assert (forall e | e in ee :: Named(params, e.target)) <==> forall i | 0 <= i < |ee| :: Named(params, ee[i].target);
    assert (forall p | p in params :: AcceptsParam(p, ee)) <==>
           forall j | 0 <= j < |params| :: AcceptsParam(params[j], ee);
  }

  /** Accepted results: declared sources, and the first one of each target of an allowed type, if it has one. */
  lemma AcceptsResultsIff(params: seq<Param>, ee: seq<Expr>)
    ensures AcceptsResults(params, ee) <==> ResultsMatch(params, ee)
  {
    forall j | 0 <= j < |params|
      ensures AcceptsResult(params[j], ee) <==>
              forall i | FirstAt(ee, params[j].name, i) :: ee[i].declared == "" || ee[i].declared in params[j].types
    {
      FirstByTargetIsFirst(ee, params[j].name);
    }
    hide AcceptsResult, FirstAt;
    NamedIff(params);
    assert (forall e | e in ee :: e.source != "" ==> Named(params, e.source)) <==>
           forall i | 0 <= i < |ee| && ee[i].source != "" :: Named(params, ee[i].source);
    assert (forall p | p in params :: AcceptsResult(p, ee)) <==>
           forall j | 0 <= j < |params| :: AcceptsResult(params[j], ee);
  }

  lemma NamedIff(params: seq<Param>)
    ensures forall name :: Named(params, name) <==> Declares(params, name)
  {
    forall name
      ensures Named(params, name) <==> Declares(params, name)
    {
      if Named(params, name) {
        var p :| p in params && p.name == name;
        var j :| 0 <= j < |params| && params[j] == p;
      }
    }
  }

  // ----- Soundness of the check -----

  /** The type that conversion sets on an expression (automation/service/workflow.go:789-806). */
  function SetTypeName(declared: string): string {
    if declared == "" then ANY else declared
  }

  predicate TypesSet(ee: seq<Expr>) {
    forall e | e in ee :: e.typ == Some(SetTypeName(e.declared))
  }

  /** Parameters as handlers declare them: plain names and no anonymous type. */
  predicate ProperParams(params: seq<Param>) {
    forall p | p in params :: Simple(p.name) && UNRESOLVED !in p.types
  }

  /** Handler input that the parameters allow. */
  predicate WellTyped(params: seq<Param>, vars: Vars) {
    && (forall k | k in vars :: Named(params, k))
    && (forall p | p in params :: p.required ==> p.name in vars)
    && (forall p | p in params :: p.name in vars ==>
          vars[p.name].TypedValue? && Compatible(p, vars[p.name].typ))
  }

  ghost predicate Sound(params: seq<Param>, ee: seq<Expr>) {
    forall lang: Lang, vars: Vars ::
      EvalSet(lang, ee, vars).Ok? ==> WellTyped(params, EvalSet(lang, ee, vars).value)
  }

  // The last assignment to a target decides the type of the variable.
  lemma {:induction false} OutputTypes(lang: Lang, ee: seq<Expr>, s: Scopes, k: string)
    requires SimpleTargets(ee)
    requires EvalFrom(lang, ee, s).Ok? && k in Targets(ee)
    ensures var out := EvalFrom(lang, ee, s).value.out;
            var t := LastByTarget(ee, k).value.typ;
            && k in out && out[k].TypedValue?
            && t.Some? && (KnownType(t.value) ==> out[k].typ == t.value)
    decreases |ee|
  {
    hide EvalOne;
    var n := |ee| - 1;
    var init, e := ee[..n], ee[n];
    assert ee == init + [e];
    EvalFromAppend(lang, init, [e], s);
    var m := EvalFrom(lang, init, s).value;
    EvalFromSingle(lang, e, m);
    AssignedType(lang, e, m);
    if e.target != k {
      TargetsSnoc(ee);
      OutputTypes(lang, init, s, k);
    }
  }

  // One evaluation sets its target, with the type of the expression if that is known.
  lemma AssignedType(lang: Lang, e: Expr, s: Scopes)
    requires Simple(e.target) && EvalOne(lang, e, s).Ok?
    ensures var out := EvalOne(lang, e, s).value.out;
            && e.typ.Some? && e.target in out && out[e.target].TypedValue?
            && (KnownType(e.typ.value) ==> out[e.target].typ == e.typ.value)
            && forall k | k in s.out && k != e.target :: k in out && out[k] == s.out[k]
  {
  }

  lemma {:induction false} DistinctFirstIsLast(ee: seq<Expr>, k: string)
    requires DistinctTargets(ee)
    ensures FirstByTarget(ee, k) == LastByTarget(ee, k)
  {
    var a, b := FirstByTarget(ee, k), LastByTarget(ee, k);
    if a.Some? {
      var i :| 0 <= i < |ee| && ee[i] == a.value;
      var j :| 0 <= j < |ee| && ee[j] == b.value;
      assert i == j;
    }
  }

  lemma AcceptedTargetsAreSimple(params: seq<Param>, ee: seq<Expr>)
    requires AcceptsArguments(params, ee) && ProperParams(params)
    ensures SimpleTargets(ee)
  {
  }

  /** Targets are declared and required parameters are there, whatever the types do. */
  lemma AcceptedNames(params: seq<Param>, ee: seq<Expr>, lang: Lang, vars: Vars)
    requires AcceptsArguments(params, ee) && ProperParams(params)
    requires EvalSet(lang, ee, vars).Ok?
    ensures var out := EvalSet(lang, ee, vars).value;
            && out.Keys == Targets(ee)
            && (forall k | k in out :: Named(params, k))
            && (forall p | p in params :: p.required ==> p.name in out)
  {
    AcceptedTargetsAreSimple(params, ee);
    OutputDomain(lang, ee, vars);
  }

  /**
   Type soundness: arguments accepted at conversion time, with distinct targets, evaluate only
   to input that the handler's parameters allow.
   */
  lemma TypeSoundness(params: seq<Param>, ee: seq<Expr>)
    requires AcceptsArguments(params, ee) && ProperParams(params)
    requires TypesSet(ee) && DistinctTargets(ee)
    ensures Sound(params, ee)
  {
    forall lang: Lang, vars: Vars | EvalSet(lang, ee, vars).Ok?
      ensures WellTyped(params, EvalSet(lang, ee, vars).value)
    {
      AcceptedTargetsAreSimple(params, ee);
      AcceptedNames(params, ee, lang, vars);
      var out := EvalSet(lang, ee, vars).value;
      forall p | p in params && p.name in out
        ensures out[p.name].TypedValue? && Compatible(p, out[p.name].typ)
      {
        OutputTypes(lang, ee, Scopes(vars, map[]), p.name);
        DistinctFirstIsLast(ee, p.name);
        assert AcceptsParam(p, ee);
      }
    }
  }

  /** Nothing in the expression itself makes its evaluation fail. */
  predicate Runnable(e: Expr) {
    e.source != "" || e.expr == "" || e.compiled || !e.value.Nil?
  }

  function Sources(ee: seq<Expr>): set<string> {
    set e | e in ee :: e.source
  }
}
