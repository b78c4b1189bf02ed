/**
 The exact condition under which accepted arguments are well typed (automation/types/param.go:68-106,
 automation/types/expr.go:107-220): the check reads the first argument of a target, evaluation keeps
 the last one.
 */
module ArgumentTypes {
  import opened WorkflowTypes
  import opened Expressions
  import opened Params

  /** The type an assignment always has, given those of the variables before; None if it may be any. */
  function StaticOf(m: map<string, Option<string>>, e: Expr): Option<string> {
    if KnownType(SetTypeName(e.declared)) then Some(e.declared)
    else if Simple(e.source) && e.source in m then m[e.source]
    else None
  }

  /** The types that the assigned variables always have in the end. */
  function Static(ee: seq<Expr>): map<string, Option<string>> {
    if ee == [] then map[]
    else
      var n := |ee| - 1;
      Static(ee[..n])[ee[n].target := StaticOf(Static(ee[..n]), ee[n])]
  }

  lemma {:induction false} StaticKeys(ee: seq<Expr>)
    ensures Static(ee).Keys == Targets(ee)
  {
    if ee != [] {
      StaticKeys(ee[..|ee| - 1]);
      TargetsSnoc(ee);
    }
  }

  /** Output and scope agree with the static types; what is open has type w, if that is given. */
  predicate HasStatic(m: map<string, Option<string>>, s: Scopes, w: Option<string>) {
    && s.out.Keys == m.Keys
    && forall x | x in m ::
         && x in s.scope && s.out[x] == s.scope[x] && s.out[x].TypedValue?
         && (if m[x].Some? then KnownType(m[x].value) && s.out[x].typ == m[x].value
             else w.Some? ==> s.out[x].typ == w.value)
  }

  lemma StaticStep(lang: Lang, e: Expr, m: map<string, Option<string>>, s: Scopes)
    requires HasStatic(m, s, None) && Simple(e.target) && e.typ == Some(SetTypeName(e.declared))
    requires EvalOne(lang, e, s).Ok?
    ensures HasStatic(m[e.target := StaticOf(m, e)], EvalOne(lang, e, s).value, None)
  {
    AssignsTarget(lang, e, s);
  }

  lemma {:induction false} StaticHolds(lang: Lang, ee: seq<Expr>, vars: Vars)
    requires SimpleTargets(ee) && TypesSet(ee)
    requires EvalFrom(lang, ee, Scopes(vars, map[])).Ok?
    ensures HasStatic(Static(ee), EvalFrom(lang, ee, Scopes(vars, map[])).value, None)
    decreases |ee|
  {
    hide EvalOne, HasStatic, StaticOf;
    var s := Scopes(vars, map[]);
    if ee != [] {
      var n := |ee| - 1;
      var init, e := ee[..n], ee[n];
      assert ee == init + [e];
      EvalFromAppend(lang, init, [e], s);
      var m := EvalFrom(lang, init, s).value;
      EvalFromSingle(lang, e, m);
      StaticHolds(lang, init, vars);
      StaticStep(lang, e, Static(init), m);
    } else {
      NothingAssigned(vars, None);
    }
  }

  lemma NothingAssigned(vars: Vars, w: Option<string>)
    ensures HasStatic(map[], Scopes(vars, map[]), w)
  {
  }

  /** A language in which every value without a type of its own gets type w. */
  function AllOfType(w: string): Lang {
    Lang(
      (e: string, vars: Vars) => Evaluated(Typed(w, Nil), true),
      (t: string, v: Value) => Some(v.raw),
      (tv: TypedValue, v: Value) => Some(TypedValue.TypedValue(w, v.raw)),
      (r: Raw) => Some(TypedValue.TypedValue(w, r)),
      (vars: Vars, path: string, tv: TypedValue) => None,
      (vars: Vars, path: string) => Evaluated(Typed(w, Nil), true))
  }

  lemma OpenValue(e: Expr, m: map<string, Option<string>>, s: Scopes, w: string)
    requires HasStatic(m, s, Some(w)) && KnownType(w) && Runnable(e)
    requires Simple(e.target) && e.typ == Some(SetTypeName(e.declared))
    requires e.source != "" ==> e.source in s.scope
    requires e.source != "" && e.source !in m ==> s.scope[e.source].TypedValue? && s.scope[e.source].typ == w
    ensures var r := EvalOne(AllOfType(w), e, s);
            && r.Ok? && e.target in r.value.scope && r.value.scope[e.target].TypedValue?
            && r.value.scope[e.target].typ == (if StaticOf(m, e).Some? then StaticOf(m, e).value else w)
            && (StaticOf(m, e).Some? ==> KnownType(StaticOf(m, e).value))
  {
    var (v, failed) := Fetch(AllOfType(w), e, s.scope);
    assert StaticOf(m, e).None? && v.Typed? ==> v.typ == w;
  }

  lemma OpenStep(e: Expr, m: map<string, Option<string>>, s: Scopes, w: string)
    requires HasStatic(m, s, Some(w)) && KnownType(w) && Runnable(e)
    requires Simple(e.target) && e.typ == Some(SetTypeName(e.declared))
    requires e.source != "" ==> e.source in s.scope
    requires e.source != "" && e.source !in m ==> s.scope[e.source].TypedValue? && s.scope[e.source].typ == w
    ensures var r := EvalOne(AllOfType(w), e, s);
            && r.Ok? && HasStatic(m[e.target := StaticOf(m, e)], r.value, Some(w))
            && r.value.scope == s.scope[e.target := r.value.scope[e.target]]
  {
    hide EvalOne, AllOfType, StaticOf, Runnable, Simple;
    OpenValue(e, m, s, w);
    AssignsTarget(AllOfType(w), e, s);
  }

  lemma {:induction false} OpenGetType(ee: seq<Expr>, vars: Vars, w: string)
    requires SimpleTargets(ee) && TypesSet(ee) && KnownType(w)
    requires forall e | e in ee :: Runnable(e)
    requires forall x | x in Sources(ee) && x != "" :: x in vars && vars[x] == TypedValue.TypedValue(w, Nil)
    ensures var r := EvalFrom(AllOfType(w), ee, Scopes(vars, map[]));
            && r.Ok? && HasStatic(Static(ee), r.value, Some(w))
            && forall x | x in vars && x !in Targets(ee) :: x in r.value.scope && r.value.scope[x] == vars[x]
    decreases |ee|
  {
    hide EvalOne, HasStatic, StaticOf, AllOfType, Runnable;
    var s, lang := Scopes(vars, map[]), AllOfType(w);
    if ee != [] {
      var n := |ee| - 1;
      var init, e := ee[..n], ee[n];
      assert ee == init + [e] && e in ee && e.source in Sources(ee);
      assert Sources(init) <= Sources(ee);
      OpenGetType(init, vars, w);
      EvalFromAppend(lang, init, [e], s);
      var m := EvalFrom(lang, init, s).value;
      EvalFromSingle(lang, e, m);
      StaticKeys(init);
      TargetsSnoc(ee);
      InScope(Static(init), m, w);
      OpenStep(e, Static(init), m, w);
    } else {
      NothingAssigned(vars, Some(w));
    }
  }

  lemma InScope(m: map<string, Option<string>>, s: Scopes, w: string)
    requires HasStatic(m, s, Some(w))
    ensures forall x | x in m :: x in s.scope
  {
  }

  /** The last argument of every parameter always has an allowed type, or any type is allowed. */
  predicate LastCompatible(params: seq<Param>, ee: seq<Expr>) {
    forall p | p in params && p.name in Static(ee) ::
      ANY in p.types || (Static(ee)[p.name].Some? && Static(ee)[p.name].value in p.types)
  }

  lemma {:induction false} NewName(names: seq<string>) returns (w: string)
    ensures w !in names && KnownType(w)
  {
    w := "type";
    for i := 0 to |names|
      invariant w != "" && KnownType(w) && |w| > 3
      invariant forall j | 0 <= j < i :: |names[j]| < |w|
    {
      if |names[i]| >= |w| {
        w := names[i] + "type";
      }
    }
  }

  /**
   Accepted arguments evaluate, for every language and scope, only to input the parameters allow, if
   and only if the last argument of every parameter, or the variable it copies, has an allowed type.
   */
  lemma SoundIffLastCompatible(params: seq<Param>, ee: seq<Expr>)
    requires AcceptsArguments(params, ee) && ProperParams(params) && TypesSet(ee)
    requires forall e | e in ee :: Runnable(e)
    ensures Sound(params, ee) <==> LastCompatible(params, ee)
  {
    AcceptedTargetsAreSimple(params, ee);
    StaticKeys(ee);
    hide AcceptsArguments, Runnable;
    if LastCompatible(params, ee) {
      forall lang: Lang, vars: Vars | EvalSet(lang, ee, vars).Ok?
        ensures WellTyped(params, EvalSet(lang, ee, vars).value)
      {
        AcceptedNames(params, ee, lang, vars);
        StaticHolds(lang, ee, vars);
      }
    } else {
      var p :| p in params && p.name in Static(ee) && ANY !in p.types
               && (Static(ee)[p.name].Some? ==> Static(ee)[p.name].value !in p.types);
      IncompatibleIsUnsound(params, ee, p);
    }
  }

  lemma IncompatibleIsUnsound(params: seq<Param>, ee: seq<Expr>, p: Param)
    requires SimpleTargets(ee) && TypesSet(ee)
    requires forall e | e in ee :: Runnable(e)
    requires p in params && p.name in Static(ee) && ANY !in p.types
    requires Static(ee)[p.name].Some? ==> Static(ee)[p.name].value !in p.types
    ensures !Sound(params, ee)
  {
    hide Runnable, AllOfType, EvalFrom, Static;
    var w := NewName(p.types);
    var vars: Vars := map x | x in Sources(ee) :: TypedValue.TypedValue(w, Nil);
    OpenGetType(ee, vars, w);
    var out := EvalSet(AllOfType(w), ee, vars).value;
    assert p.name in out && out[p.name].typ !in p.types;
    assert !WellTyped(params, out);
  }

  /**
   For arguments of known types with distinct targets the check is exactly right: it takes them if and
   only if they evaluate, for every language and scope, only to input that the parameters allow.
   */
  lemma AcceptedIffSound(params: seq<Param>, ee: seq<Expr>)
    requires ProperParams(params) && SimpleTargets(ee) && TypesSet(ee) && DistinctTargets(ee)
    requires forall e | e in ee :: Runnable(e) && KnownType(e.declared)
    ensures ArgumentsMatch(params, ee) <==> Sound(params, ee)
  {
    AcceptsArgumentsIff(params, ee);
    if ArgumentsMatch(params, ee) {
      TypeSoundness(params, ee);
    }
    if Sound(params, ee) {
      SoundMatches(params, ee);
    }
  }

  lemma SoundMatches(params: seq<Param>, ee: seq<Expr>)
    requires Sound(params, ee) && SimpleTargets(ee) && TypesSet(ee) && DistinctTargets(ee)
    requires forall e | e in ee :: Runnable(e) && KnownType(e.declared)
    ensures ArgumentsMatch(params, ee)
  {
    hide Sound, WellTyped, Runnable, AllOfType, Static, EvalFrom, TypesSet, DistinctTargets, HasStatic, EvalSet;
    var w := "type";
    var lang := AllOfType(w);
    var vars: Vars := map x | x in Sources(ee) :: TypedValue.TypedValue(w, Nil);
    AllEvaluate(ee, vars, w);
    OutputDomain(lang, ee, vars);
    SoundAt(params, ee, lang, vars);
    OutputNamesMatch(params, ee, EvalSet(lang, ee, vars).value);
    OutputTypesMatch(params, ee, lang, vars);
  }

  lemma SoundAt(params: seq<Param>, ee: seq<Expr>, lang: Lang, vars: Vars)
    requires Sound(params, ee) && EvalSet(lang, ee, vars).Ok?
    ensures WellTyped(params, EvalSet(lang, ee, vars).value)
  {
  }

  lemma AllEvaluate(ee: seq<Expr>, vars: Vars, w: string)
    requires SimpleTargets(ee) && TypesSet(ee) && KnownType(w)
    requires forall e | e in ee :: Runnable(e)
    requires forall x | x in Sources(ee) && x != "" :: x in vars && vars[x] == TypedValue.TypedValue(w, Nil)
    ensures EvalSet(AllOfType(w), ee, vars).Ok?
  {
    hide Runnable, AllOfType, Static, EvalFrom, TypesSet, HasStatic;
    OpenGetType(ee, vars, w);
  }

  lemma OutputNamesMatch(params: seq<Param>, ee: seq<Expr>, out: Vars)
    requires WellTyped(params, out) && out.Keys == Targets(ee)
    ensures TargetsDeclared(params, ee) && RequiredGiven(params, ee)
  {
    NamedIff(params);
    forall i | 0 <= i < |ee|
      ensures Declares(params, ee[i].target)
    {
      assert ee[i] in ee && ee[i].target in out;
    }
    forall j | 0 <= j < |params| && params[j].required
      ensures exists i | 0 <= i < |ee| :: ee[i].target == params[j].name
    {
      assert params[j] in params && params[j].name in out;
      var e :| e in ee && e.target == params[j].name;
      var i :| 0 <= i < |ee| && ee[i] == e;
    }
  }

  lemma OutputTypesMatch(params: seq<Param>, ee: seq<Expr>, lang: Lang, vars: Vars)
    requires EvalSet(lang, ee, vars).Ok? && WellTyped(params, EvalSet(lang, ee, vars).value)
    requires SimpleTargets(ee) && TypesSet(ee) && DistinctTargets(ee)
    requires forall e | e in ee :: KnownType(e.declared)
    ensures FirstsAllowed(params, ee)
  {
    hide EvalFrom;
    var out := EvalSet(lang, ee, vars).value;
    forall j, i | 0 <= j < |params| && 0 <= i < |ee| && FirstAt(ee, params[j].name, i)
      ensures ee[i].declared in params[j].types || "Any" in params[j].types
    {
      var name := params[j].name;
      assert params[j] in params && ee[i] in ee && ee[i].target in Targets(ee);
      FirstByTargetIsFirst(ee, name);
      hide FirstAt, TypesSet, DistinctTargets, FirstByTarget, LastByTarget;
      DistinctFirstIsLast(ee, name);
      OutputTypes(lang, ee, Scopes(vars, map[]), name);
      TypeOf(ee, i);
    }
  }

  lemma TypeOf(ee: seq<Expr>, i: nat)
    requires TypesSet(ee) && i < |ee| && KnownType(ee[i].declared)
    ensures ee[i].typ == Some(ee[i].declared)
  {
    assert ee[i] in ee;
  }

  /** A text parameter that is given a text and then a number is accepted, and gets the number. */
  lemma RepeatedTargetIsUnsound()
    ensures var p := Param("p", ["String"], true);
            var ee := [Expr("p", "", "", Data("a"), "String", [], Some("String"), false),
                       Expr("p", "", "", Data("1"), "Integer", [], Some("Integer"), false)];
            AcceptsArguments([p], ee) && !Sound([p], ee)
  {
    var p := Param("p", ["String"], true);
    var a := Expr("p", "", "", Data("a"), "String", [], Some("String"), false);
    var b := Expr("p", "", "", Data("1"), "Integer", [], Some("Integer"), false);
    var ee := [a, b];
    assert FirstByTarget(ee, "p") == Some(a);
    assert p in [p] && AcceptsParam(p, ee);
    assert AcceptsArguments([p], ee);
    assert ee[..1] == [a] && Static([a]) == map["p" := Some("String")] by {
      assert [a][..0] == [];
    }
    assert Static(ee)["p"] == Some("Integer");
    assert p.name in Static(ee);
    SoundIffLastCompatible([p], ee);
  }
}
