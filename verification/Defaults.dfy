/**
 Default values of expressions that fail (automation/types/expr.go:125-157): the evaluation goes on
 with whatever the evaluator answered along with its error, and not always with the default.
 */
module Defaults {
  import opened WorkflowTypes
  import opened Expressions

  type Casting = (string, Value) -> Option<Raw>
  type CastingLike = (TypedValue, Value) -> Option<TypedValue>
  type Typifying = Raw -> Option<TypedValue>
  type Assigning = (Vars, string, TypedValue) -> Option<Vars>

  /** The language with other types and assignments, and the same evaluators. */
  function WithTypes(lang: Lang, cast: Casting, like: CastingLike, typify: Typifying, assign: Assigning): Lang {
    lang.(cast := cast, castLike := like, typify := typify, assign := assign)
  }

  /** The expression that is just its default value. */
  function OnlyDefault(e: Expr): Expr {
    e.(source := "", expr := "")
  }

  predicate Fails(lang: Lang, e: Expr, scope: Vars) {
    Fetch(lang, e, scope).1.Some?
  }

  /** The source is unknown, there is no evaluator, or the default is what was answered with the error. */
  predicate FallsBack(lang: Lang, e: Expr, scope: Vars) {
    if e.source != "" then e.source !in scope || lang.select(scope, e.source).value == Untyped(e.value)
    else !e.compiled || lang.eval(e.expr, scope).value == Untyped(e.value)
  }

  /** Evaluating the expression and evaluating its default come to the same. */
  predicate ActsAsDefault(lang: Lang, e: Expr, s: Scopes) {
    EvalOne(lang, e, s) == EvalOne(lang, OnlyDefault(e), s)
  }

  lemma FallbackFetchesDefault(lang: Lang, e: Expr, scope: Vars)
    requires Fails(lang, e, scope)
    ensures FallsBack(lang, e, scope) <==> Fetch(lang, e, scope).0 == Untyped(e.value)
  {
  }

  function Tagged(tag: string): Raw {
    Data(tag)
  }

  /** Types that tell the default d, which becomes `yes`, from everything else, which becomes `no`. */
  function Telling(lang: Lang, d: Raw, yes: string, no: string): Lang {
    WithTypes(
      lang,
      (t: string, v: Value) => Some(Tagged(if v == Untyped(d) then yes else no)),
      (tv: TypedValue, v: Value) => Some(TypedValue.TypedValue("T", Tagged(if v == Untyped(d) then yes else no))),
      (r: Raw) => Some(TypedValue.TypedValue("T", Tagged(if r == d then yes else no))),
      (vars: Vars, path: string, tv: TypedValue) => Some(vars[path := tv]))
  }

  /** What is assigned for a value. */
  function Assigned(lang: Lang, e: Expr, v: Value, out: Vars): Result<TypedValue>
    requires e.typ.Some?
  {
    var tv :- Typing(lang, e, e.typ.value, v, out);
    Conform(lang, e.typ.value, v, tv)
  }

  lemma EvalOneByValue(lang: Lang, e: Expr, s: Scopes, d: Raw, yes: string, no: string)
    requires e.typ.Some? && !e.value.Nil?
    ensures var l := Telling(lang, d, yes, no);
            var r := EvalOne(l, e, s);
            var v := Assigned(l, e, Fetch(lang, e, s.scope).0, s.out);
            && (v.Err? ==> r.Err?)
            && (v.Ok? ==> r.Ok? && e.target in r.value.scope && r.value.scope[e.target] == v.value)
  {
    var l := Telling(lang, d, yes, no);
    TellingFetches(lang, e, s.scope, d, yes, no);
    hide Typing, Conform, Fetch, Copied, PathBase;
    var v := Assigned(l, e, Fetch(lang, e, s.scope).0, s.out);
    if v.Ok? {
      TellingAssigns(lang, s.scope, e.target, v.value, d, yes, no);
    }
  }

  lemma TellingFetches(lang: Lang, e: Expr, scope: Vars, d: Raw, yes: string, no: string)
    ensures Fetch(Telling(lang, d, yes, no), e, scope) == Fetch(lang, e, scope)
  {
  }

  lemma TellingAssigns(lang: Lang, scope: Vars, target: string, tv: TypedValue, d: Raw, yes: string, no: string)
    ensures Assign(Telling(lang, d, yes, no), scope, target, tv) == Ok(scope[target := tv])
  {
  }

  lemma DefaultTold(lang: Lang, e: Expr, out: Vars, yes: string, no: string)
    requires e.typ.Some?
    ensures var l := Telling(lang, e.value, yes, no);
            var r := Assigned(l, e, Untyped(e.value), out);
            r.Ok? && r.value.TypedValue? && r.value.raw == Tagged(yes)
  {
  }

  lemma OtherTold(lang: Lang, e: Expr, v: Value, out: Vars, yes: string, no: string)
    requires e.typ.Some? && v != Untyped(e.value) && yes != no && v.raw != Tagged(yes)
    ensures var l := Telling(lang, e.value, yes, no);
            var r := Assigned(l, e, v, out);
            r.Ok? ==> r.value.TypedValue? && r.value.raw != Tagged(yes)
  {
  }

  /**
   An expression that fails is evaluated as its default, whatever types and assignments make of it, if
   and only if its source is unknown, it has no evaluator, or the default itself came with the error.
   */
  lemma FailedActsAsDefaultIff(lang: Lang, e: Expr, s: Scopes)
    requires e.typ.Some? && !e.value.Nil? && Fails(lang, e, s.scope)
    ensures (forall c: Casting, k: CastingLike, t: Typifying, a: Assigning ::
               ActsAsDefault(WithTypes(lang, c, k, t, a), e, s))
            <==> FallsBack(lang, e, s.scope)
  {
    FallbackFetchesDefault(lang, e, s.scope);
    var v := Fetch(lang, e, s.scope).0;
    if FallsBack(lang, e, s.scope) {
      forall c: Casting, k: CastingLike, t: Typifying, a: Assigning
        ensures ActsAsDefault(WithTypes(lang, c, k, t, a), e, s)
      {
        SameValueSameEvaluation(WithTypes(lang, c, k, t, a), e, s);
      }
    } else {
      var yes, no := if v.raw == Data("a") then "b" else "a", "c";
      OtherActsOtherwise(lang, e, s, v, yes, no);
    }
  }

  lemma SameValueSameEvaluation(lang: Lang, e: Expr, s: Scopes)
    requires e.typ.Some? && !e.value.Nil? && Fetch(lang, e, s.scope).0 == Untyped(e.value)
    ensures ActsAsDefault(lang, e, s)
  {
  }

  lemma OtherActsOtherwise(lang: Lang, e: Expr, s: Scopes, v: Value, yes: string, no: string)
    requires e.typ.Some? && !e.value.Nil? && v == Fetch(lang, e, s.scope).0 != Untyped(e.value)
    requires yes != no && v.raw != Tagged(yes)
    ensures exists c: Casting, k: CastingLike, t: Typifying, a: Assigning ::
              !ActsAsDefault(WithTypes(lang, c, k, t, a), e, s)
  {
    var l := Telling(lang, e.value, yes, no);
    EvalOneByValue(lang, e, s, e.value, yes, no);
    EvalOneByValue(lang, OnlyDefault(e), s, e.value, yes, no);
    DefaultTold(lang, OnlyDefault(e), s.out, yes, no);
    OtherTold(lang, e, v, s.out, yes, no);
    assert !ActsAsDefault(l, e, s);
    assert l == WithTypes(lang, l.cast, l.castLike, l.typify, l.assign);
  }

  /** A language whose evaluator fails and answers nothing, and whose casts keep the payload. */
  function Failing(): Lang {
    Lenient().(eval := (e: string, vars: Vars) => Evaluated(Untyped(Nil), false))
  }

  /** An expression that fails with default "1" comes out as nothing, not as "1". */
  lemma DefaultIsIgnored()
    ensures var e := Expr("x", "", "f()", Data("1"), "String", [], Some("String"), true);
            && Fails(Failing(), e, map[])
            && EvalSet(Failing(), [e], map[]) == Ok(map["x" := TypedValue.TypedValue("String", Nil)])
  {
    var e := Expr("x", "", "f()", Data("1"), "String", [], Some("String"), true);
    assert PathBase("x") == "x";
    EvalFromSingle(Failing(), e, Scopes(map[], map[]));
  }
}
