/**
 When sequential composition of expression sets holds for every language and every scope
 (automation/types/expr.go:107-220): exactly when the second set does not look at the output of the
 first.
 */
module Composition {
  import opened WorkflowTypes
  import opened Expressions
  import opened Params

  /** A language in which a value typed like a variable differs from a value typed on its own. */
  function Contrary(): Lang {
    Lang(
      (e: string, vars: Vars) => Evaluated(Untyped(Nil), true),
      (t: string, v: Value) => Some(v.raw),
      (tv: TypedValue, v: Value) => Some(TypedValue.TypedValue("Like", v.raw)),
      (r: Raw) => Some(TypedValue.TypedValue("Typified", r)),
      (vars: Vars, path: string, tv: TypedValue) => None,
      (vars: Vars, path: string) => Evaluated(Untyped(Nil), true))
  }

  /** Expressions that can be evaluated, with a type as conversion sets it: some type or Any. */
  predicate Ready(ee: seq<Expr>) {
    SimpleTargets(ee) && forall e | e in ee :: Runnable(e) && e.typ.Some? && e.typ.value != UNRESOLVED
  }

  predicate Tidy(scope: Vars) {
    forall x | x in scope && scope[x].TypedValue? :: scope[x].typ != UNRESOLVED
  }

  lemma ContraryOne(e: Expr, s: Scopes)
    requires Ready([e]) && Tidy(s.scope) && (e.source != "" ==> e.source in s.scope)
    ensures var r := EvalOne(Contrary(), e, s);
            && r.Ok? && Tidy(r.value.scope)
            && r.value.scope == s.scope[e.target := r.value.scope[e.target]]
            && r.value.out == s.out[e.target := r.value.scope[e.target]]
  {
    assert e in [e];
  }

  lemma {:induction false} ContraryEvaluates(ee: seq<Expr>, s: Scopes)
    requires Ready(ee) && Tidy(s.scope) && Sources(ee) - {""} <= s.scope.Keys
    ensures EvalFrom(Contrary(), ee, s).Ok? && Tidy(EvalFrom(Contrary(), ee, s).value.scope)
    decreases |ee|
  {
    hide EvalOne, Contrary, Runnable;
    if ee != [] {
      var e := ee[0];
      assert e in ee && e.source in Sources(ee);
      ContraryOne(e, s);
      assert Sources(ee[1..]) <= Sources(ee);
      ContraryEvaluates(ee[1..], EvalOne(Contrary(), e, s).value);
    }
  }

  // An expression that looks is typed like what it finds.
  lemma ContraryLooks(e: Expr, s: Scopes)
    requires Ready([e]) && e.typ == Some(ANY)
    requires e.source != "" ==> e.source in s.scope && (Simple(e.source) ==> s.scope[e.source].NoValue?)
    ensures var r := EvalOne(Contrary(), e, s);
            && r.Ok? && e.target in r.value.out
            && r.value.out[e.target].TypedValue?
            && r.value.out[e.target].typ == if e.target in s.out then "Like" else "Typified"
  {
    assert e in [e];
    assert Fetch(Contrary(), e, s.scope).0.Untyped?;
  }

  // Output stays as it is until its variable is assigned again.
  lemma {:induction false} OutputStays(lang: Lang, ee: seq<Expr>, s: Scopes, x: string)
    requires SimpleTargets(ee) && x !in Targets(ee) && x in s.out
    ensures var r := EvalFrom(lang, ee, s); r.Ok? ==> x in r.value.out && r.value.out[x] == s.out[x]
    decreases |ee|
  {
    hide EvalOne;
    if ee != [] {
      TargetsCons(ee);
      assert ee[0] in ee;
      var s' := EvalOne(lang, ee[0], s);
      if s'.Ok? {
        AssignsTarget(lang, ee[0], s);
        OutputStays(lang, ee[1..], s'.value, x);
      }
    }
  }

  // The variables that a set does not assign keep their values.
  lemma {:induction false} ScopeStays(lang: Lang, ee: seq<Expr>, s: Scopes, x: string)
    requires SimpleTargets(ee) && x !in Targets(ee) && x in s.scope
    ensures var r := EvalFrom(lang, ee, s); r.Ok? ==> x in r.value.scope && r.value.scope[x] == s.scope[x]
    decreases |ee|
  {
    hide EvalOne;
    if ee != [] {
      TargetsCons(ee);
      assert ee[0] in ee;
      var s' := EvalOne(lang, ee[0], s);
      if s'.Ok? {
        AssignsTarget(lang, ee[0], s);
        ScopeStays(lang, ee[1..], s'.value, x);
      }
    }
  }

  /** The first expression that looks, and the part in front of it that does not. */
  lemma {:induction false} FirstLooking(ee: seq<Expr>, k: set<string>, done: set<string>) returns (i: nat)
    requires !Oblivious(ee, k, done)
    ensures i < |ee| && Oblivious(ee[..i], k, done) && !Blind(ee[i], k, done + Targets(ee[..i]))
    decreases |ee|
  {
    if !Blind(ee[0], k, done) {
      assert done + Targets(ee[..0]) == done;
      return 0;
    }
    var j := FirstLooking(ee[1..], k, done + {ee[0].target});
    i := j + 1;
    assert ee[..i][0] == ee[0] && ee[..i][1..] == ee[1..][..j];
    TargetsCons(ee[..i]);
    assert done + Targets(ee[..i]) == done + {ee[0].target} + Targets(ee[1..][..j]);
  }

  lemma LookingBreaks(a: seq<Expr>, b: seq<Expr>)
    requires Ready(a) && Ready(b) && DistinctTargets(b) && !Oblivious(b, Targets(a), {})
    ensures exists lang: Lang, vars: Vars :: !Composes(lang, a, b, vars)
  {
    hide EvalOne, Contrary, Oblivious, Blind, Runnable;
    var lang := Contrary();
    var vars: Vars := map x | x in Sources(a) + Sources(b) :: NoValue;
    var s := Scopes(vars, map[]);
    ContraryEvaluates(a, s);
    assert s.scope == vars + s.out;
    ScopeIsInputPlusOutput(lang, a, vars, s);
    OutputIsTyped(lang, a, s);
    EvalFromAppend(lang, a, b, s);
    var o := EvalFrom(lang, a, s).value.out;
    assert o + map[] == o && o.Keys == Targets(a);
    var i := FirstLooking(b, o.Keys, {});
    Diverges(b, i, vars, o);
    assert !Composes(lang, a, b, vars);
  }

  /** Where the outputs differ: with the earlier output underneath, and without. */
  lemma Diverges(b: seq<Expr>, i: nat, vars: Vars, o: Vars)
    requires Ready(b) && DistinctTargets(b) && i < |b|
    requires Sources(b) <= vars.Keys && (forall x | x in vars :: vars[x].NoValue?)
    requires TypedIn(o, o.Keys) && Tidy(vars + o)
    requires Oblivious(b[..i], o.Keys, {}) && !Blind(b[i], o.Keys, {} + Targets(b[..i]))
    ensures var l, r := EvalFrom(Contrary(), b, Scopes(vars + o, o)), EvalFrom(Contrary(), b, Scopes(vars + o, map[]));
            && r.Ok? && b[i].target in r.value.out
            && (l.Ok? ==> b[i].target in l.value.out && l.value.out[b[i].target] != r.value.out[b[i].target])
  {
    hide EvalOne, Contrary, Oblivious, Blind, Runnable, EvalFrom;
    var lang, e := Contrary(), b[i];
    var start := Scopes(vars + o, map[]);
    PrefixEvaluates(b, i, vars, o);
    var m := EvalFrom(lang, b[..i], start).value;
    ContraryLooks(e, m);
    ContraryLooks(e, Scopes(m.scope, o + m.out));
    EvalFromAt(lang, b, i, start);
    EvalFromAt(lang, b, i, Scopes(vars + o, o));
    TargetNotAgain(b, i);
    assert SimpleTargets(b[i + 1..]);
    OutputStays(lang, b[i + 1..], EvalOne(lang, e, Scopes(m.scope, o + m.out)).value, e.target);
    OutputStays(lang, b[i + 1..], EvalOne(lang, e, m).value, e.target);
    assert forall x | x in Sources(b) :: x in vars + o;
    ContraryEvaluates(b, start);
  }

  // Evaluation passes through a position.
  lemma EvalFromAt(lang: Lang, ee: seq<Expr>, i: nat, s: Scopes)
    requires i < |ee| && EvalFrom(lang, ee[..i], s).Ok?
    requires EvalOne(lang, ee[i], EvalFrom(lang, ee[..i], s).value).Ok?
    ensures var m := EvalFrom(lang, ee[..i], s).value;
            EvalFrom(lang, ee, s) == EvalFrom(lang, ee[i + 1..], EvalOne(lang, ee[i], m).value)
  {
    hide EvalOne;
    var m := EvalFrom(lang, ee[..i], s).value;
    assert ee == ee[..i] + ([ee[i]] + ee[i + 1..]);
    EvalFromAppend(lang, ee[..i], [ee[i]] + ee[i + 1..], s);
    EvalFromAppend(lang, [ee[i]], ee[i + 1..], m);
    EvalFromSingle(lang, ee[i], m);
  }

  lemma TargetNotAgain(b: seq<Expr>, i: nat)
    requires DistinctTargets(b) && i < |b|
    ensures b[i].target !in Targets(b[i + 1..])
  {
  }

  // The part in front passes earlier output through and leaves the sources of b[i] untyped.
  lemma PrefixEvaluates(b: seq<Expr>, i: nat, vars: Vars, o: Vars)
    requires Ready(b) && i < |b|
    requires Sources(b) <= vars.Keys && (forall x | x in vars :: vars[x].NoValue?)
    requires TypedIn(o, o.Keys) && Tidy(vars + o)
    requires Oblivious(b[..i], o.Keys, {}) && !Blind(b[i], o.Keys, {} + Targets(b[..i]))
    ensures var start := Scopes(vars + o, map[]);
            var r := EvalFrom(Contrary(), b[..i], start);
            var e := b[i];
            && r.Ok? && r.value.out.Keys == Targets(b[..i])
            && EvalFrom(Contrary(), b[..i], Scopes(vars + o, o)) == Ok(Scopes(r.value.scope, o + r.value.out))
            && Ready([e]) && e.typ == Some(ANY) && e.target in o && e.target !in r.value.out
            && (e.source != "" ==> e.source in r.value.scope && (Simple(e.source) ==> r.value.scope[e.source].NoValue?))
  {
    hide EvalOne, Contrary, Oblivious, Runnable;
    var lang, p, e := Contrary(), b[..i], b[i];
    var start := Scopes(vars + o, map[]);
    assert e in b && forall x | x in p :: x in b;
    assert Sources(p) <= Sources(b) && e.source in Sources(b);
    ContraryEvaluates(p, start);
    assert start.scope == (vars + o) + start.out;
    ScopeIsInputPlusOutput(lang, p, vars + o, start);
    assert o + map[] == o && o.Keys + {} == o.Keys;
    EarlierOutputPassesThrough(lang, p, o, start);
    if e.source != "" && Simple(e.source) {
      ScopeStays(lang, p, start, e.source);
    }
  }

  /**
   The composition law holds for every language and every scope if and only if no expression of the
   second set, whose targets are distinct, takes the type of a variable that the first set assigned.
   */
  lemma ComposesIffOblivious(a: seq<Expr>, b: seq<Expr>)
    requires Ready(a) && Ready(b) && DistinctTargets(b)
    ensures (forall lang: Lang, vars: Vars :: Composes(lang, a, b, vars)) <==> Oblivious(b, Targets(a), {})
  {
    hide Composes, Oblivious;
    if Oblivious(b, Targets(a), {}) {
      forall lang: Lang, vars: Vars
        ensures Composes(lang, a, b, vars)
      {
        SequentialComposition(lang, a, b, vars);
      }
    } else {
      LookingBreaks(a, b);
    }
  }

  // ----- Targets that repeat -----

  /** Assigns the constant "1" without a type. */
  function AnyOne(target: string): Expr {
    Expr(target, "", "", Data("1"), "Any", [], Some(ANY), false)
  }

  /** Assigns the constant "2" as a number. */
  function Two(target: string): Expr {
    Expr(target, "", "", Data("2"), "Integer", [], Some("Integer"), false)
  }

  /** What "1" becomes, next to a variable of the same name or not. */
  function AnyValue(lang: Lang, earlier: Option<TypedValue>): Result<TypedValue> {
    var one := Untyped(Data("1"));
    var tv :- OrCastFailed(if earlier.Some? then lang.castLike(earlier.value, one) else lang.typify(Data("1")));
    Conform(lang, ANY, one, tv)
  }

  function Earlier(out: Vars, target: string): Option<TypedValue> {
    if target in out then Some(out[target]) else None
  }

  function TwoValue(lang: Lang): Result<TypedValue> {
    Cast(lang, "Integer", Untyped(Data("2")))
  }

  function Assigned(s: Scopes, target: string, r: Result<TypedValue>): Result<Scopes> {
    if r.Err? then Err(r.failure) else Ok(Scopes(s.scope[target := r.value], s.out[target := r.value]))
  }

  lemma ConstantSteps(lang: Lang, target: string, s: Scopes)
    requires Simple(target)
    ensures EvalOne(lang, AnyOne(target), s) == Assigned(s, target, AnyValue(lang, Earlier(s.out, target)))
    ensures EvalOne(lang, Two(target), s) == Assigned(s, target, TwoValue(lang))
  {
  }

  lemma EvalFromCons(lang: Lang, e: Expr, ee: seq<Expr>, s: Scopes)
    ensures EvalFrom(lang, [e] + ee, s)
            == (var r := EvalOne(lang, e, s); if r.Err? then Err(r.failure) else EvalFrom(lang, ee, r.value))
  {
    assert ([e] + ee)[1..] == ee;
  }

  // The second set, from a state in which x is converted already or not.
  lemma RunSecond(lang: Lang, s: Scopes, x: TypedValue)
    requires s.out == map["x" := x] || s.out == map[]
    requires AnyValue(lang, None) == Ok(x)
    ensures var y, two := AnyValue(lang, Some(x)), TwoValue(lang);
            var r := EvalFrom(lang, [AnyOne("y"), AnyOne("y"), AnyOne("x"), Two("x")], s);
            if y.Err? then r == Err(y.failure)
            else if two.Err? then r == Err(two.failure)
            else r.Ok? && r.value.out == map["x" := two.value, "y" := y.value]
  {
    hide EvalOne, EvalFrom, AnyValue, TwoValue, AnyOne, Two;
    var e0, e2, e3 := AnyOne("y"), AnyOne("x"), Two("x");
    assert [e0, e0, e2, e3] == [e0] + ([e0] + ([e2] + ([e3] + [])));
    EvalFromCons(lang, e0, [e0] + ([e2] + ([e3] + [])), s);
    ConstantSteps(lang, "y", s);
    var s1 := Scopes(s.scope["y" := x], s.out["y" := x]);
    EvalFromCons(lang, e0, [e2] + ([e3] + []), s1);
    ConstantSteps(lang, "y", s1);
    var y := AnyValue(lang, Some(x));
    if y.Ok? {
      var s2 := Scopes(s1.scope["y" := y.value], s1.out["y" := y.value]);
      RunRest(lang, s2, x, y.value);
    }
  }

  lemma RunRest(lang: Lang, s: Scopes, x: TypedValue, y: TypedValue)
    requires s.out == map["x" := x, "y" := y] || s.out == map["y" := y]
    requires AnyValue(lang, None) == Ok(x) && AnyValue(lang, Some(x)) == Ok(y)
    ensures var two := TwoValue(lang);
            var r := EvalFrom(lang, [AnyOne("x")] + ([Two("x")] + []), s);
            if two.Err? then r == Err(two.failure) else r.Ok? && r.value.out == map["x" := two.value, "y" := y]
  {
    hide EvalOne, AnyValue, TwoValue, AnyOne, Two;
    var e2, e3 := AnyOne("x"), Two("x");
    EvalFromCons(lang, e2, [e3] + [], s);
    ConstantSteps(lang, "x", s);
    var again := AnyValue(lang, Earlier(s.out, "x")).value;
    var s3 := Scopes(s.scope["x" := again], s.out["x" := again]);
    EvalFromCons(lang, e3, [], s3);
    ConstantSteps(lang, "x", s3);
  }

  /**
   Distinct targets are needed for the equivalence: here the second set takes a type from the first and
   still composes with it always, since it makes the same conversion on another variable before, and
   assigns the first one once more after.
   */
  lemma RepeatedTargetsMayCompose(lang: Lang, vars: Vars)
    ensures var a, b := [AnyOne("x")], [AnyOne("y"), AnyOne("y"), AnyOne("x"), Two("x")];
            Composes(lang, a, b, vars) && !Oblivious(b, Targets(a), {})
  {
    ThirdLooks();
    var a, b := [AnyOne("x")], [AnyOne("y"), AnyOne("y"), AnyOne("x"), Two("x")];
    var s := Scopes(vars, map[]);
    EvalFromAppend(lang, a, b, s);
    EvalFromSingle(lang, AnyOne("x"), s);
    ConstantSteps(lang, "x", s);
    hide EvalOne, EvalFrom, AnyValue, TwoValue, AnyOne, Two, Oblivious;
    var x := AnyValue(lang, None);
    if x.Ok? {
      var o: Vars := map["x" := x.value];
      assert s.out["x" := x.value] == o && vars + o == vars["x" := x.value];
      RunSecond(lang, Scopes(vars + o, o), x.value);
      RunSecond(lang, Scopes(vars + o, map[]), x.value);
      Overridden(x.value);
    }
  }

  lemma Overridden(x: TypedValue)
    ensures forall y: TypedValue, z: TypedValue :: map["x" := x] + map["x" := z, "y" := y] == map["x" := z, "y" := y]
  {
  }

  lemma ThirdLooks()
    ensures !Oblivious([AnyOne("y"), AnyOne("y"), AnyOne("x"), Two("x")], Targets([AnyOne("x")]), {})
  {
    var k := Targets([AnyOne("x")]);
    assert AnyOne("x") in [AnyOne("x")] && "x" in k;
    var b := [AnyOne("y"), AnyOne("y"), AnyOne("x"), Two("x")];
    assert b[1..] == [AnyOne("y"), AnyOne("x"), Two("x")] && b[1..][1..] == [AnyOne("x"), Two("x")];
    assert !Blind(AnyOne("x"), k, {} + {"y"} + {"y"});
    assert !Oblivious(b[1..][1..], k, {} + {"y"} + {"y"});
    assert !Oblivious(b[1..], k, {} + {"y"});
  }
}
