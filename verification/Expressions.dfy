/**
 Evaluation of an expression set (automation/types/expr.go:107-220).

 The expression language, the casts and assignments deep into a value are a parameter
 (`Lang`); every result below holds for all of them.
 */
module Expressions {
  import opened WorkflowTypes

  /** What an evaluator answers: a value even when it fails. */
  datatype Evaluated = Evaluated(value: Value, ok: bool)

  /**
   `cast(t, v)` is the Cast of the type named t, whose result has that type;
   `castLike(tv, v)` is the Cast of the value tv itself; `assign` and `select` handle
   paths that are not `Simple`.
   */
  datatype Lang = Lang(
    eval: (string, Vars) -> Evaluated,
    cast: (string, Value) -> Option<Raw>,
    castLike: (TypedValue, Value) -> Option<TypedValue>,
    typify: Raw -> Option<TypedValue>,
    assign: (Vars, string, TypedValue) -> Option<Vars>,
    select: (Vars, string) -> Evaluated)

  datatype Failure =
    | TypeNotInitialized
    | NoSuchVariable
    | SelectFailed
    | EvalNotInitialized
    | EvalFailed
    | CastFailed
    | TypeMismatch
    | AssignFailed

  datatype Result<+T> = Ok(value: T) | Err(failure: Failure) {
    predicate IsFailure() { Err? }
    function PropagateFailure<U>(): Result<U> requires Err? { Err(failure) }
    function Extract(): T requires Ok? { value }
  }

  /** Working scope and output scope of an evaluation. */
  datatype Scopes = Scopes(scope: Vars, out: Vars)

  function PathBase(path: string): (r: string)
    ensures Simple(path) ==> r == path
  {
    if path == "" || path[0] == '.' then "" else [path[0]] + PathBase(path[1..])
  }

  /** The value an expression denotes before typing, and why it may have none. */
  function Fetch(lang: Lang, e: Expr, scope: Vars): (Value, Option<Failure>) {
    if e.source != "" then
      if e.source !in scope then (Untyped(e.value), Some(NoSuchVariable))
      else if Simple(e.source) then (AsValue(scope[e.source]), None)
      else
        var r := lang.select(scope, e.source);
        (r.value, if r.ok then None else Some(SelectFailed))
    else if e.expr != "" then
      if !e.compiled then (Untyped(e.value), Some(EvalNotInitialized))
      else
        var r := lang.eval(e.expr, scope);
        (r.value, if r.ok then None else Some(EvalFailed))
    else (Untyped(e.value), None)
  }

  function Cast(lang: Lang, t: string, v: Value): Result<TypedValue> {
    match lang.cast(t, v)
    case None => Err(CastFailed)
    case Some(r) => Ok(TypedValue.TypedValue(t, r))
  }

  function OrCastFailed(r: Option<TypedValue>): Result<TypedValue> {
    if r.Some? && r.value.TypedValue? then Ok(r.value) else Err(CastFailed)
  }

  /** First typing: an untyped value gets some type. */
  function Typing(lang: Lang, e: Expr, t: string, v: Value, out: Vars): (r: Result<TypedValue>)
    ensures r.Ok? ==> r.value.TypedValue?
  {
    match v
    case Typed(t', raw) => Ok(TypedValue.TypedValue(t', raw))
    case Untyped(raw) =>
      if KnownType(t) then Cast(lang, t, v)
      else if e.target in out then OrCastFailed(lang.castLike(out[e.target], v))
      else OrCastFailed(lang.typify(raw))
  }

  /** Second typing: the value is brought to the type of the expression. */
  function Conform(lang: Lang, t: string, v: Value, tv: TypedValue): (r: Result<TypedValue>)
    requires tv.TypedValue?
    ensures r.Ok? ==> r.value.TypedValue? && (KnownType(t) ==> r.value.typ == t)
  {
    if !KnownType(t) && !KnownType(tv.typ) && tv.typ != t then Err(TypeMismatch)
    else if !KnownType(tv.typ) then Cast(lang, t, v)
    else if t != tv.typ && t != ANY then Cast(lang, t, v)
    else Ok(tv)
  }

  function Assign(lang: Lang, scope: Vars, target: string, tv: TypedValue): Result<Vars> {
    if Simple(target) then Ok(scope[target := tv])
    else match lang.assign(scope, target, tv)
      case None => Err(AssignFailed)
      case Some(s) => Ok(s)
  }

  function Copied(scope: Vars, out: Vars, k: string): Vars {
    out[k := if k in scope then scope[k] else NoValue]
  }

  /** One iteration of the evaluation loop. */
  function EvalOne(lang: Lang, e: Expr, s: Scopes): Result<Scopes> {
    if e.typ.None? then Err(TypeNotInitialized)
    else
      var (v, failed) := Fetch(lang, e, s.scope);
      if failed.Some? && e.value.Nil? then Err(failed.value)
      else
        var tv :- Typing(lang, e, e.typ.value, v, s.out);
        var tv' :- Conform(lang, e.typ.value, v, tv);
        var scope :- Assign(lang, s.scope, e.target, tv');
        Ok(Scopes(scope, Copied(scope, s.out, PathBase(e.target))))
  }

  function EvalFrom(lang: Lang, ee: seq<Expr>, s: Scopes): Result<Scopes>
    decreases |ee|
  {
    if ee == [] then Ok(s)
    else
      var s' :- EvalOne(lang, ee[0], s);
      EvalFrom(lang, ee[1..], s')
  }

  /** What the evaluation of a set means: its output variables, or the first failure. */
  function EvalSet(lang: Lang, ee: seq<Expr>, vars: Vars): Result<Vars> {
    var s :- EvalFrom(lang, ee, Scopes(vars, map[]));
    Ok(s.out)
  }

  /** The loop itself. */
  method Eval(lang: Lang, ee: seq<Expr>, vars: Vars) returns (r: Result<Vars>)
    ensures r == EvalSet(lang, ee, vars)
  {
    var scope: Vars := vars;
    var out: Vars := map[];
    for i := 0 to |ee|
      invariant EvalFrom(lang, ee, Scopes(vars, map[])) == EvalFrom(lang, ee[i..], Scopes(scope, out))
    {
      var e := ee[i];
      assert ee[i..][0] == e && ee[i..][1..] == ee[i + 1..];
      if e.typ.None? {
        return Err(TypeNotInitialized);
      }
      var (value, failed) := Fetch(lang, e, scope);
      if failed.Some? && e.value.Nil? {
        return Err(failed.value);
      }
      var typed := Typing(lang, e, e.typ.value, value, out);
      if typed.Err? {
        return Err(typed.failure);
      }
      var conformed := Conform(lang, e.typ.value, value, typed.value);
      if conformed.Err? {
        return Err(conformed.failure);
      }
      var written := Assign(lang, scope, e.target, conformed.value);
      if written.Err? {
        return Err(written.failure);
      }
      scope := written.value;
      out := Copied(scope, out, PathBase(e.target));
    }
    return Ok(out);
  }

  // Evaluation follows concatenation.
  lemma {:induction false} EvalFromAppend(lang: Lang, a: seq<Expr>, b: seq<Expr>, s: Scopes)
    ensures EvalFrom(lang, a + b, s) ==
            (var m := EvalFrom(lang, a, s); if m.Err? then Err(m.failure) else EvalFrom(lang, b, m.value))
    decreases |a|
  {
    if a == [] {
      assert a + b == b;
    } else {
      assert (a + b)[0] == a[0] && (a + b)[1..] == a[1..] + b;
      var s' := EvalOne(lang, a[0], s);
      if s'.Ok? {
        EvalFromAppend(lang, a[1..], b, s'.value);
      }
    }
  }

  // The output is what was written, and the scope is the input overridden by it.
  lemma {:induction false} ScopeIsInputPlusOutput(lang: Lang, ee: seq<Expr>, vars: Vars, s: Scopes)
    requires SimpleTargets(ee)
    requires s.scope == vars + s.out
    ensures var r := EvalFrom(lang, ee, s);
            r.Ok? ==> r.value.scope == vars + r.value.out && r.value.out.Keys == s.out.Keys + Targets(ee)
    decreases |ee|
  {
    hide EvalOne;
    if ee != [] {
      TargetsCons(ee);
      var s' := EvalOne(lang, ee[0], s);
      if s'.Ok? {
        AssignsTarget(lang, ee[0], s);
        assert s'.value.scope == vars + s'.value.out;
        ScopeIsInputPlusOutput(lang, ee[1..], vars, s'.value);
      }
    }
  }

  lemma AssignsTarget(lang: Lang, e: Expr, s: Scopes)
    requires Simple(e.target) && EvalOne(lang, e, s).Ok?
    ensures var r := EvalOne(lang, e, s).value;
            && e.target in r.scope && r.scope == s.scope[e.target := r.scope[e.target]]
            && r.out == s.out[e.target := r.scope[e.target]] && r.scope[e.target].TypedValue?
  {
  }

  lemma TargetsCons(ee: seq<Expr>)
    requires ee != []
    ensures Targets(ee) == {ee[0].target} + Targets(ee[1..])
  {
    assert forall e :: e in ee <==> e == ee[0] || e in ee[1..];
  }

  /**
   The expression does not look at output under the targets k, where `done` is assigned already: it
   has a type, or another target, or its value is copied from an assigned and so typed variable.
   */
  predicate Blind(e: Expr, k: set<string>, done: set<string>) {
    e.typ.Some? && !KnownType(e.typ.value) && e.target in k - done ==> Simple(e.source) && e.source in k + done
  }

  predicate Oblivious(ee: seq<Expr>, k: set<string>, done: set<string>)
    decreases |ee|
  {
    ee != [] ==> Blind(ee[0], k, done) && Oblivious(ee[1..], k, done + {ee[0].target})
  }

  /** Puts earlier output under the output of an evaluation. */
  function Over(o: Vars, r: Result<Scopes>): Result<Scopes> {
    if r.Err? then r else Ok(Scopes(r.value.scope, o + r.value.out))
  }

  predicate TypedIn(scope: Vars, names: set<string>) {
    forall x | x in names :: x in scope && scope[x].TypedValue?
  }

  // Earlier output only passes through.
  lemma {:induction false} EarlierOutputPassesThrough(lang: Lang, ee: seq<Expr>, o: Vars, s: Scopes)
    requires SimpleTargets(ee) && Oblivious(ee, o.Keys, s.out.Keys) && TypedIn(s.scope, o.Keys + s.out.Keys)
    ensures EvalFrom(lang, ee, Scopes(s.scope, o + s.out)) == Over(o, EvalFrom(lang, ee, s))
    decreases |ee|
  {
    hide EvalOne, Blind;
    if ee != [] {
      assert ee[0] in ee;
      EarlierOutputOne(lang, ee[0], o, s);
      var s' := EvalOne(lang, ee[0], s);
      if s'.Ok? {
        AssignsTarget(lang, ee[0], s);
        assert s'.value.out.Keys == s.out.Keys + {ee[0].target};
        EarlierOutputPassesThrough(lang, ee[1..], o, s'.value);
      }
    }
  }

  lemma EarlierOutputOne(lang: Lang, e: Expr, o: Vars, s: Scopes)
    requires Simple(e.target) && Blind(e, o.Keys, s.out.Keys) && TypedIn(s.scope, o.Keys + s.out.Keys)
    ensures EvalOne(lang, e, Scopes(s.scope, o + s.out)) == Over(o, EvalOne(lang, e, s))
  {
    if e.typ.Some? {
      var v := Fetch(lang, e, s.scope).0;
      SameTyping(lang, e, v, o, s);
    }
    hide Fetch, Typing, Conform;
    var r := EvalOne(lang, e, s);
    if r.Ok? {
      assert o + Copied(r.value.scope, s.out, e.target) == Copied(r.value.scope, o + s.out, e.target);
    }
  }

  lemma SameTyping(lang: Lang, e: Expr, v: Value, o: Vars, s: Scopes)
    requires e.typ.Some? && Blind(e, o.Keys, s.out.Keys) && TypedIn(s.scope, o.Keys + s.out.Keys)
    requires v == Fetch(lang, e, s.scope).0
    ensures Typing(lang, e, e.typ.value, v, o + s.out) == Typing(lang, e, e.typ.value, v, s.out)
  {
  }

  lemma {:induction false} OutputIsTyped(lang: Lang, ee: seq<Expr>, s: Scopes)
    requires SimpleTargets(ee) && TypedIn(s.out, s.out.Keys)
    ensures var r := EvalFrom(lang, ee, s); r.Ok? ==> TypedIn(r.value.out, r.value.out.Keys)
    decreases |ee|
  {
    hide EvalOne;
    if ee != [] {
      assert ee[0] in ee;
      var s' := EvalOne(lang, ee[0], s);
      if s'.Ok? {
        AssignsTarget(lang, ee[0], s);
        OutputIsTyped(lang, ee[1..], s'.value);
      }
    }
  }

  /** Evaluating `a ++ b` is evaluating `a`, then `b` in the scope that `a` leaves, and merging. */
  predicate Composes(lang: Lang, a: seq<Expr>, b: seq<Expr>, vars: Vars) {
    EvalSet(lang, a + b, vars) ==
    (var ra := EvalSet(lang, a, vars);
     if ra.Err? then ra
     else
       var rb := EvalSet(lang, b, vars + ra.value);
       if rb.Err? then rb else Ok(ra.value + rb.value))
  }

  /**
   Sequential composition: evaluating two sets at once is evaluating one after the other and merging
   both outputs, the first failure winning on both sides, if the second does not look at the output
   of the first.
   */
  lemma SequentialComposition(lang: Lang, a: seq<Expr>, b: seq<Expr>, vars: Vars)
    requires SimpleTargets(a) && SimpleTargets(b)
    requires Oblivious(b, Targets(a), {})
    ensures Composes(lang, a, b, vars)
  {
    hide EvalOne, Oblivious;
    var s := Scopes(vars, map[]);
    EvalFromAppend(lang, a, b, s);
    assert s.scope == vars + s.out;
    ScopeIsInputPlusOutput(lang, a, vars, s);
    OutputIsTyped(lang, a, s);
    var m := EvalFrom(lang, a, s);
    if m.Ok? {
      var o := m.value.out;
      assert o.Keys == Targets(a);
      assert o + map[] == o;
      assert o.Keys + {} == o.Keys;
      EarlierOutputPassesThrough(lang, b, o, Scopes(vars + o, map[]));
    }
  }

  // The output domain is exactly the set of targets.
  lemma OutputDomain(lang: Lang, ee: seq<Expr>, vars: Vars)
    requires SimpleTargets(ee)
    ensures var r := EvalSet(lang, ee, vars); r.Ok? ==> r.value.Keys == Targets(ee)
  {
    var s := Scopes(vars, map[]);
    assert s.scope == vars + s.out;
    ScopeIsInputPlusOutput(lang, ee, vars, s);
  }

  /** A language in which every cast succeeds and keeps the payload. */
  function Lenient(): Lang {
    Lang(
      (e: string, vars: Vars) => Evaluated(Untyped(Nil), true),
      (t: string, v: Value) => Some(v.raw),
      (tv: TypedValue, v: Value) => if tv.TypedValue? then Some(TypedValue.TypedValue(tv.typ, v.raw)) else None,
      (r: Raw) => Some(TypedValue.TypedValue("String", r)),
      (vars: Vars, path: string, tv: TypedValue) => None,
      (vars: Vars, path: string) => Evaluated(Untyped(Nil), true))
  }

  /**
   Untyped expressions do look at earlier output, and then the law may fail: here the second set
   reassigns a target of the first without a type of its own.
   */
  lemma CompositionNeedsTypes()
    ensures var lang := Lenient();
            var a := [Expr("x", "", "", Data("1"), "Integer", [], Some("Integer"), false)];
            var b := [Expr("x", "", "", Data("2"), "Any", [], Some(ANY), false)];
            && EvalSet(lang, a + b, map[]) == Ok(map["x" := TypedValue.TypedValue("Integer", Data("2"))])
            && EvalSet(lang, a, map[]).Ok? && !Composes(lang, a, b, map[])
            && EvalSet(lang, b, map[] + EvalSet(lang, a, map[]).value)
               == Ok(map["x" := TypedValue.TypedValue("String", Data("2"))])
  {
    var lang := Lenient();
    var a := Expr("x", "", "", Data("1"), "Integer", [], Some("Integer"), false);
    var b := Expr("x", "", "", Data("2"), "Any", [], Some(ANY), false);
    assert PathBase("x") == "x";
    var v1 := TypedValue.TypedValue("Integer", Data("1"));
    var v2 := TypedValue.TypedValue("Integer", Data("2"));
    var v3 := TypedValue.TypedValue("String", Data("2"));
    var x1: Vars := map["x" := v1];
    assert x1["x" := v2] == map["x" := v2] && x1["x" := v3] == map["x" := v3];
    var s0 := Scopes(map[], map[]);
    assert EvalOne(lang, a, s0) == Ok(Scopes(x1, x1));
    EvalFromSingle(lang, a, s0);
    EvalFromAppend(lang, [a], [b], s0);
    EvalFromSingle(lang, b, Scopes(x1, x1));
    assert map[] + x1 == x1;
    EvalFromSingle(lang, b, Scopes(x1, map[]));
  }

  lemma EvalFromSingle(lang: Lang, e: Expr, s: Scopes)
    ensures EvalFrom(lang, [e], s) == EvalOne(lang, e, s)
  {
    assert [e][1..] == [];
  }
}
