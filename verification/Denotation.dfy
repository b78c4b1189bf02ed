/**
 What the output of an expression set is, told variable by variable from the source, the expression or
 the constant, and not from the steps of the evaluation (automation/types/expr.go:107-220).
 */
module Denotation {
  import opened WorkflowTypes
  import opened Expressions

  /** The expression yields the value in the scope: by copying, selecting, evaluating or as a constant. */
  predicate Yields(lang: Lang, e: Expr, scope: Vars, v: Value) {
    if e.source != "" then
      && e.source in scope
      && if Simple(e.source) then v == AsValue(scope[e.source]) else lang.select(scope, e.source) == Evaluated(v, true)
    else if e.expr != "" then e.compiled && lang.eval(e.expr, scope) == Evaluated(v, true)
    else v == Untyped(e.value)
  }

  /**
   The variable that a value becomes under a type, next to an earlier variable of the same name: values of
   the type stay, others are cast; without a type typed values stay and others take the type of the
   earlier variable, or some type.
   */
  function Becomes(lang: Lang, t: string, v: Value, earlier: Option<TypedValue>): Option<TypedValue> {
    if KnownType(t) then
      if v.Typed? && v.typ == t then Some(TypedValue.TypedValue(t, v.raw)) else CastTo(lang, t, v)
    else
      match v
      case Typed(t', raw) =>
        if KnownType(t') then Some(TypedValue.TypedValue(t', raw))
        else if t' == ANY then CastTo(lang, ANY, v)
        else None
      case Untyped(raw) =>
        var tv := if earlier.Some? then lang.castLike(earlier.value, v) else lang.typify(raw);
        if tv.None? || tv.value.NoValue? then None
        else if KnownType(tv.value.typ) then tv
        else if tv.value.typ == ANY then CastTo(lang, ANY, v)
        else None
  }

  function CastTo(lang: Lang, t: string, v: Value): Option<TypedValue> {
    match lang.cast(t, v)
    case None => None
    case Some(r) => Some(TypedValue.TypedValue(t, r))
  }

  function Earlier(out: Vars, x: string): Option<TypedValue> {
    if x in out then Some(out[x]) else None
  }

  /** A type as conversion sets it. */
  predicate TypeSet(e: Expr) {
    e.typ.Some? && e.typ.value != UNRESOLVED
  }

  lemma OneDenotes(lang: Lang, e: Expr, s: Scopes, v: Value)
    requires Simple(e.target) && TypeSet(e) && Yields(lang, e, s.scope, v)
    ensures var tv := Becomes(lang, e.typ.value, v, Earlier(s.out, e.target));
            var r := EvalOne(lang, e, s);
            if tv.None? then r.Err?
            else r == Ok(Scopes(s.scope[e.target := tv.value], s.out[e.target := tv.value]))
  {
    assert Fetch(lang, e, s.scope) == (v, None);
    hide Fetch, Yields;
    TypedAsBecomes(lang, e, v, s.out);
  }

  /** A target inside of a variable: the scope is assigned to, and the whole variable is put out. */
  lemma OneDenotesDeep(lang: Lang, e: Expr, s: Scopes, v: Value)
    requires !Simple(e.target) && TypeSet(e) && Yields(lang, e, s.scope, v)
    ensures var tv := Becomes(lang, e.typ.value, v, Earlier(s.out, e.target));
            var r := EvalOne(lang, e, s);
            if tv.None? || lang.assign(s.scope, e.target, tv.value).None? then r.Err?
            else
              var scope, base := lang.assign(s.scope, e.target, tv.value).value, UpToDot(e.target);
              r == Ok(Scopes(scope, s.out[base := if base in scope then scope[base] else NoValue]))
  {
    assert Fetch(lang, e, s.scope) == (v, None);
    hide Fetch, Yields;
    TypedAsBecomes(lang, e, v, s.out);
    BaseIsUpToDot(e.target);
  }

  /** The path in front of its first dot. */
  function UpToDot(path: string): string {
    if '.' !in path then path else path[..FirstDot(path)]
  }

  function FirstDot(path: string): (i: nat)
    requires '.' in path
    ensures i < |path| && path[i] == '.' && '.' !in path[..i]
  {
    if path[0] == '.' then 0
    else
      var k := FirstDot(path[1..]);
      assert path[..k + 1] == [path[0]] + path[1..][..k];
      k + 1
  }

  lemma {:induction false} BaseIsUpToDot(path: string)
    ensures PathBase(path) == UpToDot(path)
  {
    if path != "" && path[0] != '.' {
      BaseIsUpToDot(path[1..]);
      if '.' in path {
        assert '.' in path[1..];
        assert path[..FirstDot(path)] == [path[0]] + path[1..][..FirstDot(path[1..])];
      }
    }
  }

  lemma TypedAsBecomes(lang: Lang, e: Expr, v: Value, out: Vars)
    requires TypeSet(e)
    ensures var t := e.typ.value;
            var tv := Becomes(lang, t, v, Earlier(out, e.target));
            var typed := Typing(lang, e, t, v, out);
            if tv.None? then typed.Err? || Conform(lang, t, v, typed.value).Err?
            else typed.Ok? && Conform(lang, t, v, typed.value) == Ok(tv.value)
  {
  }

  lemma OneFails(lang: Lang, e: Expr, s: Scopes)
    requires Simple(e.target) && TypeSet(e) && e.value.Nil? && forall v :: !Yields(lang, e, s.scope, v)
    ensures EvalOne(lang, e, s).Err?
  {
    var (v, failed) := Fetch(lang, e, s.scope);
    assert failed.None? ==> Yields(lang, e, s.scope, v);
  }

  // An evaluation and one more expression, told by outputs.
  lemma OneMore(lang: Lang, ee: seq<Expr>, e: Expr, vars: Vars)
    requires SimpleTargets(ee)
    ensures var before := EvalSet(lang, ee, vars);
            var r := EvalSet(lang, ee + [e], vars);
            if before.Err? then r == before
            else
              var one := EvalOne(lang, e, Scopes(vars + before.value, before.value));
              if one.Err? then r == Err(one.failure) else r == Ok(one.value.out)
  {
    hide EvalOne;
    var s := Scopes(vars, map[]);
    EvalFromAppend(lang, ee, [e], s);
    assert s.scope == vars + s.out;
    ScopeIsInputPlusOutput(lang, ee, vars, s);
    var m := EvalFrom(lang, ee, s);
    if m.Ok? {
      EvalFromSingle(lang, e, m.value);
      assert m.value == Scopes(vars + m.value.out, m.value.out);
    }
  }

  /**
   What one more expression adds: if it yields a value in input plus earlier output, the evaluation goes
   on exactly if the value becomes something under its type, and the output is the earlier one with that
   variable; if it yields none and has no default, the evaluation fails.
   */
  lemma OutputOfOneMore(lang: Lang, ee: seq<Expr>, e: Expr, vars: Vars)
    requires SimpleTargets(ee + [e]) && TypeSet(e) && EvalSet(lang, ee, vars).Ok?
    ensures var out := EvalSet(lang, ee, vars).value;
            var r := EvalSet(lang, ee + [e], vars);
            && (forall v | Yields(lang, e, vars + out, v) ::
                  var tv := Becomes(lang, e.typ.value, v, Earlier(out, e.target));
                  if tv.None? then r.Err? else r == Ok(out[e.target := tv.value]))
            && ((forall v :: !Yields(lang, e, vars + out, v)) && e.value.Nil? ==> r.Err?)
  {
    assert e in ee + [e];
    assert SimpleTargets(ee) by {
      forall x | x in ee
        ensures Simple(x.target)
      {
        assert x in ee + [e];
      }
    }
    OneMore(lang, ee, e, vars);
    var out := EvalSet(lang, ee, vars).value;
    var s := Scopes(vars + out, out);
    hide EvalOne, Yields, Becomes, EvalSet;
    forall v | Yields(lang, e, s.scope, v)
      ensures var tv := Becomes(lang, e.typ.value, v, Earlier(out, e.target));
              var r := EvalOne(lang, e, s);
              if tv.None? then r.Err? else r == Ok(Scopes(s.scope[e.target := tv.value], out[e.target := tv.value]))
    {
      OneDenotes(lang, e, s, v);
    }
    if (forall v :: !Yields(lang, e, s.scope, v)) && e.value.Nil? {
      OneFails(lang, e, s);
    }
  }

  /**
   For each position: the variable that the i-th expression assigns and none after it assigns again is, in
   the end, what the value it yields in input plus earlier output becomes under its type.
   */
  lemma {:induction false} OutputIsWhatLastYields(lang: Lang, ee: seq<Expr>, vars: Vars, i: nat, v: Value)
    requires SimpleTargets(ee) && i < |ee| && TypeSet(ee[i]) && EvalSet(lang, ee, vars).Ok?
    requires forall j | i < j < |ee| :: ee[j].target != ee[i].target
    requires EvalSet(lang, ee[..i], vars).Ok? ==> Yields(lang, ee[i], vars + EvalSet(lang, ee[..i], vars).value, v)
    ensures var before := EvalSet(lang, ee[..i], vars);
            && before.Ok? && ee[i].target in EvalSet(lang, ee, vars).value
            && Some(EvalSet(lang, ee, vars).value[ee[i].target])
               == Becomes(lang, ee[i].typ.value, v, Earlier(before.value, ee[i].target))
    decreases |ee|
  {
    hide EvalSet, EvalOne, Yields, Becomes;
    var n := |ee| - 1;
    var init, last := ee[..n], ee[n];
    assert ee == init + [last];
    OneMore(lang, init, last, vars);
    if i == n {
      OutputOfOneMore(lang, init, last, vars);
    } else {
      assert init[..i] == ee[..i] && init[i] == ee[i];
      OutputIsWhatLastYields(lang, init, vars, i, v);
      var out := EvalSet(lang, init, vars).value;
      assert last in ee;
      AssignsTarget(lang, last, Scopes(vars + out, out));
    }
  }
}
