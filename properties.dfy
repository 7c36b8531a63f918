/**
 * What the evaluator of src/interpreter.js guarantees, proved about the
 * model in module Interpreter: the meaning of each tag, lexical scoping,
 * positional binding, left-to-right evaluation and where evaluation
 * fails, that more fuel never changes an answer, and how terms built by
 * src/dsl.js evaluate.
 */
module Properties {
  import opened Terms
  import Dsl
  import Scope
  import opened Interpreter
  import PropertyKeys

  /** A `'d'` node yields its payload verbatim, even a payload shaped like a term. */
  lemma MetaDataVerbatim(preds: PredicateSet, fuel: nat, x: Value, ctx: Ctx)
    ensures Eval(preds, fuel, D(x), ctx) == Ok(x)
    ensures Eval(preds, fuel, D(Arr([Str("v"), Str("x")])), Root) == Ok(Arr([Str("v"), Str("x")]))
  {
  }

  /** A `'v'` node yields the binding of the innermost frame that owns the name. */
  lemma VariableNearestBinding(preds: PredicateSet, fuel: nat, ctx: Ctx, name: string, k: nat)
    requires k < |Scope.Chain(ctx)| && name in Scope.Chain(ctx)[k]
    requires forall j :: 0 <= j < k ==> name !in Scope.Chain(ctx)[j]
    ensures Eval(preds, fuel, V(name), ctx) == Ok(Scope.Chain(ctx)[k][name])
  {
    Scope.LookupNearest(ctx, name, k);
  }

  /** A `'v'` node fails with "unexpected variable" exactly when no frame owns the name. */
  lemma VariableUnbound(preds: PredicateSet, fuel: nat, ctx: Ctx, name: string)
    ensures Eval(preds, fuel, V(name), ctx).Err? <==> forall k :: 0 <= k < |Scope.Chain(ctx)| ==> name !in Scope.Chain(ctx)[k]
    ensures Eval(preds, fuel, V(name), ctx).Err? ==> Eval(preds, fuel, V(name), ctx).error == UnexpectedVariable(name)
  {
    Scope.LookupFailsIffUnbound(ctx, name);
  }

  /** A run starts from a root scope with no bindings, so a free variable always fails there. */
  lemma TopLevelFreeVariable(preds: PredicateSet, fuel: nat, name: string)
    ensures Run(preds, fuel, V(name)) == Err(UnexpectedVariable(name))
  {
  }

  /**
   * An `'l'` node does not evaluate its body (a body that would fail
   * still yields a closure); the closure keeps the node's parameters and
   * body, the scope it is evaluated in and the run's predicate set.
   */
  lemma AbstractionCapturesScope(preds: PredicateSet, fuel: nat, params: seq<string>, body: Term, ctx: Ctx)
    ensures Eval(preds, fuel, L(params, body), ctx).Ok?
    ensures Eval(preds, fuel, L(params, body), ctx).value.Closure?
    ensures Eval(preds, fuel, L(params, body), ctx).value.params == params
    ensures Eval(preds, fuel, L(params, body), ctx).value.body == body
    ensures Eval(preds, fuel, L(params, body), ctx).value.env == ctx
    ensures Eval(preds, fuel, L(params, body), ctx).value.preds == preds
    ensures Eval(preds, 0, L([], V("unbound")), Root) == Ok(Closure([], V("unbound"), Root, preds))
  {
  }

  /**
   * Calling a closure evaluates its body in a fresh frame of its own
   * parameters whose parent is the captured scope, under the predicate
   * set of the run that made it: neither the caller's scope nor the
   * caller's predicate set plays a part.
   */
  lemma ClosureCallIsLexical(preds1: PredicateSet, preds2: PredicateSet, fuel: nat, clo: Value, argTerms: seq<Term>,
                             caller1: Ctx, caller2: Ctx)
    requires clo.Closure?
    requires EvalArgs(preds1, fuel, argTerms, caller1) == EvalArgs(preds2, fuel, argTerms, caller2)
    ensures Eval(preds1, fuel, A(D(clo), argTerms), caller1) == Eval(preds2, fuel, A(D(clo), argTerms), caller2)
    ensures EvalArgs(preds1, fuel, argTerms, caller1).Ok? && fuel > 0 ==>
      Eval(preds1, fuel, A(D(clo), argTerms), caller1)
        == Eval(clo.preds, fuel - 1, clo.body,
                Frame(Scope.Bind(clo.params, EvalArgs(preds1, fuel, argTerms, caller1).value), clo.env))
  {
  }

  /**
   * A closure made by the run for `preds` and later called inside a run
   * for another predicate set `other` still resolves its predicates in
   * `preds`.
   */
  lemma ClosureKeepsItsPredicateSet(preds: PredicateSet, other: PredicateSet, fuel: nat, params: seq<string>, body: Term,
                                    ctx: Ctx, argTerms: seq<Term>, caller: Ctx)
    requires fuel > 0 && EvalArgs(other, fuel, argTerms, caller).Ok?
    ensures Eval(other, fuel, A(D(Eval(preds, 0, L(params, body), ctx).value), argTerms), caller)
         == Eval(preds, fuel - 1, body, Frame(Scope.Bind(params, EvalArgs(other, fuel, argTerms, caller).value), ctx))
  {
  }

  /** A parameter without an argument is still an own binding, to `undefined`, hiding any outer one. */
  lemma MissingArgumentShadows(preds: PredicateSet, fuel: nat, params: seq<string>, args: seq<Value>, env: Ctx, i: nat)
    requires i < |params| && |args| <= i
    requires forall j :: i < j < |params| ==> params[j] != params[i]
    ensures Eval(preds, fuel, V(params[i]), Frame(Scope.Bind(params, args), env)) == Ok(Undef)
  {
    Scope.BindAt(params, args, i);
  }

  /** An argument list evaluates exactly when each argument does, to the values in the same order. */
  lemma {:induction false} EvalArgsOk(preds: PredicateSet, fuel: nat, ts: seq<Term>, ctx: Ctx, vs: seq<Value>)
    ensures EvalArgs(preds, fuel, ts, ctx) == Ok(vs)
        <==> |vs| == |ts| && forall i :: 0 <= i < |ts| ==> Eval(preds, fuel, ts[i], ctx) == Ok(vs[i])
  {
    if ts != [] {
      EvalArgsOk(preds, fuel, ts[1..], ctx, if vs == [] then [] else vs[1..]);
      if |vs| == |ts| && forall i :: 0 <= i < |ts| ==> Eval(preds, fuel, ts[i], ctx) == Ok(vs[i]) {
        assert Eval(preds, fuel, ts[0], ctx) == Ok(vs[0]);
        forall i | 0 <= i < |ts| - 1
          ensures Eval(preds, fuel, ts[1..][i], ctx) == Ok(vs[1..][i])
        {
          assert ts[1..][i] == ts[i + 1];
        }
        assert vs == [vs[0]] + vs[1..];
      }
      if EvalArgs(preds, fuel, ts, ctx) == Ok(vs) {
        forall i | 1 <= i < |ts|
          ensures Eval(preds, fuel, ts[i], ctx) == Ok(vs[i])
        {
          assert ts[1..][i - 1] == ts[i];
        }
      }
    }
  }

  /**
   * Arguments are evaluated strictly left to right: a failing argument
   * list fails with the error of its first failing argument, every
   * argument before which evaluated.
   */
  lemma {:induction false} EvalArgsFirstError(preds: PredicateSet, fuel: nat, ts: seq<Term>, ctx: Ctx)
    requires EvalArgs(preds, fuel, ts, ctx).Err?
    ensures exists k :: (0 <= k < |ts|
      && Eval(preds, fuel, ts[k], ctx) == Err(EvalArgs(preds, fuel, ts, ctx).error)
      && forall i :: 0 <= i < k ==> Eval(preds, fuel, ts[i], ctx).Ok?)
  {
    var e := EvalArgs(preds, fuel, ts, ctx).error;
    if Eval(preds, fuel, ts[0], ctx).Err? {
      assert Eval(preds, fuel, ts[0], ctx) == Err(e);
    } else {
      EvalArgsFirstError(preds, fuel, ts[1..], ctx);
      var k :| 0 <= k < |ts[1..]|
        && Eval(preds, fuel, ts[1..][k], ctx) == Err(e)
        && forall i :: 0 <= i < k ==> Eval(preds, fuel, ts[1..][i], ctx).Ok?;
      assert ts[1..][k] == ts[k + 1];
      forall i | 0 <= i < k + 1
        ensures Eval(preds, fuel, ts[i], ctx).Ok?
      {
        if i > 0 { assert ts[1..][i - 1] == ts[i]; }
      }
    }
  }

  /**
   * A `'p'` node: an argument that fails aborts the call before the
   * predicate is checked to be a function; otherwise a name that the set
   * does not map to a function fails (the name is one key, so a dotted
   * name is not a path); otherwise the predicate receives the arguments
   * in order.
   */
  lemma PredicateCall(preds: PredicateSet, fuel: nat, name: string, argTerms: seq<Term>, ctx: Ctx, vs: seq<Value>)
    ensures EvalArgs(preds, fuel, argTerms, ctx).Err? ==>
      Eval(preds, fuel, P(name, argTerms), ctx) == Err(EvalArgs(preds, fuel, argTerms, ctx).error)
    ensures (name !in preds || !IsCallable(preds[name])) && EvalArgs(preds, fuel, argTerms, ctx).Ok? ==>
      Eval(preds, fuel, P(name, argTerms), ctx) == Err(PredicateNotCallable(name))
    ensures (name in preds && IsCallable(preds[name])
      && |vs| == |argTerms| && (forall i :: 0 <= i < |argTerms| ==> Eval(preds, fuel, argTerms[i], ctx) == Ok(vs[i]))) ==>
      Eval(preds, fuel, P(name, argTerms), ctx) == Apply(fuel, preds[name], vs)
  {
    EvalArgsOk(preds, fuel, argTerms, ctx, vs);
  }

  /**
   * An `'a'` node evaluates its function position first, then its
   * arguments, and only then fails if the function value is not callable.
   */
  lemma ApplicationOrder(preds: PredicateSet, fuel: nat, fn: Term, argTerms: seq<Term>, ctx: Ctx, f: Value, vs: seq<Value>)
    ensures Eval(preds, fuel, fn, ctx).Err? ==>
      Eval(preds, fuel, A(fn, argTerms), ctx) == Eval(preds, fuel, fn, ctx)
    ensures Eval(preds, fuel, fn, ctx).Ok? && EvalArgs(preds, fuel, argTerms, ctx).Err? ==>
      Eval(preds, fuel, A(fn, argTerms), ctx) == Err(EvalArgs(preds, fuel, argTerms, ctx).error)
    ensures (Eval(preds, fuel, fn, ctx) == Ok(f)
      && |vs| == |argTerms| && (forall i :: 0 <= i < |argTerms| ==> Eval(preds, fuel, argTerms[i], ctx) == Ok(vs[i]))) ==>
      Eval(preds, fuel, A(fn, argTerms), ctx) == (if IsCallable(f) then Apply(fuel, f, vs) else Err(NotCallable(f)))
  {
    EvalArgsOk(preds, fuel, argTerms, ctx, vs);
  }

  /** A term with an unrecognised tag evaluates to `undefined` instead of failing. */
  lemma UnknownTagIsUndefined(preds: PredicateSet, fuel: nat, tag: string, ctx: Ctx)
    requires tag != "d" && tag != "v" && tag != "l" && tag != "p" && tag != "a"
    ensures Eval(preds, fuel, Other(tag), ctx) == Ok(Undef)
  {
  }

  /** An answer found with some fuel is the answer with any larger fuel. */
  lemma {:induction false} EvalFuelMonotone(preds: PredicateSet, fuel: nat, more: nat, t: Term, ctx: Ctx)
    requires fuel <= more
    requires Eval(preds, fuel, t, ctx) != Err(OutOfFuel)
    ensures Eval(preds, more, t, ctx) == Eval(preds, fuel, t, ctx)
    decreases fuel, 4, t
  {
    match t
    case P(name, args) =>
      EvalArgsFuelMonotone(preds, fuel, more, args, ctx);
      var vs := EvalArgs(preds, fuel, args, ctx);
      if vs.Ok? && name in preds && IsCallable(preds[name]) {
        ApplyFuelMonotone(fuel, more, preds[name], vs.value);
      }
    case A(fn, args) =>
      EvalFuelMonotone(preds, fuel, more, fn, ctx);
      var f := Eval(preds, fuel, fn, ctx);
      if f.Ok? {
        EvalArgsFuelMonotone(preds, fuel, more, args, ctx);
        var vs := EvalArgs(preds, fuel, args, ctx);
        if vs.Ok? {
          ApplyFuelMonotone(fuel, more, f.value, vs.value);
        }
      }
    case _ =>
  }

  lemma {:induction false} EvalArgsFuelMonotone(preds: PredicateSet, fuel: nat, more: nat, ts: seq<Term>, ctx: Ctx)
    requires fuel <= more
    requires EvalArgs(preds, fuel, ts, ctx) != Err(OutOfFuel)
    ensures EvalArgs(preds, more, ts, ctx) == EvalArgs(preds, fuel, ts, ctx)
    decreases fuel, 4, ts
  {
    if ts != [] {
      EvalFuelMonotone(preds, fuel, more, ts[0], ctx);
      if Eval(preds, fuel, ts[0], ctx).Ok? {
        EvalArgsFuelMonotone(preds, fuel, more, ts[1..], ctx);
      }
    }
  }

  lemma {:induction false} ApplyFuelMonotone(fuel: nat, more: nat, f: Value, args: seq<Value>)
    requires fuel <= more
    requires Apply(fuel, f, args) != Err(OutOfFuel)
    ensures Apply(more, f, args) == Apply(fuel, f, args)
    decreases fuel, 3, 0
  {
    match f
    case Closure(params, body, env, defined) =>
      EvalFuelMonotone(defined, fuel - 1, more - 1, body, Frame(Scope.Bind(params, args), env));
    case Host(op) =>
      CallHostFuelMonotone(fuel, more, op, args);
    case _ =>
  }

  lemma {:induction false} CallHostFuelMonotone(fuel: nat, more: nat, op: HostOp, args: seq<Value>)
    requires fuel <= more
    requires CallHost(fuel, op, args) != Err(OutOfFuel)
    ensures CallHost(more, op, args) == CallHost(fuel, op, args)
    decreases fuel, 2, 0
  {
    var x, y := Scope.ArgAt(args, 0), Scope.ArgAt(args, 1);
    match op
    case Com =>
      ApplyFuelMonotone(fuel - 1, more - 1, x, [y]);
    case MapList =>
      if x.Arr? {
        MapApplyFuelMonotone(fuel - 1, more - 1, y, x.items);
      }
    case _ =>
  }

  lemma {:induction false} MapApplyFuelMonotone(fuel: nat, more: nat, f: Value, items: seq<Value>)
    requires fuel <= more
    requires MapApply(fuel, f, items) != Err(OutOfFuel)
    ensures MapApply(more, f, items) == MapApply(fuel, f, items)
    decreases fuel, 5, items
  {
    if items != [] {
      ApplyFuelMonotone(fuel, more, f, [items[0]]);
      if Apply(fuel, f, [items[0]]).Ok? {
        MapApplyFuelMonotone(fuel, more, f, items[1..]);
      }
    }
  }

  /** The list map succeeds with `ys` exactly when `f` maps each item, on its own, to the value at its position. */
  lemma {:induction false} MapApplyOk(fuel: nat, f: Value, items: seq<Value>, ys: seq<Value>)
    ensures MapApply(fuel, f, items) == Ok(ys)
        <==> |ys| == |items| && forall i :: 0 <= i < |items| ==> Apply(fuel, f, [items[i]]) == Ok(ys[i])
  {
    if items != [] {
      MapApplyOk(fuel, f, items[1..], if ys == [] then [] else ys[1..]);
      if |ys| == |items| && forall i :: 0 <= i < |items| ==> Apply(fuel, f, [items[i]]) == Ok(ys[i]) {
        assert Apply(fuel, f, [items[0]]) == Ok(ys[0]);
        forall i | 0 <= i < |items| - 1
          ensures Apply(fuel, f, [items[1..][i]]) == Ok(ys[1..][i])
        {
          assert items[1..][i] == items[i + 1];
        }
        assert ys == [ys[0]] + ys[1..];
      }
      if MapApply(fuel, f, items) == Ok(ys) {
        forall i | 1 <= i < |items|
          ensures Apply(fuel, f, [items[i]]) == Ok(ys[i])
        {
          assert items[1..][i - 1] == items[i];
        }
      }
    }
  }

  /** A failing list map fails with the error of the first item `f` fails on; `f` succeeded on every item before it. */
  lemma {:induction false} MapApplyFirstError(fuel: nat, f: Value, items: seq<Value>)
    requires MapApply(fuel, f, items).Err?
    ensures exists k :: (0 <= k < |items|
      && Apply(fuel, f, [items[k]]) == Err(MapApply(fuel, f, items).error)
      && forall i :: 0 <= i < k ==> Apply(fuel, f, [items[i]]).Ok?)
  {
    var e := MapApply(fuel, f, items).error;
    if Apply(fuel, f, [items[0]]).Err? {
      assert Apply(fuel, f, [items[0]]) == Err(e);
    } else {
      MapApplyFirstError(fuel, f, items[1..]);
      var k :| 0 <= k < |items[1..]|
        && Apply(fuel, f, [items[1..][k]]) == Err(e)
        && forall i :: 0 <= i < k ==> Apply(fuel, f, [items[1..][i]]).Ok?;
      assert items[1..][k] == items[k + 1];
      forall i | 0 <= i < k + 1
        ensures Apply(fuel, f, [items[i]]).Ok?
      {
        if i > 0 { assert items[1..][i - 1] == items[i]; }
      }
    }
  }

  /** The self-application `(λx. x(x))(λx. x(x))`. */
  function Omega(): Term {
    var w := L(["x"], A(V("x"), [V("x")]));
    A(w, [w])
  }

  /** Calling `λx. x(x)` on itself never returns, whatever the fuel. */
  lemma {:induction false} SelfApplicationDiverges(preds: PredicateSet, fuel: nat, env: Ctx)
    ensures Apply(fuel, Closure(["x"], A(V("x"), [V("x")]), env, preds), [Closure(["x"], A(V("x"), [V("x")]), env, preds)])
         == Err(OutOfFuel)
  {
    var c := Closure(["x"], A(V("x"), [V("x")]), env, preds);
    if fuel > 0 {
      var inner := Frame(Scope.Bind(["x"], [c]), env);
      assert Scope.Bind(["x"], [c]) == Scope.BindPrefix(["x"], [c], 0)["x" := c];
      assert Eval(preds, fuel - 1, V("x"), inner) == Ok(c);
      assert [V("x")][1..] == [];
      assert EvalArgs(preds, fuel - 1, [], inner) == Ok([]);
      assert [c] + [] == [c];
      assert EvalArgs(preds, fuel - 1, [V("x")], inner) == Ok([c]);
      SelfApplicationDiverges(preds, fuel - 1, env);
    }
  }

  /** So the evaluator never produces a value for `Omega()`. */
  lemma OmegaDiverges(preds: PredicateSet, fuel: nat)
    ensures Run(preds, fuel, Omega()) == Err(OutOfFuel)
  {
    var c := Closure(["x"], A(V("x"), [V("x")]), Root, preds);
    var w := L(["x"], A(V("x"), [V("x")]));
    assert [w][1..] == [];
    assert Eval(preds, fuel, w, Root) == Ok(c);
    assert EvalArgs(preds, fuel, [], Root) == Ok([]);
    assert [c] + [] == [c];
    assert EvalArgs(preds, fuel, [w], Root) == Ok([c]);
    SelfApplicationDiverges(preds, fuel, Root);
  }

  /** Values that are not expressions encode as meta data and so evaluate back to themselves. */
  lemma LiteralsEvaluateToThemselves(preds: PredicateSet, fuel: nat, xs: seq<Value>, ctx: Ctx)
    requires forall i :: 0 <= i < |xs| ==> !Dsl.IsExp(xs[i])
    ensures EvalArgs(preds, fuel, Dsl.GetJsonAll(xs), ctx) == Ok(xs)
  {
    var ts := Dsl.GetJsonAll(xs);
    forall i | 0 <= i < |ts|
      ensures Eval(preds, fuel, ts[i], ctx) == Ok(xs[i])
    {
      assert ts[i] == D(xs[i]);
    }
    EvalArgsOk(preds, fuel, ts, ctx, xs);
  }

  /**
   * A built abstraction called on plain values, `r(x1..xk, body)(a1..an)`,
   * evaluates its body's term in a frame binding the parameters to the
   * values by position, whose parent is the scope of the call.
   */
  lemma BuiltApplicationBindsByPosition(preds: PredicateSet, fuel: nat, params: seq<string>, body: Value, args: seq<Value>, ctx: Ctx)
    requires fuel > 0
    requires forall i :: 0 <= i < |args| ==> !Dsl.IsExp(args[i])
    ensures Eval(preds, fuel, Dsl.GetJson(Dsl.CallExpression(Dsl.GetJson(Dsl.Abstraction(params, body)), args)), ctx)
         == Eval(preds, fuel - 1, Dsl.GetJson(body), Frame(Scope.Bind(params, args), ctx))
  {
    LiteralsEvaluateToThemselves(preds, fuel, args, ctx);
  }

  /** The number `i` as a key is the text of `i`, which parses back to `i` and is not `length`. */
  lemma IndexKey(i: nat)
    ensures PropertyKeys.PropertyKey(Num(i)) == PropertyKeys.Some(PropertyKeys.NatToString(i))
    ensures PropertyKeys.ParseIndex(PropertyKeys.NatToString(i)) == PropertyKeys.Some(i)
    ensures PropertyKeys.NatToString(i) != "length"
  {
    PropertyKeys.ParseNatToString(i);
    assert PropertyKeys.IsDigit(PropertyKeys.NatToString(i)[0]);
    assert !PropertyKeys.IsDigit("length"[0]);
  }

  /**
   * `get` on an array, for every array including `[]`: the number `i`
   * and its decimal text both name item `i`, an index past the end yields
   * `undefined`, `length` is the number of items, and a key that is the
   * text of no index yields `undefined`, and so does any other key (for
   * example "01" or "-1").
   */
  lemma ArrayKeys(items: seq<Value>, i: nat, key: string)
    ensures i < |items| ==> PropertyOf(Arr(items), Num(i)) == Ok(items[i])
    ensures i < |items| ==> PropertyOf(Arr(items), Str(PropertyKeys.NatToString(i))) == Ok(items[i])
    ensures |items| <= i ==> PropertyOf(Arr(items), Num(i)) == Ok(Undef)
    ensures PropertyOf(Arr(items), Str("length")) == Ok(Num(|items|))
    ensures key != "length" && (forall j :: 0 <= j < |items| ==> key != PropertyKeys.NatToString(j)) ==>
      PropertyOf(Arr(items), Str(key)) == Ok(Undef)
  {
    IndexKey(i);
    var p := PropertyKeys.ParseIndex(key);
    if p.Some? {
      PropertyKeys.NatToStringOfParse(key);
    }
  }

  /**
   * `get` on a string: the characters at its indices, `undefined` past
   * its end, and its `length`, for every string including "".
   */
  lemma StringKeys(s: string, i: nat)
    ensures i < |s| ==> PropertyOf(Str(s), Num(i)) == Ok(Str([s[i]]))
    ensures i < |s| ==> PropertyOf(Str(s), Str(PropertyKeys.NatToString(i))) == Ok(Str([s[i]]))
    ensures |s| <= i ==> PropertyOf(Str(s), Num(i)) == Ok(Undef)
    ensures PropertyOf(Str(s), Str("length")) == Ok(Num(|s|))
  {
    IndexKey(i);
  }

  /** `get` on an object reads a number key as its decimal text: `({"3": 9})[3]` is 9. */
  lemma ObjectNumberKey(fields: map<string, Value>, n: int)
    ensures PropertyOf(Obj(fields), Num(n)) == PropertyOf(Obj(fields), Str(PropertyKeys.IntToString(n)))
    ensures PropertyOf(Obj(map["3" := Num(9)]), Num(3)) == Ok(Num(9))
  {
    assert PropertyKeys.IntToString(3) == "3";
  }
}
