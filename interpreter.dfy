/**
 * The evaluator of src/interpreter.js: `translate` dispatching on a
 * term's tag under a scope chain, the calls it makes to closures, host
 * predicates and builder functions, and the factory that runs a term
 * from the root scope.
 *
 * Untyped terms can diverge, so every call of a closure or of a
 * higher-order built-in spends one unit of `fuel`; running out yields
 * `Err(OutOfFuel)`, which the source has no counterpart for.
 */
module Interpreter {
  import opened Terms
  import Dsl
  import Scope
  import PropertyKeys

  /**
   * `translate(json, ctx)` of the run made for `preds`. Meta data,
   * abstractions and unknown tags never fail; an abstraction yields a
   * closure over the current scope and this run's predicate set.
   */
  function Eval(preds: PredicateSet, fuel: nat, t: Term, ctx: Ctx): (r: Result<Value>)
    ensures t.D? || t.L? || t.Other? ==> r.Ok?
    ensures t.L? ==> r.value.Closure? && r.value.env == ctx && r.value.preds == preds
    decreases fuel, 4, t
  {
    match t
    case D(x) => Ok(x)
    case V(name) => Scope.Lookup(ctx, name)
    case L(params, body) => Ok(Closure(params, body, ctx, preds))
    case P(name, args) =>
      var vs :- EvalArgs(preds, fuel, args, ctx);
      if name in preds && IsCallable(preds[name]) then Apply(fuel, preds[name], vs)
      else Err(PredicateNotCallable(name))
    case A(fn, args) =>
      var f :- Eval(preds, fuel, fn, ctx);
      var vs :- EvalArgs(preds, fuel, args, ctx);
      Apply(fuel, f, vs)
    case Other(_) => Ok(Undef)
  }

  /** `map(json[2], translateWithCtx)`: the arguments, left to right, in the current scope. */
  function EvalArgs(preds: PredicateSet, fuel: nat, ts: seq<Term>, ctx: Ctx): (r: Result<seq<Value>>)
    ensures r.Ok? ==> |r.value| == |ts|
    decreases fuel, 4, ts
  {
    if ts == [] then Ok([])
    else
      var v :- Eval(preds, fuel, ts[0], ctx);
      var vs :- EvalArgs(preds, fuel, ts[1..], ctx);
      Ok([v] + vs)
  }

  /**
   * Calling a value with already evaluated arguments. A closure runs
   * its body under its own scope and predicate set, so the caller's
   * predicate set plays no part in any call. Calling a non-function is
   * a TypeError; the builder's functions only build terms.
   */
  function Apply(fuel: nat, f: Value, args: seq<Value>): (r: Result<Value>)
    ensures !IsCallable(f) ==> r == Err(NotCallable(f))
    ensures f.ExpFn? || f.PredicateBuilder? ==> r.Ok? && Dsl.IsExp(r.value)
    ensures f.Closure? && fuel == 0 ==> r == Err(OutOfFuel)
    decreases fuel, 3, 0
  {
    match f
    case Closure(params, body, env, defined) =>
      if fuel == 0 then Err(OutOfFuel)
      else Eval(defined, fuel - 1, body, Frame(Scope.Bind(params, args), env))
    case Host(op) => CallHost(fuel, op, args)
    case ExpFn(json) => Ok(Dsl.CallExpression(json, args))
    case PredicateBuilder(name) => Ok(Dsl.CallPredicate(name, args))
    case _ => Err(NotCallable(f))
  }

  /**
   * The host built-ins, with JavaScript's missing arguments read as
   * `undefined`: `add` and `sub` succeed exactly on two numbers, and
   * `map` yields a list as long as the list it was given.
   */
  function CallHost(fuel: nat, op: HostOp, args: seq<Value>): (r: Result<Value>)
    ensures (op == Add || op == Sub) ==> (r.Ok? <==> Scope.ArgAt(args, 0).Num? && Scope.ArgAt(args, 1).Num?)
    ensures op == Add && r.Ok? ==> r.value == Num(Scope.ArgAt(args, 0).n + Scope.ArgAt(args, 1).n)
    ensures op == Sub && r.Ok? ==> r.value == Num(Scope.ArgAt(args, 0).n - Scope.ArgAt(args, 1).n)
    ensures op == MapList && r.Ok? ==>
      Scope.ArgAt(args, 0).Arr? && r.value.Arr? && |r.value.items| == |Scope.ArgAt(args, 0).items|
    decreases fuel, 2, 0
  {
    var x, y := Scope.ArgAt(args, 0), Scope.ArgAt(args, 1);
    match op
    case Add => if x.Num? && y.Num? then Ok(Num(x.n + y.n)) else Err(HostUnsupported)
    case Sub => if x.Num? && y.Num? then Ok(Num(x.n - y.n)) else Err(HostUnsupported)
    case Com =>
      if fuel == 0 then Err(OutOfFuel) else Apply(fuel - 1, x, [y])
    case MapList =>
      if !x.Arr? then Err(HostUnsupported)
      else if fuel == 0 then Err(OutOfFuel)
      else
        var ys :- MapApply(fuel - 1, y, x.items);
        Ok(Arr(ys))
    case Get => PropertyOf(x, y)
    case GetMath => Ok(Obj(map["add" := Host(Add)]))
    case Id => Ok(x)
  }

  /** The list map: `f` called on each item in order, stopping at the first failure. */
  function MapApply(fuel: nat, f: Value, items: seq<Value>): (r: Result<seq<Value>>)
    ensures r.Ok? ==> |r.value| == |items|
    decreases fuel, 5, items
  {
    if items == [] then Ok([])
    else
      var y :- Apply(fuel, f, [items[0]]);
      var ys :- MapApply(fuel, f, items[1..]);
      Ok([y] + ys)
  }

  /**
   * `m[k]`: reading a property of `undefined` is a TypeError; otherwise
   * the key is converted, and objects yield their own fields, arrays and
   * strings their `length` and the items at canonical indices, and all
   * other values `undefined`.
   */
  function PropertyOf(m: Value, k: Value): (r: Result<Value>)
    ensures r.Err? <==> m.Undef? || PropertyKeys.PropertyKey(k).None?
    ensures r.Ok? && m.Obj? ==>
      r.value == (var key := PropertyKeys.PropertyKey(k).value; if key in m.fields then m.fields[key] else Undef)
  {
    if m.Undef? then Err(PropertyOfUndefined)
    else
      match PropertyKeys.PropertyKey(k)
      case None => Err(HostUnsupported)
      case Some(key) =>
        match m
        case Obj(fields) => Ok(if key in fields then fields[key] else Undef)
        case Arr(items) =>
          if key == "length" then Ok(Num(|items|))
          else
            var i := PropertyKeys.ParseIndex(key);
            Ok(if i.Some? && i.value < |items| then items[i.value] else Undef)
        case Str(s) =>
          if key == "length" then Ok(Num(|s|))
          else
            var i := PropertyKeys.ParseIndex(key);
            Ok(if i.Some? && i.value < |s| then Str([s[i.value]]) else Undef)
        case _ => Ok(Undef)
  }

  /** The function the factory returns: run a term from the root scope. */
  function Run(preds: PredicateSet, fuel: nat, data: Term): (r: Result<Value>)
    ensures data.V? ==> r == Err(UnexpectedVariable(data.name))
    ensures data.L? ==> r == Ok(Closure(data.params, data.body, Frame(map[], NoCtx), preds))
  {
    Eval(preds, fuel, data, Root)
  }
}
