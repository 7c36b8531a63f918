/**
 * The term builder of src/dsl.js. Every builder returns an expression
 * object: a function carrying the shared `unique` marker and its term in
 * `json`. Here an expression object is the value `ExpFn(json)`, and the
 * identity test against the marker is the constructor test `ExpFn?`.
 */
module Dsl {
  import opened Terms

  /**
   * `isExp`: is `x` an expression object made by this builder? Every
   * expression is a function, and no function without the marker (a
   * closure, a host built-in, an unapplied `require`) is an expression.
   */
  predicate IsExp(x: Value): (b: bool)
    ensures b ==> IsCallable(x)
    ensures x.Closure? || x.Host? || x.PredicateBuilder? ==> !b
  {
    x.ExpFn?
  }

  /**
   * `getJson`: an expression is exactly the wrapping of the term it
   * yields; any other value yields meta data holding that value.
   */
  function GetJson(x: Value): (t: Term)
    ensures IsExp(x) ==> x == ExpFn(t)
    ensures !IsExp(x) ==> t.D? && t.payload == x
  {
    if IsExp(x) then x.json else D(x)
  }

  /** `map(args, getJson)`: each argument encoded, in order. */
  function GetJsonAll(xs: seq<Value>): (ts: seq<Term>)
    ensures |ts| == |xs|
    ensures forall i :: 0 <= i < |xs| ==> ts[i] == GetJson(xs[i])
  {
    if xs == [] then [] else [GetJson(xs[0])] + GetJsonAll(xs[1..])
  }

  /** `exp(json)`: wrap a term as an expression object. */
  function Exp(json: Term): (e: Value)
    ensures IsExp(e) && IsCallable(e)
    ensures GetJson(e) == json
  {
    ExpFn(json)
  }

  /** Calling an expression object `e(a1..an)` (the inner arrow of `exp`). */
  function CallExpression(json: Term, args: seq<Value>): (e: Value)
    ensures IsExp(e)
    ensures GetJson(e).A? && GetJson(e).fn == json && |GetJson(e).args| == |args|
    ensures forall i :: 0 <= i < |args| && IsExp(args[i]) ==> GetJson(e).args[i] == args[i].json
    ensures forall i :: 0 <= i < |args| && !IsExp(args[i]) ==> GetJson(e).args[i] == D(args[i])
  {
    Exp(A(json, GetJsonAll(args)))
  }

  /** `requirePredicate(name)`: a function that builds predicate calls; not itself an expression. */
  function Require(name: string): (f: Value)
    ensures IsCallable(f) && !IsExp(f)
    ensures GetJson(f) == D(f)
  {
    PredicateBuilder(name)
  }

  /** Calling the result of `require(name)` with `a1..an`. */
  function CallPredicate(name: string, args: seq<Value>): (e: Value)
    ensures IsExp(e)
    ensures GetJson(e).P? && GetJson(e).pred == name && |GetJson(e).args| == |args|
    ensures forall i :: 0 <= i < |args| ==> GetJson(e).args[i] == GetJson(args[i])
  {
    Exp(P(name, GetJsonAll(args)))
  }

  /** `v(name)`: a variable reference. */
  function Var(name: string): (e: Value)
    ensures IsExp(e) && GetJson(e) == V(name)
  {
    Exp(V(name))
  }

  /**
   * `r(x1..xk, body)`: an abstraction whose parameter names are taken
   * as given and whose body is encoded with `getJson`.
   */
  function Abstraction(params: seq<string>, body: Value): (e: Value)
    ensures IsExp(e) && GetJson(e).L?
    ensures GetJson(e).params == params
    ensures GetJson(e).body == GetJson(body)
  {
    Exp(L(params, GetJson(body)))
  }
}
