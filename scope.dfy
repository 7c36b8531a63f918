/**
 * The scope chain of src/interpreter.js: variable lookup along
 * `parentCtx` links (the `'v'` case) and the frame a closure call builds
 * from its parameter names and arguments (the `reduce` of the `'l'` case).
 */
module Scope {
  import opened Terms

  /** The frames of a scope chain, innermost first. */
  function Chain(ctx: Ctx): (frames: seq<map<string, Value>>)
    ensures ctx.Frame? ==> |frames| > 0 && frames[0] == ctx.curVars
    ensures ctx.NoCtx? ==> frames == []
  {
    match ctx
    case NoCtx => []
    case Frame(vars, parent) => [vars] + Chain(parent)
  }

  /** Variable lookup: the nearest frame that owns `name` supplies its value. */
  function Lookup(ctx: Ctx, name: string): (r: Result<Value>)
    ensures r.Err? ==> r.error == UnexpectedVariable(name)
    ensures r.Ok? ==> exists k :: 0 <= k < |Chain(ctx)| && name in Chain(ctx)[k] && r.value == Chain(ctx)[k][name]
  {
    match ctx
    case NoCtx => Err(UnexpectedVariable(name))
    case Frame(vars, parent) =>
      if name in vars then
        assert Chain(ctx)[0] == vars;
        Ok(vars[name])
      else
        var r := Lookup(parent, name);
        assert r.Ok? ==> exists k :: 0 <= k < |Chain(parent)| && name in Chain(parent)[k] && r.value == Chain(parent)[k][name];
        assert forall k :: 0 <= k < |Chain(parent)| ==> Chain(parent)[k] == Chain(ctx)[k + 1];
        r
  }

  /** The `while (context)` loop of the `'v'` case, following `parentCtx` links. */
  method LookupVariable(ctx: Ctx, name: string) returns (r: Result<Value>)
    ensures r == Lookup(ctx, name)
  {
    var context := ctx;
    while context.Frame?
      invariant Lookup(context, name) == Lookup(ctx, name)
      decreases context
    {
      if name in context.curVars {
        return Ok(context.curVars[name]);
      }
      context := context.parentCtx;
    }
    r := Err(UnexpectedVariable(name));
  }

  /**
   * Lookup is exactly "the innermost owning frame": it succeeds if and
   * only if some frame of the chain owns `name`, and then it returns the
   * binding of the first such frame.
   */
  lemma {:induction false} LookupNearest(ctx: Ctx, name: string, k: nat)
    requires k < |Chain(ctx)| && name in Chain(ctx)[k]
    requires forall j :: 0 <= j < k ==> name !in Chain(ctx)[j]
    ensures Lookup(ctx, name) == Ok(Chain(ctx)[k][name])
  {
    assert Chain(ctx)[0] == ctx.curVars;
    if name !in ctx.curVars {
      assert k != 0;
      forall j | 0 <= j < k - 1
        ensures name !in Chain(ctx.parentCtx)[j]
      {
        assert Chain(ctx.parentCtx)[j] == Chain(ctx)[j + 1];
      }
      assert Chain(ctx.parentCtx)[k - 1] == Chain(ctx)[k];
      LookupNearest(ctx.parentCtx, name, k - 1);
    }
  }

  /** Lookup fails with "unexpected variable" exactly when no frame of the chain owns the name. */
  lemma {:induction false} LookupFailsIffUnbound(ctx: Ctx, name: string)
    ensures Lookup(ctx, name) == Err(UnexpectedVariable(name))
        <==> forall k :: 0 <= k < |Chain(ctx)| ==> name !in Chain(ctx)[k]
  {
    match ctx
    case NoCtx =>
    case Frame(vars, parent) =>
      LookupFailsIffUnbound(parent, name);
      assert Chain(ctx) == [vars] + Chain(parent);
      if name in vars {
        assert name in Chain(ctx)[0];
      } else {
        assert Lookup(ctx, name) == Lookup(parent, name);
        if forall k :: 0 <= k < |Chain(parent)| ==> name !in Chain(parent)[k] {
          forall k | 0 <= k < |Chain(ctx)|
            ensures name !in Chain(ctx)[k]
          {
            if k > 0 { assert Chain(ctx)[k] == Chain(parent)[k - 1]; }
          }
        } else {
          var k :| 0 <= k < |Chain(parent)| && name in Chain(parent)[k];
          assert Chain(ctx)[k + 1] == Chain(parent)[k];
        }
      }
  }

  /** `args[index]`, which is `undefined` past the end of the arguments. */
  function ArgAt(args: seq<Value>, i: nat): (v: Value)
    ensures i >= |args| ==> v == Undef
  {
    if i < |args| then args[i] else Undef
  }

  /** The accumulator of the `reduce` after its first `n` steps. */
  function BindPrefix(params: seq<string>, args: seq<Value>, n: nat): (frame: map<string, Value>)
    requires n <= |params|
  {
    if n == 0 then map[] else BindPrefix(params, args, n - 1)[params[n - 1] := ArgAt(args, n - 1)]
  }

  /** The `curVars` of the frame a closure call creates: it owns exactly the parameter names. */
  function Bind(params: seq<string>, args: seq<Value>): (frame: map<string, Value>)
    ensures frame.Keys == set j | 0 <= j < |params| :: params[j]
  {
    BindPrefixKeys(params, args, |params|);
    BindPrefix(params, args, |params|)
  }

  /** The `reduce` writing `prev[name] = args[index]` into a fresh object. */
  method BuildFrame(params: seq<string>, args: seq<Value>) returns (frame: map<string, Value>)
    ensures frame == Bind(params, args)
  {
    frame := map[];
    for i := 0 to |params|
      invariant frame == BindPrefix(params, args, i)
    {
      frame := frame[params[i] := ArgAt(args, i)];
    }
  }

  /**
   * After `n` steps a name is owned exactly when it is among the first
   * `n` parameters, and it holds the argument of its last position there.
   */
  lemma {:induction false} BindPrefixAt(params: seq<string>, args: seq<Value>, n: nat, i: nat)
    requires i < n <= |params|
    requires forall j :: i < j < n ==> params[j] != params[i]
    ensures params[i] in BindPrefix(params, args, n)
    ensures BindPrefix(params, args, n)[params[i]] == ArgAt(args, i)
  {
    if i < n - 1 {
      BindPrefixAt(params, args, n - 1, i);
    }
  }

  lemma {:induction false} BindPrefixKeys(params: seq<string>, args: seq<Value>, n: nat)
    requires n <= |params|
    ensures BindPrefix(params, args, n).Keys == set j | 0 <= j < n :: params[j]
  {
    if n > 0 {
      BindPrefixKeys(params, args, n - 1);
      assert (set j | 0 <= j < n :: params[j]) == (set j | 0 <= j < n - 1 :: params[j]) + {params[n - 1]};
    }
  }

  /** The new frame owns every parameter name and nothing else. */
  lemma BindKeys(params: seq<string>, args: seq<Value>, name: string)
    ensures name in Bind(params, args) <==> name in params
  {
    BindPrefixKeys(params, args, |params|);
    if name in params {
      var j :| 0 <= j < |params| && params[j] == name;
      assert name in (set j | 0 <= j < |params| :: params[j]);
    }
  }

  /**
   * Positional binding: parameter `i` is bound to argument `i` (or to
   * `undefined` when no argument was supplied) unless a later duplicate
   * of the same name overwrites it.
   */
  lemma BindAt(params: seq<string>, args: seq<Value>, i: nat)
    requires i < |params|
    requires forall j :: i < j < |params| ==> params[j] != params[i]
    ensures params[i] in Bind(params, args)
    ensures Bind(params, args)[params[i]] == ArgAt(args, i)
  {
    BindPrefixAt(params, args, |params|, i);
  }

  /** Arguments past the last parameter are ignored. */
  lemma {:induction false} BindIgnoresExtra(params: seq<string>, args: seq<Value>, extra: seq<Value>)
    requires |params| <= |args|
    ensures Bind(params, args + extra) == Bind(params, args)
  {
    BindPrefixExtra(params, args, extra, |params|);
  }

  lemma {:induction false} BindPrefixExtra(params: seq<string>, args: seq<Value>, extra: seq<Value>, n: nat)
    requires n <= |params| <= |args|
    ensures BindPrefix(params, args + extra, n) == BindPrefix(params, args, n)
  {
    if n > 0 {
      BindPrefixExtra(params, args, extra, n - 1);
      assert ArgAt(args + extra, n - 1) == ArgAt(args, n - 1);
    }
  }
}
