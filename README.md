# leta: an encoded lambda calculus with host predicates, in Dafny

This project models the two core pieces of the `leta` library:

- the **term builder** (`src/dsl.js`), which turns surface constructions (`v`, `r`, `require(name)(...)`, calling an expression) into a tagged term;
- the **evaluator** (`src/interpreter.js`), which runs such a term against a caller-supplied predicate set.

A term is one of `['d', literal]`, `['v', name]`, `['l', [names], body]`, `['p', name, [args]]` or `['a', fn, [args]]`. The evaluator walks it under a chain of scope objects `{curVars, parentCtx}`:

- variables are looked up along the parent links;
- an abstraction becomes a closure over the current scope and the predicate set of the run that made it;
- a closure call binds its parameters by position in a fresh frame whose parent is the captured scope;
- predicates and applications evaluate their arguments left to right before the call.

Modules:

- `Terms` (terms.dfy) holds the data:
  - the term datatype, with `Other(tag)` for unrecognised tags;
  - the run-time values. A builder expression object is `ExpFn(json)`, the unapplied result of `require(name)` is `PredicateBuilder(name)`, and a closure carries its captured scope and its run's predicate set;
  - the scope chain;
  - the errors.
- `Dsl` (dsl.dfy) holds the builders.
- `PropertyKeys` (keys.dfy) holds JavaScript's conversion of a value used as a property key, which the `get` fixture `m[k]` needs: numbers as decimal text, and canonical index texts for arrays and strings.
- `Scope` (scope.dfy) holds:
  - variable lookup, both as the source's `while` loop (`LookupVariable`) and as a recursive function (`Lookup`);
  - the per-call frame, both as the source's `reduce` loop (`BuildFrame`) and as a function (`Bind`).
- `Interpreter` (interpreter.dfy) holds `translate` as the mutually recursive functions `Eval`, `EvalArgs` and `Apply`, the host built-ins, and `Run`, the function the factory returns. A closure calls the `translate` of the run that made it, so `Apply` takes no predicate set: a closure's body always runs under the set stored in the closure.
- `Properties` (properties.dfy) holds the lemmas about the evaluator.
- `TestEvidence` (test_evidence.dfy) replays the scenarios of `test/dsl.js` and `test/interpreter.js`.

Untyped terms can diverge. Every call of a closure, and every higher-order built-in, therefore spends one unit of `fuel`, and running out yields `Err(OutOfFuel)`. `EvalFuelMonotone` shows that fuel only bounds the run: any answer other than `OutOfFuel` stays the same with more fuel.

The predicate set holds host functions from a fixed table. These are the test fixtures `add`, `sub`, `com`, `map` (from `bolzano`), `get`, `getMath` and `id`. Arithmetic is on unbounded integers.

Source over tests. Several test cases in `test/interpreter.js` expect behaviour that `src/interpreter.js` does not have. The model follows the source, and `TestEvidence` states what the source does instead:

- **Error texts.** Those tests expect "undefined variable", "unexpected expression type", "missing predicate" and "expected function".
  - The source throws "unexpected variable" (test/interpreter.js:147-166).
  - An unknown tag yields `undefined` and throws nothing (test/interpreter.js:168-182).
  - `add(2, 3)` against an empty set (test/interpreter.js:184-200) and applying the number 3 (test/interpreter.js:202-221) are TypeErrors from calling a non-function.
  - Mapping an unapplied `require('addOne')` without an `addOne` predicate (test/interpreter.js:223-240) throws nothing at all: the builder function is mapped over the list.
- **Dotted predicate names.** The source looks `math.add` up as a single key.
- **Predicates passed as values.** The source passes the builder function itself, so the result is an expression object rather than a number.

Evaluation never modifies the predicate set or an existing frame. In the model this holds by construction: values, scopes and the predicate set are immutable datatypes, and a call's frame is built fresh by `Bind`.

## Model

| member | source | states |
|---|---|---|
| `Scope.Lookup` | src/interpreter.js:44-53 | a lookup that fails always fails with "unexpected variable" for that name; a lookup that succeeds returns the binding of some frame of the chain that owns the name |
| `Scope.LookupVariable` | src/interpreter.js:45-53 | the `while (context)` loop along `parentCtx` returns exactly what `Lookup` specifies |
| `Scope.LookupNearest` | src/interpreter.js:46-50 | when frame k is the first frame of the chain that owns the name, lookup returns frame k's binding (the nearest frame wins) |
| `Scope.LookupFailsIffUnbound` | src/interpreter.js:46-53 | lookup fails with "unexpected variable <name>" if and only if no frame of the chain owns the name |
| `Scope.ArgAt` | src/interpreter.js:59 | `args[index]` past the supplied arguments is `undefined` |
| `Scope.Bind` | src/interpreter.js:58-61 | the frame of a call owns exactly the parameter names; `BindAt` and `BindIgnoresExtra` give the value of each |
| `Scope.BuildFrame` | src/interpreter.js:58-61 | the `reduce` writing `prev[name] = args[index]` into a fresh object builds exactly the frame `Bind` specifies |
| `Scope.BindKeys` | src/interpreter.js:58-61 | the new frame owns every parameter name, even one without an argument, and no other name |
| `Scope.BindAt` | src/interpreter.js:58-61 | parameter i is bound to argument i, or to `undefined` when there is none, unless a later duplicate of the name overwrites it |
| `Scope.BindIgnoresExtra` | src/interpreter.js:58-61 | arguments beyond the last parameter do not change the frame |
| `Interpreter.Eval` | src/interpreter.js:36-70 | `translate`: meta data, abstractions and unknown tags never fail, and an abstraction yields a closure over the current scope and the run's predicate set; the lemmas of `Properties` give each tag's meaning |
| `Interpreter.EvalArgs` | src/interpreter.js:66 | an evaluated argument list has one value per argument term |
| `Interpreter.Apply` | src/interpreter.js:55-68 | calling a value that is not a function is the TypeError `NotCallable`; calling an expression or an unapplied `require` (src/dsl.js:78-80, 89-94) always yields an expression; a closure without fuel stops with `OutOfFuel` |
| `Interpreter.CallHost` | test/interpreter.js:37-40 | the fixtures: `add` and `sub` succeed exactly on two numbers, with their sum and difference; `map` (test/interpreter.js:86-89) yields a list as long as the list it was given |
| `Interpreter.MapApply` | test/interpreter.js:5-7 | the `map` of `bolzano` yields one result per list item; `MapApplyOk` and `MapApplyFirstError` give its contents and its failure |
| `Interpreter.PropertyOf` | test/interpreter.js:283-285 | the `get` fixture `m[k]` fails exactly when `m` is `undefined` or the key is of a kind the model does not convert; on an object it yields the own field named by the converted key, or `undefined` |
| `Interpreter.Run` | src/interpreter.js:72-74 | a run starts from the root frame `{curVars: {}}` without parent: a variable at top level fails, and an abstraction yields a closure over that frame and the run's predicate set |
| `PropertyKeys.NatToString` | test/interpreter.js:284 | the text of a natural number is canonical decimal: digits only, no superfluous leading zero |
| `PropertyKeys.PropertyKey` | test/interpreter.js:284 | a string key is itself; a number key is its decimal text, which names an array index exactly when the number is not negative; `undefined` is a key; other values have none in the model |
| `PropertyKeys.DigitsValueOfNatToString` | test/interpreter.js:284 | reading the decimal text of `n` back gives `n` |
| `PropertyKeys.ParseNatToString` | test/interpreter.js:284 | the text of an index parses back to that index |
| `PropertyKeys.NatToStringOfParse` | test/interpreter.js:284 | a canonical key is the text of the index it parses to |
| `PropertyKeys.ParseIndexIff` | test/interpreter.js:284 | a key names index `n` if and only if it is the text of `n` |
| `Properties.MetaDataVerbatim` | src/interpreter.js:42-43 | a `'d'` node yields its payload unchanged, even a payload shaped like a term |
| `Properties.VariableNearestBinding` | src/interpreter.js:44-51 | a `'v'` node yields the binding of the innermost frame that owns the name |
| `Properties.VariableUnbound` | src/interpreter.js:44-53 | a `'v'` node fails, and then with "unexpected variable <name>", if and only if no frame owns the name |
| `Properties.TopLevelFreeVariable` | src/interpreter.js:72-74 | a run starts from a root frame with no bindings and no parent, so a free variable at top level always fails |
| `Properties.AbstractionCapturesScope` | src/interpreter.js:54-55 | an `'l'` node yields, without evaluating its body (even a body that would fail), a closure holding the node's parameters and body, the current scope and the run's predicate set |
| `Properties.ClosureCallIsLexical` | src/interpreter.js:55-63 | a closure call gives the same result from any calling scope under any calling predicate set; it evaluates the body in a fresh frame of the parameters whose parent is the captured scope, under the closure's own predicate set |
| `Properties.ClosureKeepsItsPredicateSet` | src/interpreter.js:34-66 | a closure made by the run for one predicate set and called inside a run for another evaluates its body under the first |
| `Properties.MissingArgumentShadows` | src/interpreter.js:58-61 | a parameter with no argument is still an own binding, to `undefined`, and hides any outer binding of that name |
| `Properties.EvalArgsOk` | src/interpreter.js:66-68 | an argument list evaluates to `vs` if and only if each argument evaluates, in the same scope, to the value at its position |
| `Properties.EvalArgsFirstError` | src/interpreter.js:66-68 | a failing argument list fails with the error of its first failing argument; every argument before it evaluated |
| `Properties.PredicateCall` | src/interpreter.js:66 | a failing argument aborts a `'p'` node before the predicate is checked to be a function; otherwise a name that is not one key mapping to a function fails; otherwise the predicate receives the arguments in order |
| `Properties.ApplicationOrder` | src/interpreter.js:68 | an `'a'` node evaluates the function position first and then the arguments, and fails with "not callable" only when both succeeded and the value is not a function |
| `Properties.UnknownTagIsUndefined` | src/interpreter.js:41-69 | a term whose tag is none of `d`, `v`, `l`, `p`, `a` evaluates to `undefined` rather than failing |
| `Properties.EvalFuelMonotone` | src/interpreter.js:36-70 | an evaluation that does not run out of fuel gives the same result with any larger fuel |
| `Properties.ApplyFuelMonotone` | src/interpreter.js:55-68 | the same for calling a value |
| `Properties.MapApplyOk` | test/interpreter.js:5-7 | the list map succeeds with `ys` if and only if `ys` has one entry per item and calling `f` on item i alone yields entry i |
| `Properties.MapApplyFirstError` | test/interpreter.js:5-7 | a failing list map fails with the error of the first item `f` fails on, and `f` succeeded on every item before it |
| `Properties.SelfApplicationDiverges` | src/interpreter.js:55-63 | calling `λx. x(x)` on itself runs out of fuel for every fuel |
| `Properties.OmegaDiverges` | src/interpreter.js:36-70 | the term `(λx. x(x))(λx. x(x))` never yields a value |
| `Properties.LiteralsEvaluateToThemselves` | src/dsl.js:110 | values that are not expressions are wrapped as meta data, so the encoded arguments evaluate back to exactly those values |
| `Properties.BuiltApplicationBindsByPosition` | src/dsl.js:78-80 | a built `r(x1..xk, body)(a1..an)` on plain values evaluates the body's term in a frame binding the parameters by position, whose parent is the calling scope |
| `Properties.ArrayKeys` | test/interpreter.js:283-285 | `m[k]` on any array, `[]` included: the number i and its decimal text both yield item i when i is an index, a number past the end yields `undefined`, `length` yields the number of items, and a key that is the text of no index yields `undefined` |
| `Properties.StringKeys` | test/interpreter.js:283-285 | `m[k]` on any string, `""` included: index i, as a number or as text, yields the one-character string at i, a number past the end yields `undefined`, and `length` yields its length, counted in characters (see "## Left out") |
| `Properties.ObjectNumberKey` | test/interpreter.js:283-285 | `m[k]` on an object reads a number key as its decimal text, so `({"3": 9})[3]` is 9 |
| `Dsl.IsExp` | src/dsl.js:108 | every expression is a function, and no closure, host built-in or unapplied `require` is an expression |
| `Dsl.GetJson` | src/dsl.js:110 | an expression is exactly the wrapping of the term `getJson` yields (`x == ExpFn(getJson(x))`), and any other value yields `['d', x]` |
| `Dsl.GetJsonAll` | src/dsl.js:79 | `map(args, getJson)` keeps the length and encodes each argument in place |
| `Dsl.Exp` | src/dsl.js:76-84 | `exp(j)` is an expression and a function, and `getJson(exp(j)) = j` |
| `Dsl.CallExpression` | src/dsl.js:78-80 | calling an expression builds `['a', its term, args]`; an expression argument is embedded as its term, any other value wrapped as `['d', x]` |
| `Dsl.Require` | src/dsl.js:89 | an unapplied `require(name)` is a function but not an expression, so `getJson` wraps it as meta data |
| `Dsl.CallPredicate` | src/dsl.js:89-94 | `require(name)(a1..an)` builds `['p', name, [getJson(a1)..getJson(an)]]` in argument order |
| `Dsl.Var` | src/dsl.js:101 | `v(name)` encodes to `['v', name]` |
| `Dsl.Abstraction` | src/dsl.js:106 | `r(x1..xk, body)` encodes to `['l', [x1..xk], getJson(body)]` |
| `TestEvidence.DslBase` | test/dsl.js:12-33 | the encodings of `v('x')`, `add(1, v('x'))` and `r('x', add(1, v('x')))` |
| `TestEvidence.DslApply` | test/dsl.js:35-66 | the encodings of the two calls of built abstractions |
| `TestEvidence.DslUnappliedRequire` | src/dsl.js:108-110 | an unapplied `require` passed as an argument is embedded as `['d', fn]` |
| `TestEvidence.Base` | test/interpreter.js:21-32 | `r('x', add(1, v('x')))(3)` runs to 4 |
| `TestEvidence.SameNameTerm` | test/interpreter.js:42-50 | `e` encodes to an abstraction over `x, y, z` whose body subtracts `x` from the inner abstraction over `x, y` applied to `y, z` |
| `TestEvidence.SameNameEnters` | test/interpreter.js:52-64 | calling `e(x, y, z)` on numbers runs `e`'s body in one fresh frame binding `x, y, z` by position, whose parent is the root frame |
| `TestEvidence.SameNameInnerCall` | test/interpreter.js:45-47 | in any scope where `x, y, z` are numbers, the inner call yields `y + z`: its own `x, y` are bound to the outer `y, z` and hide the outer `x, y` |
| `TestEvidence.SameNameBodyRuns` | test/interpreter.js:44-49 | outside the inner abstraction `x` is the outer parameter again: the body yields the inner sum minus the outer `x` |
| `TestEvidence.SameNameRuns` | test/interpreter.js:52-57 | `e(5, 4, 3) = 2` |
| `TestEvidence.SameNameRunsAgain` | test/interpreter.js:59-64 | `e(1, 4, 3) = 6` |
| `TestEvidence.AddOneClosure` | test/interpreter.js:78 | in any predicate set whose `add` is the addition fixture, the closure of `r('x', add(v('x'), 1))` maps every number `n` to `n + 1` |
| `TestEvidence.HandlerTerm` | test/interpreter.js:78 | `com(r('x', add(v('x'), 1)), 10)` encodes to a `'p'` node whose arguments are the abstraction's term and `['d', 10]` |
| `TestEvidence.Handler` | test/interpreter.js:67-81 | `com(r('x', add(v('x'), 1)), 10) = 11` |
| `TestEvidence.MapHandlerTerm` | test/interpreter.js:94 | `myMap([1, 2, 3], r('x', add(v('x'), 1)))` encodes the list as meta data and the handler as its abstraction term |
| `TestEvidence.MapHandlerCall` | test/interpreter.js:83-96 | the `map` fixture applies the handler closure to each of 1, 2, 3 in order and yields `[2, 3, 4]` |
| `TestEvidence.MapHandler` | test/interpreter.js:83-97 | `myMap([1, 2, 3], r('x', add(v('x'), 1))) = [2, 3, 4]` |
| `TestEvidence.CapturedAdd` | test/interpreter.js:141 | the closure of `r('y', add(v('x'), v('y')))` created in a frame where `x` is `a` maps every `b` to `a + b`: `x` is found in the captured parent frame |
| `TestEvidence.ParentContextBody` | test/interpreter.js:140-142 | inside the outer call with `x = a`, `r('y', add(v('x'), v('y')))(b)` yields `a + b` |
| `TestEvidence.ParentContext` | test/interpreter.js:131-145 | `r('x', r('y', add(v('x'), v('y')))(7))(10) = 17` |
| `TestEvidence.HighOrderTerm` | test/interpreter.js:252 | `r('x', r('y', add(v('x'), v('y'))))(3)(4)` encodes to two nested `'a'` nodes around the nested abstractions |
| `TestEvidence.HighOrderFunction` | test/interpreter.js:242-256 | `r('x', r('y', add(v('x'), v('y'))))(3)(4) = 7` |
| `TestEvidence.GetMathAdd` | test/interpreter.js:277-294 | with the `getMath` and `get` fixtures, `get(getMath(), 'add')` yields the addition function itself |
| `TestEvidence.GetFunctionTerm` | test/interpreter.js:294 | `get(getMath(), 'add')(3, 4)` encodes to an `'a'` node around the `'p'` node of `get` |
| `TestEvidence.GetFunction` | test/interpreter.js:276-298 | `get(getMath(), 'add')(3, 4) = 7` |
| `TestEvidence.CallFromOtherScope` | src/interpreter.js:55-63 | a closure `λ. x` defined where `x` is 1, called from a frame where `x` is 2, yields 1 |
| `TestEvidence.PassClosureDownInner` | src/interpreter.js:55-63 | `(λx. f())(2)` yields 1 when `f` is that closure: the new binding of `x` is not seen by `f` |
| `TestEvidence.PassClosureDown` | src/interpreter.js:55-63 | `(λf. (λx. f())(2))(λ. x)` yields 1 in the frame where `x` is 1 |
| `TestEvidence.LexicalNotDynamic` | src/interpreter.js:57-63 | `(λx. (λf. (λx. f())(2))(λ. x))(1)` runs to 1, not 2: a closure sees its defining scope, not its caller's |
| `TestEvidence.ErrorVariable` | test/interpreter.js:147-166 | an unbound `y` fails with "unexpected variable y" |
| `TestEvidence.UnexpectedType` | test/interpreter.js:168-182 | the term `['k']` evaluates to `undefined` instead of failing |
| `TestEvidence.MissingPredicate` | test/interpreter.js:184-200 | `add(2, 3)` against an empty predicate set fails with a TypeError for `add` |
| `TestEvidence.ApplyNonFunction` | test/interpreter.js:202-221 | applying the meta data `3` fails with a TypeError on the value 3 |
| `TestEvidence.BuildAddOne` | src/dsl.js:89-94 | the unapplied `require('addOne')`, called on a number `n`, builds the expression `addOne(n)`; no predicate set is involved |
| `TestEvidence.MapBuilderOverList` | test/interpreter.js:99-112 | the `map` fixture applied to `[1, 2, 3]` and that builder yields the three expressions `addOne(1)`, `addOne(2)`, `addOne(3)`, under the item-by-item model of `map` in "## Left out" |
| `TestEvidence.MapUnappliedRequire` | test/interpreter.js:99-113 | under every predicate set whose `myMap` is the `map` fixture, whatever it holds for `addOne`, mapping an unapplied `require('addOne')` yields the expressions `addOne(i)` under the item-by-item model of `map` in "## Left out", not `[2, 3, 4]`, and does not fail without an `addOne` predicate (as in test/interpreter.js:223-240) |
| `TestEvidence.PredicateAsValue` | test/interpreter.js:115-129 | under every predicate set whose `id` is the identity fixture, whatever it holds for `addOne`, `id(addOne)(2)` yields the expression `addOne(2)`, not 3 |
| `TestEvidence.DottedNameIsNotAPath` | test/interpreter.js:258-274 | `math.add` is one key, so it is not found inside `math` |
| `TestEvidence.ClosureAcrossRuns` | src/interpreter.js:34-66 | a closure made by a run whose `add` adds, called from a run whose `add` subtracts, still adds: `c(5)` is 6 |

## Left out

- Exception message texts and JavaScript error classes are not modelled. Each failure is an `Error` variant: `UnexpectedVariable(name)` for the thrown "unexpected variable", and `PredicateNotCallable(name)` or `NotCallable(value)` for the TypeErrors.
- Property lookup through the prototype chain is not modelled. The predicate set and frames are maps of own keys. In JavaScript `predicateSet['toString']` finds an inherited function, and names like `__proto__` behave specially.
- Terms whose payload does not fit its tag are not modelled, for example `['v']` without a name or `'l'` parameters that are not an array. `Term` only has well-shaped nodes; an unknown tag is `Other(tag)`.
- `Dsl.Abstraction`: takes the parameter names as strings and the body separately. `r(...args)` accepts any values as names, which JavaScript converts to property keys.
- Host functions are a fixed table of the test fixtures, not arbitrary JavaScript callables. `+` and `-` on non-numbers (string concatenation, `NaN`) yield `HostUnsupported`, and numbers are unbounded integers rather than doubles. The value domain has no booleans and no `null`, although `'d'` meta data may hold any JSON value; for instance `get(null, k)`, a TypeError in JavaScript, cannot be stated.
- `Interpreter.PropertyOf`: converts only strings, numbers and `undefined` into property keys. An array, object or function used as a key, which JavaScript converts through `toString`, yields `HostUnsupported`. Properties found through prototypes (`push`, `toString`) and the own properties of functions (`length`, `name`, an expression's `json`) yield `undefined`. A number key is its plain decimal text, whereas JavaScript writes numbers from 10^21 up in exponent notation. A string is a sequence of Unicode characters, whereas a JavaScript string is a sequence of UTF-16 code units: a character outside the Basic Multilingual Plane has `length` 1 here and 2 in JavaScript, and the lone surrogate that indexing it yields in JavaScript has no counterpart here.
- `Properties.StringKeys`: its `length` and indices count Unicode characters, not UTF-16 code units, for the reason given on the `Interpreter.PropertyOf` line.
- The `map` of `bolzano` is modelled as calling the function on each item alone. An index argument it may pass is not modelled (were it passed, a `require` builder, which keeps every argument, would build `addOne(1, 0)` where the model builds `addOne(1)`), and `map` on a non-array yields `HostUnsupported`.
- The fuel bound (`OutOfFuel`) has no counterpart in the source. There, a diverging term exhausts the call stack.
- The α/β/η reductions in the doc comment of `src/interpreter.js` are marked TODO and are not implemented, so they are not modelled.
- The alternative parser `src/parser.js` and the re-export in `index.js` are not part of this model.
- The test logging helper is not modelled.
