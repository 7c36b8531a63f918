/**
 * The tagged term format shared by the builder (src/dsl.js) and the
 * evaluator (src/interpreter.js), the run-time values the evaluator
 * produces, the chain of scope objects it walks, and its failures.
 */
module Terms {

  /** The host functions a predicate set may hold (a fixed table of built-ins). */
  datatype HostOp =
    | Add      // (x, y) => x + y
    | Sub      // (x, y) => x - y
    | Com      // (f, x) => f(x)
    | MapList  // the list map of the `bolzano` library
    | Get      // (m, k) => m[k]
    | GetMath  // () => ({ add: (x, y) => x + y })
    | Id       // v => v

  /**
   * A node of the wire format, dispatched on its leading tag:
   * 'd' meta data, 'v' variable, 'l' abstraction, 'p' predicate,
   * 'a' application; any other tag is kept as `Other`.
   */
  datatype Term =
    | D(payload: Value)
    | V(name: string)
    | L(params: seq<string>, body: Term)
    | P(pred: string, args: seq<Term>)
    | A(fn: Term, args: seq<Term>)
    | Other(tag: string)

  /**
   * A JavaScript value as far as the evaluator and the builder see it.
   * Four kinds are functions: closures made from an abstraction, host
   * built-ins, expression objects made by the builder (whose `json`
   * field holds a term) and the unapplied result of `require(name)`.
   * A closure keeps the scope it was made in and the predicate set of
   * the run that made it, since the arrow calls that run's `translate`.
   */
  datatype Value =
    | Undef
    | Num(n: int)
    | Str(s: string)
    | Arr(items: seq<Value>)
    | Obj(fields: map<string, Value>)
    | Closure(params: seq<string>, body: Term, env: Ctx, preds: PredicateSet)
    | Host(op: HostOp)
    | ExpFn(json: Term)
    | PredicateBuilder(name: string)

  /** A scope object `{curVars, parentCtx}`; `NoCtx` is the missing parent of the root. */
  datatype Ctx =
    | NoCtx
    | Frame(curVars: map<string, Value>, parentCtx: Ctx)

  /** The mapping from predicate names to values handed to the evaluator factory. */
  type PredicateSet = map<string, Value>

  /** The scope a top-level run starts from: no bindings and no parent. */
  const Root: Ctx := Frame(map[], NoCtx)

  /** JavaScript's `typeof v === 'function'`. */
  predicate IsCallable(v: Value) {
    v.Closure? || v.Host? || v.ExpFn? || v.PredicateBuilder?
  }

  /** The ways an evaluation can stop without a value. */
  datatype Error =
    | UnexpectedVariable(variable: string)  // the thrown "unexpected variable <name>"
    | PredicateNotCallable(pred: string)    // TypeError: predicateSet[name] is not a function
    | NotCallable(callee: Value)            // TypeError: the applied value is not a function
    | PropertyOfUndefined                   // TypeError inside `get`: reading a property of undefined
    | HostUnsupported                       // a built-in applied outside the integer model
    | OutOfFuel                             // the call-depth bound of the model was reached

  datatype Result<+T> = Ok(value: T) | Err(error: Error) {
    predicate IsFailure() {
      Err?
    }

    function PropagateFailure<U>(): Result<U>
      requires Err?
    {
      Err(error)
    }

    function Extract(): T
      requires Ok?
    {
      value
    }
  }
}
