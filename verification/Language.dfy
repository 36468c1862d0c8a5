/**
 The fragment of Asa whose code generator is modelled: 32-bit integer
 expressions with calls, assignments that declare on first use, scopes,
 if / else-if / else and counted for loops.  The semantics below is a
 definitional interpreter over nested scopes of *names*; it knows nothing of
 basic blocks, registers or stack slots.
 */
module Language {
  import opened Wrappers

  // ---------------------------------------------------------------- values

  type Int32 = x: int | -0x8000_0000 <= x < 0x8000_0000

  /** Two's complement wrap-around of LLVM's i32 arithmetic. */
  function Wrap32(x: int): Int32 {
    (x + 0x8000_0000) % 0x1_0000_0000 - 0x8000_0000
  }

  datatype BinOp = Plus | Minus | Times

  datatype Pred = Equal | NotEqual | Less | LessEqual | Greater | GreaterEqual

  function Arith(op: BinOp, a: Int32, b: Int32): Int32 {
    match op
    case Plus => Wrap32(a + b)
    case Minus => Wrap32(a - b)
    case Times => Wrap32(a * b)
  }

  predicate Holds(p: Pred, a: Int32, b: Int32) {
    match p
    case Equal => a == b
    case NotEqual => a != b
    case Less => a < b
    case LessEqual => a <= b
    case Greater => a > b
    case GreaterEqual => a >= b
  }

  function Flag(b: bool): Int32 {
    if b then 1 else 0
  }

  /** One observable call of another function. */
  datatype Event = Event(callee: string, args: seq<Int32>)

  /** Every callee's result, as a function of all calls made so far. */
  type World = seq<Event> -> Int32

  // ---------------------------------------------------------------- scopes

  /** A chain of scopes, innermost first, each binding names to `V`. */
  datatype Scope<V> = Root | Frame(vars: map<string, V>, outer: Scope<V>)

  /** The innermost binding of `x`. */
  function Lookup<V>(s: Scope<V>, x: string): Option<V> {
    match s
    case Root => None
    case Frame(vars, outer) => if x in vars then Some(vars[x]) else Lookup(outer, x)
  }

  /** Overwrites the innermost binding of `x`. */
  function Update<V>(s: Scope<V>, x: string, v: V): Scope<V> {
    match s
    case Root => Root
    case Frame(vars, outer) =>
      if x in vars then Frame(vars[x := v], outer) else Frame(vars, Update(outer, x, v))
  }

  /** Binds `x` in the current scope. */
  function Declare<V>(s: Scope<V>, x: string, v: V): Scope<V> {
    match s
    case Root => Root
    case Frame(vars, outer) => Frame(vars[x := v], outer)
  }

  /**
   A loop variable stays visible to the statements after the loop, unless the
   loop's own scope already binds the name: the earliest sibling wins.
   */
  function Leak<V>(s: Scope<V>, x: string, v: V): Scope<V> {
    if s.Frame? && x in s.vars then s else Declare(s, x, v)
  }

  // ---------------------------------------------------------------- syntax

  datatype Expr =
    | Const(v: Int32)
    | Var(name: string)
    | Bin(op: BinOp, left: Expr, right: Expr)
    | Call(callee: string, args: seq<Expr>)

  datatype Cond =
    | Literal(b: bool)
    | Compare(p: Pred, left: Expr, right: Expr)

  /** An `else if` is an else branch that holds just the next if statement. */
  datatype Stmt =
    | Eval(e: Expr)
    | Assign(name: string, e: Expr)
    | If(cond: Cond, thn: seq<Stmt>, els: seq<Stmt>)
    | For(name: string, start: Expr, end: Expr, body: seq<Stmt>)

  // ------------------------------------------------------------- semantics

  datatype Value<+T> = Value(v: T, trace: seq<Event>)

  /**
   Evaluates left to right; `None` means that an unbound name was read.
   A call's arguments are evaluated twice: the code generator emits them once
   to look the callee up by argument type and again to pass them.
   */
  function EvalExpr(e: Expr, vals: Scope<Int32>, trace: seq<Event>, world: World): Option<Value<Int32>> {
    match e
    case Const(v) => Some(Value(v, trace))
    case Var(x) =>
      var v :- Lookup(vals, x);
      Some(Value(v, trace))
    case Bin(op, left, right) =>
      var l :- EvalExpr(left, vals, trace, world);
      var r :- EvalExpr(right, vals, l.trace, world);
      Some(Value(Arith(op, l.v, r.v), r.trace))
    case Call(f, args) =>
      var first :- EvalArgs(args, vals, trace, world);
      var second :- EvalArgs(args, vals, first.trace, world);
      var trace' := second.trace + [Event(f, second.v)];
      Some(Value(world(trace'), trace'))
  }

  function EvalArgs(es: seq<Expr>, vals: Scope<Int32>, trace: seq<Event>, world: World): (r: Option<Value<seq<Int32>>>)
    ensures r.Some? ==> |r.value.v| == |es|
  {
    if es == [] then Some(Value([], trace))
    else
      var v :- EvalExpr(es[0], vals, trace, world);
      var vs :- EvalArgs(es[1..], vals, v.trace, world);
      Some(Value([v.v] + vs.v, vs.trace))
  }

  function EvalCond(c: Cond, vals: Scope<Int32>, trace: seq<Event>, world: World): Option<Value<bool>> {
    match c
    case Literal(b) => Some(Value(b, trace))
    case Compare(p, left, right) =>
      var l :- EvalExpr(left, vals, trace, world);
      var r :- EvalExpr(right, vals, l.trace, world);
      Some(Value(Holds(p, l.v, r.v), r.trace))
  }

  /** The outcome of running with a bounded number of loop rounds. */
  datatype Outcome =
    | Done(vals: Scope<Int32>, trace: seq<Event>)
    | OutOfFuel(trace: seq<Event>)
    | Stuck

  /** Drops the innermost scope. */
  function Leave(o: Outcome): Outcome {
    if o.Done? && o.vals.Frame? then Done(o.vals.outer, o.trace) else o
  }

  function ExecBlock(ss: seq<Stmt>, vals: Scope<Int32>, trace: seq<Event>, world: World, fuel: nat): Outcome
    decreases fuel, ss, 0
  {
    if ss == [] then Done(vals, trace)
    else
      var o := ExecStmt(ss[0], vals, trace, world, fuel);
      if o.Done? then ExecBlock(ss[1..], o.vals, o.trace, world, fuel) else o
  }

  function ExecStmt(s: Stmt, vals: Scope<Int32>, trace: seq<Event>, world: World, fuel: nat): Outcome
    decreases fuel, s, 0
  {
    match s
    case Eval(e) =>
      var v := EvalExpr(e, vals, trace, world);
      if v.None? then Stuck else Done(vals, v.value.trace)
    case Assign(x, e) =>
      var v := EvalExpr(e, vals, trace, world);
      if v.None? then Stuck
      else if Lookup(vals, x).Some? then Done(Update(vals, x, v.value.v), v.value.trace)
      else Done(Declare(vals, x, v.value.v), v.value.trace)
    case If(cond, thn, els) =>
      var c := EvalCond(cond, vals, trace, world);
      if c.None? then Stuck
      else Leave(ExecBlock(if c.value.v then thn else els, Frame(map[], vals), c.value.trace, world, fuel))
    case For(x, start, end, body) =>
      var v := EvalExpr(start, vals, trace, world);
      if v.None? then Stuck
      else ExecLoop(x, end, body, v.value.v, vals, v.value.trace, world, fuel)
  }

  /**
   The limit is evaluated anew before every round, outside the scope of the
   loop variable.  An assignment to the loop variable in the body lasts until
   the end of that round only: the next round starts from `cur + 1`.
   */
  function ExecLoop(x: string, end: Expr, body: seq<Stmt>, cur: Int32,
                    vals: Scope<Int32>, trace: seq<Event>, world: World, fuel: nat): Outcome
    decreases fuel, body, 1
  {
    if fuel == 0 then OutOfFuel(trace)
    else
      var limit := EvalExpr(end, vals, trace, world);
      if limit.None? then Stuck
      else if cur < limit.value.v then
        var inner := Frame(map[], Frame(map[x := cur], vals));
        var o := Leave(Leave(ExecBlock(body, inner, limit.value.trace, world, fuel - 1)));
        if o.Done? then ExecLoop(x, end, body, Wrap32(cur + 1), o.vals, o.trace, world, fuel - 1) else o
      else Done(Leak(vals, x, cur), limit.value.trace)
  }

  /** The parameters' scope at the start of a call; a repeated name means the last parameter. */
  function BindArgs(params: seq<string>, args: seq<Int32>, i: nat, vals: Scope<Int32>): Scope<Int32>
    requires |params| == |args| && i <= |params|
    decreases |params| - i
  {
    if i == |params| then vals else BindArgs(params, args, i + 1, Declare(vals, params[i], args[i]))
  }

  /** A call of a function with this body, as its caller observes it. */
  function CallFunction(params: seq<string>, body: seq<Stmt>, args: seq<Int32>, world: World, fuel: nat): Outcome
    requires |params| == |args|
  {
    Leave(ExecBlock(body, Frame(map[], BindArgs(params, args, 0, Frame(map[], Root))), [], world, fuel))
  }
}
