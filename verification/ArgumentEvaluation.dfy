/**
 The code generator emits every call's arguments twice.  This module compares
 that with the evaluation a programmer expects, each argument once, and finds
 exactly when the two agree.
 */
module ArgumentEvaluation {
  import opened Wrappers
  import opened Language

  /** As `EvalExpr`, with every argument evaluated once. */
  function EvalOnce(e: Expr, vals: Scope<Int32>, trace: seq<Event>, world: World): Option<Value<Int32>> {
    match e
    case Const(v) => Some(Value(v, trace))
    case Var(x) =>
      var v :- Lookup(vals, x);
      Some(Value(v, trace))
    case Bin(op, left, right) =>
      var l :- EvalOnce(left, vals, trace, world);
      var r :- EvalOnce(right, vals, l.trace, world);
      Some(Value(Arith(op, l.v, r.v), r.trace))
    case Call(f, args) =>
      var vs :- ArgsOnce(args, vals, trace, world);
      var trace' := vs.trace + [Event(f, vs.v)];
      Some(Value(world(trace'), trace'))
  }

  function ArgsOnce(es: seq<Expr>, vals: Scope<Int32>, trace: seq<Event>, world: World): Option<Value<seq<Int32>>> {
    if es == [] then Some(Value([], trace))
    else
      var v :- EvalOnce(es[0], vals, trace, world);
      var vs :- ArgsOnce(es[1..], vals, v.trace, world);
      Some(Value([v.v] + vs.v, vs.trace))
  }

  predicate CallFree(e: Expr) {
    match e
    case Const(_) => true
    case Var(_) => true
    case Bin(_, left, right) => CallFree(left) && CallFree(right)
    case Call(_, _) => false
  }

  predicate AllCallFree(es: seq<Expr>) {
    es == [] || (CallFree(es[0]) && AllCallFree(es[1..]))
  }

  /** No call is an argument, or part of an argument, of another call. */
  predicate FlatCalls(e: Expr) {
    match e
    case Const(_) => true
    case Var(_) => true
    case Bin(_, left, right) => FlatCalls(left) && FlatCalls(right)
    case Call(_, args) => AllCallFree(args)
  }

  /** The number of calls made when every argument is evaluated `copies` times. */
  function Calls(e: Expr, copies: nat): nat {
    match e
    case Const(_) => 0
    case Var(_) => 0
    case Bin(_, left, right) => Calls(left, copies) + Calls(right, copies)
    case Call(_, args) => copies * ArgCalls(args, copies) + 1
  }

  function ArgCalls(es: seq<Expr>, copies: nat): nat {
    if es == [] then 0 else Calls(es[0], copies) + ArgCalls(es[1..], copies)
  }

  lemma {:induction false} CallsMade(e: Expr, vals: Scope<Int32>, trace: seq<Event>, world: World)
    ensures var twice, once := EvalExpr(e, vals, trace, world), EvalOnce(e, vals, trace, world);
            && (twice.Some? ==> |twice.value.trace| == |trace| + Calls(e, 2))
            && (once.Some? ==> |once.value.trace| == |trace| + Calls(e, 1))
  {
    match e
    case Const(_) =>
    case Var(_) =>
    case Bin(_, left, right) =>
      CallsMade(left, vals, trace, world);
      var l, l' := EvalExpr(left, vals, trace, world), EvalOnce(left, vals, trace, world);
      if l.Some? {
        CallsMade(right, vals, l.value.trace, world);
      }
      if l'.Some? {
        CallsMade(right, vals, l'.value.trace, world);
      }
    case Call(_, args) =>
      ArgCallsMade(args, vals, trace, world);
      var first := EvalArgs(args, vals, trace, world);
      if first.Some? {
        ArgCallsMade(args, vals, first.value.trace, world);
      }
  }

  lemma {:induction false} ArgCallsMade(es: seq<Expr>, vals: Scope<Int32>, trace: seq<Event>, world: World)
    ensures var twice, once := EvalArgs(es, vals, trace, world), ArgsOnce(es, vals, trace, world);
            && (twice.Some? ==> |twice.value.trace| == |trace| + ArgCalls(es, 2))
            && (once.Some? ==> |once.value.trace| == |trace| + ArgCalls(es, 1))
  {
    if es != [] {
      CallsMade(es[0], vals, trace, world);
      var v, v' := EvalExpr(es[0], vals, trace, world), EvalOnce(es[0], vals, trace, world);
      if v.Some? {
        ArgCallsMade(es[1..], vals, v.value.trace, world);
      }
      if v'.Some? {
        ArgCallsMade(es[1..], vals, v'.value.trace, world);
      }
    }
  }

  /** Evaluating twice makes more calls as soon as one call is nested in another. */
  lemma {:induction false} CallCounts(e: Expr)
    ensures Calls(e, 1) <= Calls(e, 2)
    ensures Calls(e, 1) == Calls(e, 2) <==> FlatCalls(e)
    ensures Calls(e, 1) == 0 <==> CallFree(e)
  {
    match e
    case Const(_) =>
    case Var(_) =>
    case Bin(_, left, right) =>
      CallCounts(left);
      CallCounts(right);
    case Call(_, args) =>
      ArgCallCounts(args);
  }

  lemma {:induction false} ArgCallCounts(es: seq<Expr>)
    ensures ArgCalls(es, 1) <= ArgCalls(es, 2)
    ensures ArgCalls(es, 1) == 0 <==> AllCallFree(es)
    ensures AllCallFree(es) ==> ArgCalls(es, 2) == 0
  {
    if es != [] {
      CallCounts(es[0]);
      ArgCallCounts(es[1..]);
      CallFreeIsFlat(es[0]);
    }
  }

  lemma {:induction false} CallFreeIsFlat(e: Expr)
    ensures CallFree(e) ==> FlatCalls(e)
  {
    if e.Bin? {
      CallFreeIsFlat(e.left);
      CallFreeIsFlat(e.right);
    }
  }

  lemma {:induction false} CallFreeSame(e: Expr, vals: Scope<Int32>, trace: seq<Event>, world: World)
    requires CallFree(e)
    ensures EvalExpr(e, vals, trace, world) == EvalOnce(e, vals, trace, world)
    ensures var v := EvalExpr(e, vals, trace, world); v.Some? ==> v.value.trace == trace
  {
    if e.Bin? {
      CallFreeSame(e.left, vals, trace, world);
      CallFreeSame(e.right, vals, trace, world);
    }
  }

  lemma {:induction false} CallFreeArgsSame(es: seq<Expr>, vals: Scope<Int32>, trace: seq<Event>, world: World)
    requires AllCallFree(es)
    ensures EvalArgs(es, vals, trace, world) == ArgsOnce(es, vals, trace, world)
    ensures var vs := EvalArgs(es, vals, trace, world); vs.Some? ==> vs.value.trace == trace
  {
    if es != [] {
      CallFreeSame(es[0], vals, trace, world);
      CallFreeArgsSame(es[1..], vals, trace, world);
    }
  }

  lemma {:induction false} FlatSame(e: Expr, vals: Scope<Int32>, trace: seq<Event>, world: World)
    requires FlatCalls(e)
    ensures EvalExpr(e, vals, trace, world) == EvalOnce(e, vals, trace, world)
  {
    match e
    case Const(_) =>
    case Var(_) =>
    case Bin(_, left, right) =>
      FlatSame(left, vals, trace, world);
      var l := EvalExpr(left, vals, trace, world);
      if l.Some? {
        FlatSame(right, vals, l.value.trace, world);
      }
    case Call(_, args) =>
      CallFreeArgsSame(args, vals, trace, world);
  }

  /**
   The generated code evaluates an expression as written if and only if no
   call is nested in the arguments of another call.
   */
  lemma EvaluatedAsWritten(e: Expr, vals: Scope<Int32>, trace: seq<Event>, world: World)
    requires EvalOnce(e, vals, trace, world).Some?
    ensures EvalExpr(e, vals, trace, world) == EvalOnce(e, vals, trace, world) <==> FlatCalls(e)
  {
    if FlatCalls(e) {
      FlatSame(e, vals, trace, world);
    } else {
      CallsMade(e, vals, trace, world);
      CallCounts(e);
    }
  }

  /** `f(g())` calls g twice before it calls f once. */
  lemma NestedCallRunsTwice(f: string, g: string, world: World)
    ensures var x := world([Event(g, [])]);
            var y := world([Event(g, []), Event(g, [])]);
            var r := EvalExpr(Call(f, [Call(g, [])]), Root, [], world);
            r.Some? && r.value.trace == [Event(g, []), Event(g, []), Event(f, [y])]
  {
    var inner, one, two := Call(g, []), [Event(g, [])], [Event(g, []), Event(g, [])];
    assert [] + [Event(g, [])] == one && one + [Event(g, [])] == two;
    ArgOfOne(inner, Root, [], world);
    ArgOfOne(inner, Root, one, world);
  }

  lemma ArgOfOne(e: Expr, vals: Scope<Int32>, trace: seq<Event>, world: World)
    ensures var v := EvalExpr(e, vals, trace, world);
            EvalArgs([e], vals, trace, world) == if v.None? then None else Some(Value([v.value.v], v.value.trace))
  {
    assert [e][1..] == [];
    var v := EvalExpr(e, vals, trace, world);
    if v.Some? {
      assert [v.value.v] + [] == [v.value.v];
    }
  }

  // ------------------------------------------------------------ whole functions

  function CondOnce(c: Cond, vals: Scope<Int32>, trace: seq<Event>, world: World): Option<Value<bool>> {
    match c
    case Literal(b) => Some(Value(b, trace))
    case Compare(p, left, right) =>
      var l :- EvalOnce(left, vals, trace, world);
      var r :- EvalOnce(right, vals, l.trace, world);
      Some(Value(Holds(p, l.v, r.v), r.trace))
  }

  /** As `ExecBlock`, with every argument evaluated once. */
  function BlockOnce(ss: seq<Stmt>, vals: Scope<Int32>, trace: seq<Event>, world: World, fuel: nat): Outcome
    decreases fuel, ss, 0
  {
    if ss == [] then Done(vals, trace)
    else
      var o := StmtOnce(ss[0], vals, trace, world, fuel);
      if o.Done? then BlockOnce(ss[1..], o.vals, o.trace, world, fuel) else o
  }

  function StmtOnce(s: Stmt, vals: Scope<Int32>, trace: seq<Event>, world: World, fuel: nat): Outcome
    decreases fuel, s, 0
  {
    match s
    case Eval(e) =>
      var v := EvalOnce(e, vals, trace, world);
      if v.None? then Stuck else Done(vals, v.value.trace)
    case Assign(x, e) =>
      var v := EvalOnce(e, vals, trace, world);
      if v.None? then Stuck
      else if Lookup(vals, x).Some? then Done(Update(vals, x, v.value.v), v.value.trace)
      else Done(Declare(vals, x, v.value.v), v.value.trace)
    case If(cond, thn, els) =>
      var c := CondOnce(cond, vals, trace, world);
      if c.None? then Stuck
      else Leave(BlockOnce(if c.value.v then thn else els, Frame(map[], vals), c.value.trace, world, fuel))
    case For(x, start, end, body) =>
      var v := EvalOnce(start, vals, trace, world);
      if v.None? then Stuck
      else LoopOnce(x, end, body, v.value.v, vals, v.value.trace, world, fuel)
  }

  function LoopOnce(x: string, end: Expr, body: seq<Stmt>, cur: Int32,
                    vals: Scope<Int32>, trace: seq<Event>, world: World, fuel: nat): Outcome
    decreases fuel, body, 1
  {
    if fuel == 0 then OutOfFuel(trace)
    else
      var limit := EvalOnce(end, vals, trace, world);
      if limit.None? then Stuck
      else if cur < limit.value.v then
        var inner := Frame(map[], Frame(map[x := cur], vals));
        var o := Leave(Leave(BlockOnce(body, inner, limit.value.trace, world, fuel - 1)));
        if o.Done? then LoopOnce(x, end, body, Wrap32(cur + 1), o.vals, o.trace, world, fuel - 1) else o
      else Done(Leak(vals, x, cur), limit.value.trace)
  }

  /** No call in the statements is nested in the arguments of another. */
  predicate FlatBlock(ss: seq<Stmt>) {
    ss == [] || (FlatStmt(ss[0]) && FlatBlock(ss[1..]))
  }

  predicate FlatStmt(s: Stmt) {
    match s
    case Eval(e) => FlatCalls(e)
    case Assign(_, e) => FlatCalls(e)
    case If(cond, thn, els) => (cond.Compare? ==> FlatCalls(cond.left) && FlatCalls(cond.right)) && FlatBlock(thn) && FlatBlock(els)
    case For(_, start, end, body) => FlatCalls(start) && FlatCalls(end) && FlatBlock(body)
  }

  lemma CondSame(c: Cond, vals: Scope<Int32>, trace: seq<Event>, world: World)
    requires c.Compare? ==> FlatCalls(c.left) && FlatCalls(c.right)
    ensures EvalCond(c, vals, trace, world) == CondOnce(c, vals, trace, world)
  {
    if c.Compare? {
      FlatSame(c.left, vals, trace, world);
      var l := EvalExpr(c.left, vals, trace, world);
      if l.Some? {
        FlatSame(c.right, vals, l.value.trace, world);
      }
    }
  }

  lemma {:induction false} BlockSame(ss: seq<Stmt>, vals: Scope<Int32>, trace: seq<Event>, world: World, fuel: nat)
    requires FlatBlock(ss)
    ensures ExecBlock(ss, vals, trace, world, fuel) == BlockOnce(ss, vals, trace, world, fuel)
    decreases fuel, ss, 0
  {
    if ss != [] {
      StmtSame(ss[0], vals, trace, world, fuel);
      var o := ExecStmt(ss[0], vals, trace, world, fuel);
      if o.Done? {
        BlockSame(ss[1..], o.vals, o.trace, world, fuel);
      }
    }
  }

  lemma {:induction false} StmtSame(s: Stmt, vals: Scope<Int32>, trace: seq<Event>, world: World, fuel: nat)
    requires FlatStmt(s)
    ensures ExecStmt(s, vals, trace, world, fuel) == StmtOnce(s, vals, trace, world, fuel)
    decreases fuel, s, 0
  {
    match s
    case Eval(e) => FlatSame(e, vals, trace, world);
    case Assign(_, e) => FlatSame(e, vals, trace, world);
    case If(cond, thn, els) =>
      CondSame(cond, vals, trace, world);
      var c := EvalCond(cond, vals, trace, world);
      if c.Some? {
        BlockSame(if c.value.v then thn else els, Frame(map[], vals), c.value.trace, world, fuel);
      }
    case For(x, start, end, body) =>
      FlatSame(start, vals, trace, world);
      var v := EvalExpr(start, vals, trace, world);
      if v.Some? {
        LoopSame(x, end, body, v.value.v, vals, v.value.trace, world, fuel);
      }
  }

  lemma {:induction false} LoopSame(x: string, end: Expr, body: seq<Stmt>, cur: Int32,
                                    vals: Scope<Int32>, trace: seq<Event>, world: World, fuel: nat)
    requires FlatCalls(end) && FlatBlock(body)
    ensures ExecLoop(x, end, body, cur, vals, trace, world, fuel) == LoopOnce(x, end, body, cur, vals, trace, world, fuel)
    decreases fuel, body, 1
  {
    if fuel > 0 {
      FlatSame(end, vals, trace, world);
      var limit := EvalExpr(end, vals, trace, world);
      if limit.Some? && cur < limit.value.v {
        var inner := Frame(map[], Frame(map[x := cur], vals));
        BlockSame(body, inner, limit.value.trace, world, fuel - 1);
        var o := Leave(Leave(ExecBlock(body, inner, limit.value.trace, world, fuel - 1)));
        if o.Done? {
          LoopSame(x, end, body, Wrap32(cur + 1), o.vals, o.trace, world, fuel - 1);
        }
      }
    }
  }

  /** A function none of whose calls is nested in another behaves as if every argument were evaluated once. */
  lemma FunctionAsWritten(params: seq<string>, body: seq<Stmt>, args: seq<Int32>, world: World, fuel: nat)
    requires |params| == |args| && FlatBlock(body)
    ensures CallFunction(params, body, args, world, fuel)
         == Leave(BlockOnce(body, Frame(map[], BindArgs(params, args, 0, Frame(map[], Root))), [], world, fuel))
  {
    BlockSame(body, Frame(map[], BindArgs(params, args, 0, Frame(map[], Root))), [], world, fuel);
  }
}
