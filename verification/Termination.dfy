/**
 Every loop ends, whatever its body and its limit do: the loop variable's own
 copy counts up by one and cannot pass the largest 32-bit integer.
 */
module Termination {
  import opened Wrappers
  import opened Language

  /** Rounds that are enough for a block: nested loops add up, others share. */
  function Need(ss: seq<Stmt>): nat {
    if ss == [] then 0 else Max(NeedOf(ss[0]), Need(ss[1..]))
  }

  function NeedOf(s: Stmt): nat {
    match s
    case Eval(_) => 0
    case Assign(_, _) => 0
    case If(_, thn, els) => Max(Need(thn), Need(els))
    case For(_, _, _, body) => 0x1_0000_0000 + Need(body)
  }

  function Max(a: nat, b: nat): nat {
    if a < b then b else a
  }

  lemma {:induction false} BlockEnds(ss: seq<Stmt>, vals: Scope<Int32>, trace: seq<Event>, world: World, fuel: nat)
    requires fuel >= Need(ss)
    ensures !ExecBlock(ss, vals, trace, world, fuel).OutOfFuel?
    decreases fuel, ss, 0
  {
    if ss != [] {
      StmtEnds(ss[0], vals, trace, world, fuel);
      var o := ExecStmt(ss[0], vals, trace, world, fuel);
      if o.Done? {
        BlockEnds(ss[1..], o.vals, o.trace, world, fuel);
      }
    }
  }

  lemma {:induction false} StmtEnds(s: Stmt, vals: Scope<Int32>, trace: seq<Event>, world: World, fuel: nat)
    requires fuel >= NeedOf(s)
    ensures !ExecStmt(s, vals, trace, world, fuel).OutOfFuel?
    decreases fuel, s, 0
  {
    match s
    case Eval(_) =>
    case Assign(_, _) =>
    case If(cond, thn, els) =>
      var c := EvalCond(cond, vals, trace, world);
      if c.Some? {
        BlockEnds(if c.value.v then thn else els, Frame(map[], vals), c.value.trace, world, fuel);
      }
    case For(x, start, end, body) =>
      var v := EvalExpr(start, vals, trace, world);
      if v.Some? {
        LoopEnds(x, end, body, v.value.v, vals, v.value.trace, world, fuel);
      }
  }

  /** A loop at `cur` has no more rounds left than there are integers above. */
  lemma {:induction false} LoopEnds(x: string, end: Expr, body: seq<Stmt>, cur: Int32,
                                    vals: Scope<Int32>, trace: seq<Event>, world: World, fuel: nat)
    requires fuel >= Need(body) + (0x8000_0000 - cur)
    ensures !ExecLoop(x, end, body, cur, vals, trace, world, fuel).OutOfFuel?
    decreases fuel, body, 1
  {
    var limit := EvalExpr(end, vals, trace, world);
    if limit.Some? && cur < limit.value.v {
      assert Wrap32(cur + 1) == cur + 1;
      var inner := Frame(map[], Frame(map[x := cur], vals));
      BlockEnds(body, inner, limit.value.trace, world, fuel - 1);
      var o := Leave(Leave(ExecBlock(body, inner, limit.value.trace, world, fuel - 1)));
      if o.Done? {
        LoopEnds(x, end, body, Wrap32(cur + 1), o.vals, o.trace, world, fuel - 1);
      }
    }
  }

  // ------------------------------------------------------ more fuel than enough

  /** Once a run ends, more fuel does not change it. */
  lemma {:induction false} BlockSettled(ss: seq<Stmt>, vals: Scope<Int32>, trace: seq<Event>, world: World, fuel: nat, more: nat)
    requires fuel <= more && !ExecBlock(ss, vals, trace, world, fuel).OutOfFuel?
    ensures ExecBlock(ss, vals, trace, world, more) == ExecBlock(ss, vals, trace, world, fuel)
    decreases fuel, ss, 0
  {
    if ss != [] {
      StmtSettled(ss[0], vals, trace, world, fuel, more);
      var o := ExecStmt(ss[0], vals, trace, world, fuel);
      if o.Done? {
        BlockSettled(ss[1..], o.vals, o.trace, world, fuel, more);
      }
    }
  }

  lemma {:induction false} StmtSettled(s: Stmt, vals: Scope<Int32>, trace: seq<Event>, world: World, fuel: nat, more: nat)
    requires fuel <= more && !ExecStmt(s, vals, trace, world, fuel).OutOfFuel?
    ensures ExecStmt(s, vals, trace, world, more) == ExecStmt(s, vals, trace, world, fuel)
    decreases fuel, s, 0
  {
    match s
    case Eval(_) =>
    case Assign(_, _) =>
    case If(cond, thn, els) =>
      var c := EvalCond(cond, vals, trace, world);
      if c.Some? {
        BlockSettled(if c.value.v then thn else els, Frame(map[], vals), c.value.trace, world, fuel, more);
      }
    case For(x, start, end, body) =>
      var v := EvalExpr(start, vals, trace, world);
      if v.Some? {
        LoopSettled(x, end, body, v.value.v, vals, v.value.trace, world, fuel, more);
      }
  }

  lemma {:induction false} LoopSettled(x: string, end: Expr, body: seq<Stmt>, cur: Int32,
                                       vals: Scope<Int32>, trace: seq<Event>, world: World, fuel: nat, more: nat)
    requires fuel <= more && !ExecLoop(x, end, body, cur, vals, trace, world, fuel).OutOfFuel?
    ensures ExecLoop(x, end, body, cur, vals, trace, world, more) == ExecLoop(x, end, body, cur, vals, trace, world, fuel)
    decreases fuel, body, 1
  {
    var limit := EvalExpr(end, vals, trace, world);
    if limit.Some? && cur < limit.value.v {
      var inner := Frame(map[], Frame(map[x := cur], vals));
      BlockSettled(body, inner, limit.value.trace, world, fuel - 1, more - 1);
      var o := Leave(Leave(ExecBlock(body, inner, limit.value.trace, world, fuel - 1)));
      if o.Done? {
        LoopSettled(x, end, body, Wrap32(cur + 1), o.vals, o.trace, world, fuel - 1, more - 1);
      }
    }
  }
}
