/** The code generator as it runs: one builder, updated in place, method by method. */
module CodeGenerator {
  import opened Wrappers
  import opened Language
  import opened Machine
  import opened Lowering

  class Builder {
    var blocks: Code
    var layout: seq<nat>
    var insertBlock: nat
    var nextReg: nat
    var nextSlot: nat

    function State(): IR
      reads this
    {
      IR(blocks, layout, insertBlock, nextReg, nextSlot)
    }

    /** A function whose entry block is current; its arguments are the first registers. */
    constructor (params: nat)
      ensures State() == EntryBlock(params)
    {
      blocks, layout, insertBlock, nextReg, nextSlot := [[]], [0], 0, params, 0;
    }

    method Create(i: Instr)
      requires State().Valid()
      modifies this`blocks
      ensures State() == old(State()).Emit(i)
    {
      blocks := blocks[insertBlock := blocks[insertBlock] + [i]];
    }

    method FreshReg() returns (r: nat)
      modifies this`nextReg
      ensures r == old(nextReg) && State() == old(State()).(regs := r + 1)
    {
      r := nextReg;
      nextReg := nextReg + 1;
    }

    /** An alloca in the entry block. */
    method CreateAlloca() returns (slot: nat)
      modifies this`nextSlot
      ensures slot == old(nextSlot) && State() == old(State()).(slots := slot + 1)
    {
      slot := nextSlot;
      nextSlot := nextSlot + 1;
    }

    /** A new block, not yet part of the function. */
    method CreateBlock() returns (block: nat)
      modifies this`blocks
      ensures block == |old(blocks)| && blocks == old(blocks) + [[]]
    {
      block := |blocks|;
      blocks := blocks + [[]];
    }

    method InsertBlock(block: nat)
      modifies this`layout
      ensures State() == old(State()).Insert(block)
    {
      layout := layout + [block];
    }

    method SetInsertPoint(block: nat)
      modifies this`insertBlock
      ensures State() == old(State()).At(block)
    {
      insertBlock := block;
    }

    method GenerateExpr(e: Expr, env: Scope<nat>) returns (v: Option<Operand>)
      requires State().Valid()
      modifies this
      ensures match LowerExpr(e, env, old(State()))
              case Some(r) => v == Some(r.v) && State() == r.b
              case None => v.None?
      decreases e, 0
    {
      match e
      case Const(c) =>
        return Some(Imm(c));
      case Var(x) =>
        var slot := Lookup(env, x);
        if slot.None? {
          return None;
        }
        var r := FreshReg();
        Create(Load(r, slot.value));
        return Some(Reg(r));
      case Bin(op, left, right) =>
        var l := GenerateExpr(left, env);
        if l.None? {
          return None;
        }
        var r := GenerateExpr(right, env);
        if r.None? {
          return None;
        }
        var dst := FreshReg();
        Create(Compute(dst, op, l.value, r.value));
        return Some(Reg(dst));
      case Call(f, args) =>
        var vs := GenerateArgs(args, env);
        if vs.None? {
          return None;
        }
        vs := GenerateArgs(args, env);
        if vs.None? {
          return None;
        }
        var dst := FreshReg();
        Create(Invoke(dst, f, vs.value));
        return Some(Reg(dst));
    }

    method GenerateArgs(es: seq<Expr>, env: Scope<nat>) returns (vs: Option<seq<Operand>>)
      requires State().Valid()
      modifies this
      ensures match LowerArgs(es, env, old(State()))
              case Some(r) => vs == Some(r.vs) && State() == r.b
              case None => vs.None?
      decreases es, 1
    {
      var done: seq<Operand> := [];
      assert es[0..] == es;
      ghost var all := LowerArgs(es, env, State());
      assert all.Some? ==> [] + all.value.vs == all.value.vs;
      for i := 0 to |es|
        invariant State().Valid()
        invariant ArgsLeft(es, i, env, State(), done, all)
      {
        ghost var b := State();
        assert es[i] in es;
        var v := GenerateExpr(es[i], env);
        NextArg(es, i, env, b, done, all);
        if v.None? {
          return None;
        }
        done := done + [v.value];
      }
      assert es[|es|..] == [] && done + [] == done;
      return Some(done);
    }

    method GenerateCond(c: Cond, env: Scope<nat>) returns (v: Option<Operand>)
      requires State().Valid()
      modifies this
      ensures match LowerCond(c, env, old(State()))
              case Some(r) => v == Some(r.v) && State() == r.b
              case None => v.None?
    {
      match c
      case Literal(b) =>
        return Some(Imm(Flag(b)));
      case Compare(p, left, right) =>
        var l := GenerateExpr(left, env);
        if l.None? {
          return None;
        }
        var r := GenerateExpr(right, env);
        if r.None? {
          return None;
        }
        var dst := FreshReg();
        Create(ICmp(dst, p, l.value, r.value));
        return Some(Reg(dst));
    }

    method GenerateScopeBody(ss: seq<Stmt>, env: Scope<nat>) returns (env': Option<Scope<nat>>)
      requires State().Valid()
      modifies this
      ensures match LowerBlock(ss, env, old(State()))
              case Some(r) => env' == Some(r.env) && State() == r.b
              case None => env'.None?
      decreases ss, 1
    {
      var scope := env;
      assert ss[0..] == ss;
      for i := 0 to |ss|
        invariant State().Valid()
        invariant LowerBlock(ss, env, old(State())) == LowerBlock(ss[i..], scope, State())
      {
        assert ss[i..][1..] == ss[i + 1..];
        assert ss[i..][0] == ss[i] && ss[i] in ss;
        var next := GenerateStmt(ss[i], scope);
        if next.None? {
          return None;
        }
        scope := next.value;
      }
      return Some(scope);
    }

    method GenerateStmt(s: Stmt, env: Scope<nat>) returns (env': Option<Scope<nat>>)
      requires State().Valid()
      modifies this
      ensures match LowerStmt(s, env, old(State()))
              case Some(r) => env' == Some(r.env) && State() == r.b
              case None => env'.None?
      decreases s, 1
    {
      match s
      case Eval(e) =>
        var v := GenerateExpr(e, env);
        return if v.None? then None else Some(env);
      case Assign(x, e) =>
        env' := GenerateAssign(x, e, env);
      case If(_, _, _) =>
        env' := GenerateIf(s, env);
      case For(_, _, _, _) =>
        env' := GenerateFor(s, env);
    }

    method GenerateAssign(x: string, e: Expr, env: Scope<nat>) returns (env': Option<Scope<nat>>)
      requires State().Valid()
      modifies this
      ensures match LowerStmt(Assign(x, e), env, old(State()))
              case Some(r) => env' == Some(r.env) && State() == r.b
              case None => env'.None?
    {
      var v := GenerateExpr(e, env);
      if v.None? {
        return None;
      }
      var found := Lookup(env, x);
      if found.Some? {
        Create(Store(v.value, found.value));
        return Some(env);
      }
      var slot := CreateAlloca();
      Create(Store(v.value, slot));
      return Some(Declare(env, x, slot));
    }

    /** Creates the three blocks of an if statement and branches on the condition. */
    method BeginIf(cond: Operand) returns (thenBB: nat, elseBB: nat, mergeBB: nat)
      requires State().Valid()
      modifies this
      ensures State() == Branch(Emitted(old(State()), cond))
      ensures thenBB == |old(blocks)| && elseBB == thenBB + 1 && mergeBB == thenBB + 2
    {
      var test := FreshReg();
      Create(ICmp(test, NotEqual, cond, Imm(0)));
      thenBB := CreateBlock();
      InsertBlock(thenBB);
      elseBB := CreateBlock();
      mergeBB := CreateBlock();
      assert blocks == old(State()).Emit(ICmp(test, NotEqual, cond, Imm(0))).blocks + [[], [], []];
      Create(CondBr(Reg(test), thenBB, elseBB));
      SetInsertPoint(thenBB);
    }

    /** Ends the current branch and starts the next block. */
    method JoinAt(mergeBB: nat, next: nat)
      requires State().Valid() && next < |blocks|
      modifies this
      ensures State() == Join(old(State()), mergeBB, next)
    {
      Create(Br(mergeBB));
      InsertBlock(next);
      SetInsertPoint(next);
    }

    method GenerateIf(s: Stmt, env: Scope<nat>) returns (env': Option<Scope<nat>>)
      requires s.If? && State().Valid()
      modifies this
      ensures match LowerIf(s, env, old(State()))
              case Some(r) => env' == Some(r.env) && State() == r.b
              case None => env'.None?
      decreases s, 0
    {
      var cond := GenerateCond(s.cond, env);
      if cond.None? {
        return None;
      }
      var thenBB, elseBB, mergeBB := BeginIf(cond.value);
      var t := GenerateScopeBody(s.thn, Frame(map[], env));
      if t.None? {
        return None;
      }
      JoinAt(mergeBB, elseBB);
      var e := GenerateScopeBody(s.els, Frame(map[], env));
      if e.None? {
        return None;
      }
      JoinAt(mergeBB, mergeBB);
      return Some(env);
    }

    /** Creates the three blocks of a loop, initialises its variable and enters the condition block. */
    method BeginFor(start: Operand) returns (condBB: nat, loopBB: nat, afterBB: nat, slot: nat)
      requires State().Valid()
      modifies this
      ensures State() == EnterLoop(Emitted(old(State()), start))
      ensures condBB == |old(blocks)| && loopBB == condBB + 1 && afterBB == condBB + 2 && slot == old(nextSlot)
    {
      condBB := CreateBlock();
      InsertBlock(condBB);
      loopBB := CreateBlock();
      InsertBlock(loopBB);
      afterBB := CreateBlock();
      InsertBlock(afterBB);
      assert blocks == old(blocks) + [[], [], []];
      assert layout == old(layout) + [condBB, loopBB, afterBB];
      slot := CreateAlloca();
      Create(Store(start, slot));
      Create(Br(condBB));
      SetInsertPoint(condBB);
    }

    /** Compares the loop variable with the limit and enters the loop block. */
    method TestFor(end: Operand, slot: nat, condBB: nat, loopBB: nat, afterBB: nat) returns (current: nat)
      requires State().Valid() && afterBB < |blocks| && loopBB == condBB + 1 && afterBB == condBB + 2
      modifies this
      ensures State() == TestLoop(Emitted(old(State()), end), slot, condBB)
      ensures current == old(nextReg)
    {
      current := FreshReg();
      Create(Load(current, slot));
      var test := FreshReg();
      Create(ICmp(test, Less, Reg(current), end));
      Create(CondBr(Reg(test), loopBB, afterBB));
      SetInsertPoint(loopBB);
    }

    /** Stores the loaded value plus one, jumps back and continues after the loop. */
    method EndFor(slot: nat, current: nat, condBB: nat, afterBB: nat)
      requires State().Valid() && afterBB < |blocks| && afterBB == condBB + 2
      modifies this
      ensures State() == StepLoop(old(State()), slot, current, condBB)
    {
      var next := FreshReg();
      Create(Compute(next, Plus, Reg(current), Imm(1)));
      Create(Store(Reg(next), slot));
      Create(Br(condBB));
      SetInsertPoint(afterBB);
    }

    method GenerateFor(s: Stmt, env: Scope<nat>) returns (env': Option<Scope<nat>>)
      requires s.For? && State().Valid()
      modifies this
      ensures match LowerFor(s, env, old(State()))
              case Some(r) => env' == Some(r.env) && State() == r.b
              case None => env'.None?
      decreases s, 0
    {
      var start := GenerateExpr(s.start, env);
      if start.None? {
        return None;
      }
      var condBB, loopBB, afterBB, slot := BeginFor(start.value);
      var end := GenerateExpr(s.end, env);
      if end.None? {
        return None;
      }
      var current := TestFor(end.value, slot, condBB, loopBB, afterBB);
      var body := GenerateScopeBody(s.body, Frame(map[], Frame(map[s.name := slot], env)));
      if body.None? {
        return None;
      }
      EndFor(slot, current, condBB, afterBB);
      return Some(Leak(env, s.name, slot));
    }
  }

  /** The arguments from `i` on, generated in state `b` after `done`, complete `all`. */
  ghost predicate ArgsLeft(es: seq<Expr>, i: nat, env: Scope<nat>, b: IR, done: seq<Operand>, all: Option<EmittedAll>)
    requires i <= |es| && b.Valid()
  {
    var rest := LowerArgs(es[i..], env, b);
    if rest.None? then all.None? else all == Some(EmittedAll(rest.value.b, done + rest.value.vs))
  }

  lemma NextArg(es: seq<Expr>, i: nat, env: Scope<nat>, b: IR, done: seq<Operand>, all: Option<EmittedAll>)
    requires i < |es| && b.Valid() && ArgsLeft(es, i, env, b, done, all)
    ensures var v := LowerExpr(es[i], env, b);
            if v.None? then all.None? else v.value.b.Valid() && ArgsLeft(es, i + 1, env, v.value.b, done + [v.value.v], all)
  {
    assert es[i..][0] == es[i] && es[i..][1..] == es[i + 1..];
    var v := LowerExpr(es[i], env, b);
    if v.Some? {
      var rest := LowerArgs(es[i + 1..], env, v.value.b);
      assert rest.Some? ==> done + [v.value.v] + rest.value.vs == done + ([v.value.v] + rest.value.vs);
    }
  }

  /** Generates a function into a fresh builder; `None` when a name is unbound. */
  method GenerateFunction(params: seq<string>, body: seq<Stmt>) returns (ir: Option<IR>)
    ensures ir == LowerFunction(params, body)
  {
    var builder := new Builder(|params|);
    var env: Scope<nat> := Frame(map[], Root);
    for i := 0 to |params|
      invariant builder.State().Valid()
      invariant LowerParams(params, 0, Frame(map[], Root), EntryBlock(|params|)) == LowerParams(params, i, env, builder.State())
    {
      var slot := builder.CreateAlloca();
      builder.Create(Store(Reg(i), slot));
      env := Declare(env, params[i], slot);
    }
    var scope := builder.GenerateScopeBody(body, Frame(map[], env));
    if scope.None? {
      return None;
    }
    builder.Create(Ret);
    return Some(builder.State());
  }
}
