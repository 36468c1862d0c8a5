/**
 The code generator: statements become basic blocks through a stateful builder
 with an insertion block.  `LowerStmt` and its companions say what the builder
 looks like afterwards; module `CodeGenerator` holds the generator itself.
 */
module Lowering {
  import opened Wrappers
  import opened Language
  import opened Machine

  /**
   A function under construction.  Block numbers are handed out when a block
   is created; `layout` lists the blocks already inserted into the function.
   Stack slots are the entry block's allocas, numbered as they are created.
   */
  datatype IR = IR(blocks: Code, layout: seq<nat>, cur: nat, regs: nat, slots: nat) {
    predicate Valid() {
      cur < |blocks|
    }

    function Here(): nat
      requires Valid()
    {
      |blocks[cur]|
    }

    function Emit(i: Instr): IR
      requires Valid()
    {
      this.(blocks := blocks[cur := blocks[cur] + [i]])
    }

    /** Emits the instruction that defines the next register. */
    function EmitDef(i: Instr): Emitted
      requires Valid()
    {
      Emitted(Emit(i).(regs := regs + 1), Reg(regs))
    }

    /** Three new blocks, of which the first `inserted` go into the function. */
    function NewBlocks(inserted: nat): IR
      requires inserted <= 3
    {
      var n := |blocks|;
      this.(blocks := blocks + [[], [], []], layout := layout + [n, n + 1, n + 2][..inserted])
    }

    function Insert(block: nat): IR {
      this.(layout := layout + [block])
    }

    function At(block: nat): IR {
      this.(cur := block)
    }
  }

  datatype Emitted = Emitted(b: IR, v: Operand)

  datatype EmittedAll = EmittedAll(b: IR, vs: seq<Operand>)

  datatype Lowered = Lowered(b: IR, env: Scope<nat>)

  /** The operand is a constant or one of the first `n` registers. */
  predicate Known(v: Operand, n: nat) {
    v.Reg? ==> v.id < n
  }

  /** Only instructions were added, and only to the insertion block. */
  predicate Straight(b: IR, b': IR) {
    && b'.cur == b.cur && |b'.blocks| == |b.blocks|
    && b'.layout == b.layout && b'.slots == b.slots && b.regs <= b'.regs
  }

  /** Blocks, registers and slots are never taken back. */
  predicate Onward(b: IR, b': IR) {
    b'.Valid() && |b.blocks| <= |b'.blocks| && b.regs <= b'.regs && b.slots <= b'.slots
  }

  // ------------------------------------------------------------ expressions

  function LowerExpr(e: Expr, env: Scope<nat>, b: IR): (r: Option<Emitted>)
    requires b.Valid()
    ensures r.Some? ==> Straight(b, r.value.b) && Known(r.value.v, r.value.b.regs)
    decreases e, 0
  {
    match e
    case Const(v) => Some(Emitted(b, Imm(v)))
    case Var(x) =>
      var slot :- Lookup(env, x);
      Some(b.EmitDef(Load(b.regs, slot)))
    case Bin(op, left, right) =>
      var l :- LowerExpr(left, env, b);
      var r :- LowerExpr(right, env, l.b);
      Some(r.b.EmitDef(Compute(r.b.regs, op, l.v, r.v)))
    case Call(f, args) =>
      var first :- LowerArgs(args, env, b);
      var second :- LowerArgs(args, env, first.b);
      Some(second.b.EmitDef(Invoke(second.b.regs, f, second.vs)))
  }

  function LowerArgs(es: seq<Expr>, env: Scope<nat>, b: IR): (r: Option<EmittedAll>)
    requires b.Valid()
    ensures r.Some? ==> Straight(b, r.value.b) && forall v | v in r.value.vs :: Known(v, r.value.b.regs)
    decreases es, 1
  {
    if es == [] then Some(EmittedAll(b, []))
    else
      var v :- LowerExpr(es[0], env, b);
      var vs :- LowerArgs(es[1..], env, v.b);
      Some(EmittedAll(vs.b, [v.v] + vs.vs))
  }

  function LowerCond(c: Cond, env: Scope<nat>, b: IR): (r: Option<Emitted>)
    requires b.Valid()
    ensures r.Some? ==> Straight(b, r.value.b) && Known(r.value.v, r.value.b.regs)
  {
    match c
    case Literal(v) => Some(Emitted(b, Imm(Flag(v))))
    case Compare(p, left, right) =>
      var l :- LowerExpr(left, env, b);
      var r :- LowerExpr(right, env, l.b);
      Some(r.b.EmitDef(ICmp(r.b.regs, p, l.v, r.v)))
  }

  // ------------------------------------------------------------- statements

  function LowerBlock(ss: seq<Stmt>, env: Scope<nat>, b: IR): (r: Option<Lowered>)
    requires b.Valid()
    ensures r.Some? ==> Onward(b, r.value.b)
    decreases ss, 1
  {
    if ss == [] then Some(Lowered(b, env))
    else
      var s :- LowerStmt(ss[0], env, b);
      LowerBlock(ss[1..], s.env, s.b)
  }

  function LowerStmt(s: Stmt, env: Scope<nat>, b: IR): (r: Option<Lowered>)
    requires b.Valid()
    ensures r.Some? ==> Onward(b, r.value.b)
    decreases s, 1
  {
    match s
    case Eval(e) =>
      var v :- LowerExpr(e, env, b);
      Some(Lowered(v.b, env))
    case Assign(x, e) =>
      var v :- LowerExpr(e, env, b);
      Some(LowerStore(x, v, env))
    case If(_, _, _) => LowerIf(s, env, b)
    case For(_, _, _, _) => LowerFor(s, env, b)
  }

  /** Stores to the variable's slot, which is created if the name is new. */
  function LowerStore(x: string, v: Emitted, env: Scope<nat>): (r: Lowered)
    requires v.b.Valid()
    ensures Onward(v.b, r.b)
  {
    var slot := Lookup(env, x);
    if slot.Some? then Lowered(v.b.Emit(Store(v.v, slot.value)), env)
    else Lowered(v.b.Emit(Store(v.v, v.b.slots)).(slots := v.b.slots + 1), Declare(env, x, v.b.slots))
  }

  /** The end of the condition: a branch to `then` or `else`, with `then` current. */
  function Branch(c: Emitted): (b: IR)
    requires c.b.Valid()
    ensures Onward(c.b, b) && b.slots == c.b.slots
    ensures b.cur == |c.b.blocks| && |b.blocks| == |c.b.blocks| + 3 && b.layout == c.b.layout + [b.cur]
  {
    var n := |c.b.blocks|;
    var test := c.b.EmitDef(ICmp(c.b.regs, NotEqual, c.v, Imm(0)));
    test.b.NewBlocks(1).Emit(CondBr(test.v, n, n + 1)).At(n)
  }

  /** Leaves a branch for the merge block and continues in `next`. */
  function Join(b: IR, merge: nat, next: nat): (b': IR)
    requires b.Valid() && next < |b.blocks|
    ensures Onward(b, b') && b'.cur == next && |b'.blocks| == |b.blocks| && b'.slots == b.slots
    ensures b'.layout == b.layout + [next]
  {
    b.Emit(Br(merge)).Insert(next).At(next)
  }

  function LowerIf(s: Stmt, env: Scope<nat>, b: IR): (r: Option<Lowered>)
    requires s.If? && b.Valid()
    ensures r.Some? ==> Onward(b, r.value.b)
    decreases s, 0
  {
    var c :- LowerCond(s.cond, env, b);
    var n := |c.b.blocks|;
    var t :- LowerBlock(s.thn, Frame(map[], env), Branch(c));
    var e :- LowerBlock(s.els, Frame(map[], env), Join(t.b, n + 2, n + 1));
    Some(Lowered(Join(e.b, n + 2, n + 2), env))
  }

  /** Enters the loop: the start value is stored and the condition block is current. */
  function EnterLoop(v: Emitted): (b: IR)
    requires v.b.Valid()
    ensures Onward(v.b, b) && |b.blocks| == |v.b.blocks| + 3
    ensures b.slots == v.b.slots + 1 && b.cur == |v.b.blocks| && b.regs == v.b.regs
    ensures b.layout == v.b.layout + [b.cur, b.cur + 1, b.cur + 2]
  {
    var n := |v.b.blocks|;
    v.b.NewBlocks(3).Emit(Store(v.v, v.b.slots)).(slots := v.b.slots + 1).Emit(Br(n)).At(n)
  }

  /** The condition block after the limit: loads the variable, compares and branches. */
  function TestLoop(limit: Emitted, slot: nat, n: nat): (b: IR)
    requires limit.b.Valid() && n + 2 < |limit.b.blocks|
    ensures Onward(limit.b, b) && |b.blocks| == |limit.b.blocks| && b.cur == n + 1
    ensures b.slots == limit.b.slots && b.regs == limit.b.regs + 2 && b.layout == limit.b.layout
  {
    var r := limit.b.regs;
    limit.b.Emit(Load(r, slot)).Emit(ICmp(r + 1, Less, Reg(r), limit.v))
      .Emit(CondBr(Reg(r + 1), n + 1, n + 2)).(regs := r + 2).At(n + 1)
  }

  /** The end of the body: the value loaded by the condition block plus one, and back. */
  function StepLoop(b: IR, slot: nat, current: nat, n: nat): (b': IR)
    requires b.Valid() && n + 2 < |b.blocks|
    ensures Onward(b, b') && |b'.blocks| == |b.blocks| && b'.cur == n + 2 && b'.layout == b.layout
  {
    b.Emit(Compute(b.regs, Plus, Reg(current), Imm(1))).Emit(Store(Reg(b.regs), slot))
      .Emit(Br(n)).(regs := b.regs + 1).At(n + 2)
  }

  function LowerFor(s: Stmt, env: Scope<nat>, b: IR): (r: Option<Lowered>)
    requires s.For? && b.Valid()
    ensures r.Some? ==> Onward(b, r.value.b)
    decreases s, 0
  {
    var v :- LowerExpr(s.start, env, b);
    var n, slot := |v.b.blocks|, v.b.slots;
    var limit :- LowerExpr(s.end, env, EnterLoop(v));
    var inner := Frame(map[], Frame(map[s.name := slot], env));
    var l :- LowerBlock(s.body, inner, TestLoop(limit, slot, n));
    Some(Lowered(StepLoop(l.b, slot, limit.b.regs, n), Leak(env, s.name, slot)))
  }

  // -------------------------------------------------------------- functions

  /** Copies the arguments, which arrive in the first registers, to stack slots. */
  function LowerParams(params: seq<string>, i: nat, env: Scope<nat>, b: IR): (r: Lowered)
    requires b.Valid() && i <= |params|
    ensures Onward(b, r.b)
    decreases |params| - i
  {
    if i == |params| then Lowered(b, env)
    else LowerParams(params, i + 1, Declare(env, params[i], b.slots), b.Emit(Store(Reg(i), b.slots)).(slots := b.slots + 1))
  }

  function EntryBlock(params: nat): IR {
    IR([[]], [0], 0, params, 0)
  }

  /** The whole function: parameters, body and the default return. */
  function LowerFunction(params: seq<string>, body: seq<Stmt>): Option<IR> {
    var p := LowerParams(params, 0, Frame(map[], Root), EntryBlock(|params|));
    var l :- LowerBlock(body, Frame(map[], p.env), p.b);
    Some(l.b.Emit(Ret))
  }

  // ------------------------------------------- emitted code stays in place

  /** Nothing emitted is changed or removed in the code `g`. */
  ghost predicate Within(b: IR, g: Code) {
    |b.blocks| <= |g| && forall k | 0 <= k < |b.blocks| :: b.blocks[k] <= g[k]
  }

  /** ... and of the old blocks only the insertion block grows. */
  ghost predicate Grows(b: IR, b': IR) {
    && Within(b, b'.blocks)
    && (b'.cur == b.cur || b'.cur >= |b.blocks|)
    && (forall k | 0 <= k < |b.blocks| && k != b.cur :: b'.blocks[k] == b.blocks[k])
  }

  lemma WithinTrans(b: IR, b': IR, g: Code)
    requires Within(b, b'.blocks) && Within(b', g)
    ensures Within(b, g)
  {
    forall k | 0 <= k < |b.blocks|
      ensures b.blocks[k] <= g[k]
    {
      assert b.blocks[k] <= b'.blocks[k] <= g[k];
    }
  }

  lemma GrowsTrans(b: IR, b': IR, b'': IR)
    requires b.Valid() && Grows(b, b') && Grows(b', b'')
    ensures Grows(b, b'')
  {
    WithinTrans(b, b', b''.blocks);
  }

  lemma {:induction false} ExprGrows(e: Expr, env: Scope<nat>, b: IR)
    requires b.Valid() && LowerExpr(e, env, b).Some?
    ensures Grows(b, LowerExpr(e, env, b).value.b)
    decreases e, 0
  {
    match e
    case Const(_) =>
    case Var(_) =>
    case Bin(op, left, right) =>
      var l := LowerExpr(left, env, b).value;
      ExprGrows(left, env, b);
      ExprGrows(right, env, l.b);
      GrowsTrans(b, l.b, LowerExpr(right, env, l.b).value.b);
    case Call(f, args) =>
      var a := LowerArgs(args, env, b).value;
      ArgsGrow(args, env, b);
      ArgsGrow(args, env, a.b);
      GrowsTrans(b, a.b, LowerArgs(args, env, a.b).value.b);
  }

  lemma {:induction false} ArgsGrow(es: seq<Expr>, env: Scope<nat>, b: IR)
    requires b.Valid() && LowerArgs(es, env, b).Some?
    ensures Grows(b, LowerArgs(es, env, b).value.b)
    decreases es, 1
  {
    if es != [] {
      var v := LowerExpr(es[0], env, b).value;
      ExprGrows(es[0], env, b);
      ArgsGrow(es[1..], env, v.b);
      GrowsTrans(b, v.b, LowerArgs(es[1..], env, v.b).value.b);
    }
  }

  lemma CondGrows(c: Cond, env: Scope<nat>, b: IR)
    requires b.Valid() && LowerCond(c, env, b).Some?
    ensures Grows(b, LowerCond(c, env, b).value.b)
  {
    if c.Compare? {
      var l := LowerExpr(c.left, env, b).value;
      ExprGrows(c.left, env, b);
      ExprGrows(c.right, env, l.b);
      GrowsTrans(b, l.b, LowerExpr(c.right, env, l.b).value.b);
    }
  }

  lemma {:induction false} BlockGrows(ss: seq<Stmt>, env: Scope<nat>, b: IR)
    requires b.Valid() && LowerBlock(ss, env, b).Some?
    ensures Grows(b, LowerBlock(ss, env, b).value.b)
    decreases ss, 1
  {
    if ss != [] {
      var s := LowerStmt(ss[0], env, b).value;
      StmtGrows(ss[0], env, b);
      BlockGrows(ss[1..], s.env, s.b);
      GrowsTrans(b, s.b, LowerBlock(ss[1..], s.env, s.b).value.b);
    }
  }

  lemma {:induction false} StmtGrows(s: Stmt, env: Scope<nat>, b: IR)
    requires b.Valid() && LowerStmt(s, env, b).Some?
    ensures Grows(b, LowerStmt(s, env, b).value.b)
    decreases s, 2
  {
    match s
    case Eval(e) => ExprGrows(e, env, b);
    case Assign(x, e) => ExprGrows(e, env, b);
    case If(_, _, _) => IfGrows(s, env, b);
    case For(_, _, _, _) => ForGrows(s, env, b);
  }

  lemma BranchGrows(c: Emitted)
    requires c.b.Valid()
    ensures Grows(c.b, Branch(c))
    ensures var b, n := Branch(c), |c.b.blocks|;
            b.blocks[n] == b.blocks[n + 1] == b.blocks[n + 2] == []
  {
  }

  lemma EnterGrows(v: Emitted)
    requires v.b.Valid()
    ensures Grows(v.b, EnterLoop(v))
    ensures var b, n := EnterLoop(v), |v.b.blocks|;
            b.blocks[n] == b.blocks[n + 1] == b.blocks[n + 2] == []
  {
  }

  /** The parts of a lowered if statement: the condition, and the builder after each branch. */
  ghost function CondOf(s: Stmt, env: Scope<nat>, b: IR): (v: Emitted)
    requires b.Valid() && s.If? && LowerIf(s, env, b).Some?
    ensures Straight(b, v.b)
  {
    LowerCond(s.cond, env, b).value
  }

  ghost function ThenOf(s: Stmt, env: Scope<nat>, b: IR): (l: Lowered)
    requires b.Valid() && s.If? && LowerIf(s, env, b).Some?
    ensures Onward(Branch(CondOf(s, env, b)), l.b)
  {
    LowerBlock(s.thn, Frame(map[], env), Branch(CondOf(s, env, b))).value
  }

  /** The builder at the start of the else block. */
  ghost function ElseStart(s: Stmt, env: Scope<nat>, b: IR): (b2: IR)
    requires b.Valid() && s.If? && LowerIf(s, env, b).Some?
    ensures b2.cur == |b.blocks| + 1 && |b.blocks| + 2 < |b2.blocks| && Onward(b, b2)
  {
    Join(ThenOf(s, env, b).b, |b.blocks| + 2, |b.blocks| + 1)
  }

  ghost function ElseOf(s: Stmt, env: Scope<nat>, b: IR): (l: Lowered)
    requires b.Valid() && s.If? && LowerIf(s, env, b).Some?
    ensures Onward(ElseStart(s, env, b), l.b)
  {
    LowerBlock(s.els, Frame(map[], env), ElseStart(s, env, b)).value
  }

  /** The builder finishes its current block and moves on to block `next`. */
  ghost predicate Moves(b: IR, b': IR, next: nat) {
    && |b'.blocks| == |b.blocks| && b'.cur == next
    && Within(b, b'.blocks)
    && (forall k | 0 <= k < |b.blocks| && k != b.cur :: b'.blocks[k] == b.blocks[k])
  }

  lemma MoveGrows(b0: IR, b: IR, b': IR, next: nat)
    requires b0.Valid() && Grows(b0, b) && Moves(b, b', next) && next >= |b0.blocks|
    ensures Grows(b0, b')
  {
    WithinTrans(b0, b, b'.blocks);
  }

  lemma JoinMoves(b: IR, merge: nat, next: nat)
    requires b.Valid() && next < |b.blocks|
    ensures Moves(b, Join(b, merge, next), next)
  {
  }

  /**
   The stages of an if or for statement, which creates three blocks and fills
   them in turn: the second and the third are still empty when reached.
   */
  lemma ThreeStages(b: IR, b1: IR, t: IR, b2: IR, e: IR, b3: IR)
    requires b.Valid() && b1.Valid() && t.Valid() && b2.Valid() && e.Valid() && b3.Valid()
    requires Grows(b, b1) && b1.cur == |b.blocks| && |b1.blocks| == |b.blocks| + 3
    requires b1.blocks[b1.cur + 1] == b1.blocks[b1.cur + 2] == []
    requires Grows(b1, t) && Moves(t, b2, |b.blocks| + 1)
    requires Grows(b2, e) && Moves(e, b3, |b.blocks| + 2)
    ensures b2.Here() == 0 && b3.Here() == 0 && Grows(b, b3)
  {
    var n := |b.blocks|;
    assert t.blocks[n + 1] == t.blocks[n + 2] == [];
    assert b2.blocks[n + 1] == b2.blocks[n + 2] == [];
    assert e.blocks[n + 2] == [];
    GrowsTrans(b, b1, t);
    MoveGrows(b, t, b2, n + 1);
    GrowsTrans(b, b2, e);
    MoveGrows(b, e, b3, n + 2);
  }

  lemma {:induction false} IfGrows(s: Stmt, env: Scope<nat>, b: IR)
    requires s.If? && b.Valid() && LowerIf(s, env, b).Some?
    ensures Grows(b, CondOf(s, env, b).b)
    ensures var b1 := Branch(CondOf(s, env, b)); Grows(b1, ThenOf(s, env, b).b) && b1.Here() == 0
    ensures var b2 := ElseStart(s, env, b); Grows(b2, ElseOf(s, env, b).b) && b2.Here() == 0
    ensures LowerIf(s, env, b).value.b.Here() == 0
    ensures Grows(b, LowerIf(s, env, b).value.b)
    decreases s, 1
  {
    CondGrows(s.cond, env, b);
    BlockGrows(s.thn, Frame(map[], env), Branch(CondOf(s, env, b)));
    BlockGrows(s.els, Frame(map[], env), ElseStart(s, env, b));
    var c, b1, t, b2, e := CondOf(s, env, b), Branch(CondOf(s, env, b)), ThenOf(s, env, b).b, ElseStart(s, env, b), ElseOf(s, env, b).b;
    BranchGrows(c);
    GrowsTrans(b, c.b, b1);
    JoinMoves(t, |b.blocks| + 2, |b.blocks| + 1);
    JoinMoves(e, |b.blocks| + 2, |b.blocks| + 2);
    ThreeStages(b, b1, t, b2, e, LowerIf(s, env, b).value.b);
  }

  /** The parts of a lowered for statement: the start value, the limit, the test and the body. */
  ghost function StartOf(s: Stmt, env: Scope<nat>, b: IR): (v: Emitted)
    requires b.Valid() && s.For? && LowerFor(s, env, b).Some?
    ensures Straight(b, v.b)
  {
    LowerExpr(s.start, env, b).value
  }

  ghost function LimitOf(s: Stmt, env: Scope<nat>, b: IR): (limit: Emitted)
    requires b.Valid() && s.For? && LowerFor(s, env, b).Some?
    ensures Straight(EnterLoop(StartOf(s, env, b)), limit.b) && Known(limit.v, limit.b.regs)
  {
    LowerExpr(s.end, env, EnterLoop(StartOf(s, env, b))).value
  }

  ghost function TestOf(s: Stmt, env: Scope<nat>, b: IR): (t: IR)
    requires b.Valid() && s.For? && LowerFor(s, env, b).Some?
    ensures Onward(b, t) && t.slots == b.slots + 1 && t.cur == |b.blocks| + 1 && |t.blocks| == |b.blocks| + 3
  {
    TestLoop(LimitOf(s, env, b), b.slots, |b.blocks|)
  }

  ghost function BodyOf(s: Stmt, env: Scope<nat>, b: IR): (l: Lowered)
    requires b.Valid() && s.For? && LowerFor(s, env, b).Some?
    ensures Onward(TestOf(s, env, b), l.b)
  {
    LowerBlock(s.body, Frame(map[], Frame(map[s.name := b.slots], env)), TestOf(s, env, b)).value
  }

  lemma TestMoves(limit: Emitted, slot: nat, n: nat)
    requires limit.b.Valid() && n + 2 < |limit.b.blocks|
    ensures Moves(limit.b, TestLoop(limit, slot, n), n + 1)
  {
  }

  lemma StepMoves(b: IR, slot: nat, current: nat, n: nat)
    requires b.Valid() && n + 2 < |b.blocks|
    ensures Moves(b, StepLoop(b, slot, current, n), n + 2)
  {
  }

  lemma {:induction false} ForGrows(s: Stmt, env: Scope<nat>, b: IR)
    requires s.For? && b.Valid() && LowerFor(s, env, b).Some?
    ensures EnterLoop(StartOf(s, env, b)).Here() == 0
    ensures Grows(EnterLoop(StartOf(s, env, b)), LimitOf(s, env, b).b)
    ensures TestOf(s, env, b).Here() == 0 && Grows(TestOf(s, env, b), BodyOf(s, env, b).b)
    ensures LowerFor(s, env, b).value.b.Here() == 0
    ensures Grows(b, LowerFor(s, env, b).value.b)
    decreases s, 1
  {
    var v, b1, limit, t := StartOf(s, env, b), EnterLoop(StartOf(s, env, b)), LimitOf(s, env, b), TestOf(s, env, b);
    var l := BodyOf(s, env, b).b;
    ExprGrows(s.start, env, b);
    EnterGrows(v);
    GrowsTrans(b, v.b, b1);
    ExprGrows(s.end, env, b1);
    TestMoves(limit, b.slots, |b.blocks|);
    BlockGrows(s.body, Frame(map[], Frame(map[s.name := b.slots], env)), t);
    StepMoves(l, b.slots, limit.b.regs, |b.blocks|);
    ThreeStages(b, b1, limit.b, t, l, LowerFor(s, env, b).value.b);
  }
}
