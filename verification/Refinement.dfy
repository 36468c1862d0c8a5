/** Statements: the control flow that the builder lays out refines the source semantics. */
module Refinement {
  import opened Wrappers
  import opened Language
  import opened Machine
  import opened Lowering
  import opened Simulation

  /**
   What running the code of a statement must do, for a given source outcome.
   A finished statement ends at the builder's insertion point in a state that
   agrees with the source; one that ran out of fuel has already made as many
   steps as it had fuel, and exactly the same calls; no statement is stuck.
   */
  ghost predicate Simulates(o: Outcome, r: Lowered, bound: nat, fuel: nat, c: Config, n: nat, c': Config) {
    match o
    case Done(vals, trace) =>
      && Reached(c', r.b)
      && Agree(r.env, vals, c'.mem)
      && c'.trace == trace
      && Keeps(c.regs, c'.regs, bound)
    case OutOfFuel(trace) => n >= fuel && c'.trace == trace
    case Stuck => false
  }

  /** The starting point shared by the simulation lemmas. */
  ghost predicate Starts(env: Scope<nat>, b: IR, vals: Scope<Int32>, c: Config) {
    b.Valid() && Reached(c, b) && Allocated(env, b.slots) && Agree(env, vals, c.mem)
  }

  lemma {:induction false} SimBlock(ss: seq<Stmt>, env: Scope<nat>, b: IR, vals: Scope<Int32>,
                                    g: Code, world: World, fuel: nat, c: Config) returns (n: nat, c': Config)
    requires Starts(env, b, vals, c)
    requires LowerBlock(ss, env, b).Some? && Within(LowerBlock(ss, env, b).value.b, g)
    ensures Steps(g, world, c, n, c')
    ensures Simulates(ExecBlock(ss, vals, c.trace, world, fuel), LowerBlock(ss, env, b).value, b.regs, fuel, c, n, c')
    decreases fuel, ss, 0
  {
    if ss == [] {
      n, c' := 0, c;
    } else {
      var s := LowerStmt(ss[0], env, b).value;
      var r := LowerBlock(ss[1..], s.env, s.b).value;
      assert LowerBlock(ss, env, b).value == r;
      BlockGrows(ss[1..], s.env, s.b);
      WithinTrans(s.b, r.b, g);
      LoweredStmtScope(ss[0], env, b);
      n, c' := SimStmt(ss[0], env, b, vals, g, world, fuel, c);
      var o := ExecStmt(ss[0], vals, c.trace, world, fuel);
      if o.Done? {
        var n2, c2 := SimBlock(ss[1..], s.env, s.b, o.vals, g, world, fuel, c');
        StepsTrans(g, world, c, n, c', n2, c2);
        SimulatesTrans(ExecBlock(ss[1..], o.vals, o.trace, world, fuel), r, b.regs, s.b.regs, fuel, c, n, c', n2, c2);
        n, c' := n + n2, c2;
      }
    }
  }

  /** Simulation of a second part, starting where the first part ended. */
  lemma SimulatesTrans(o: Outcome, r: Lowered, bound: nat, more: nat, fuel: nat, c: Config, m: nat, c1: Config, n: nat, c2: Config)
    requires Simulates(o, r, more, fuel, c1, n, c2) && Keeps(c.regs, c1.regs, bound) && bound <= more
    ensures Simulates(o, r, bound, fuel, c, m + n, c2)
  {
  }

  lemma {:induction false} SimStmt(s: Stmt, env: Scope<nat>, b: IR, vals: Scope<Int32>,
                                   g: Code, world: World, fuel: nat, c: Config) returns (n: nat, c': Config)
    requires Starts(env, b, vals, c)
    requires LowerStmt(s, env, b).Some? && Within(LowerStmt(s, env, b).value.b, g)
    ensures Steps(g, world, c, n, c')
    ensures Simulates(ExecStmt(s, vals, c.trace, world, fuel), LowerStmt(s, env, b).value, b.regs, fuel, c, n, c')
    decreases fuel, s, 1
  {
    match s
    case Eval(e) =>
      n, c' := SimExpr(e, env, b, vals, g, world, c);
    case Assign(x, e) =>
      n, c' := SimAssign(x, e, env, b, vals, g, world, fuel, c);
    case If(_, _, _) =>
      var i := SplitIf(s, env, b, g);
      n, c' := SimIf(s, i, env, b, vals, g, world, fuel, c);
    case For(_, _, _, _) =>
      var i := SplitFor(s, env, b, g);
      n, c' := SimFor(s, i, env, b, vals, g, world, fuel, c);
  }

  lemma SimAssign(x: string, e: Expr, env: Scope<nat>, b: IR, vals: Scope<Int32>,
                  g: Code, world: World, fuel: nat, c: Config) returns (n: nat, c': Config)
    requires Starts(env, b, vals, c)
    requires LowerExpr(e, env, b).Some? && Within(LowerStore(x, LowerExpr(e, env, b).value, env).b, g)
    ensures Steps(g, world, c, n, c')
    ensures Simulates(ExecStmt(Assign(x, e), vals, c.trace, world, fuel),
                      LowerStore(x, LowerExpr(e, env, b).value, env), b.regs, fuel, c, n, c')
  {
    var v := LowerExpr(e, env, b).value;
    WithinTrans(v.b, v.b.Emit(StoreTo(x, v, env)), g);
    var m, c1 := SimExpr(e, env, b, vals, g, world, c);
    c' := SimStore(x, v, env, vals, g, world, c1);
    StepsTrans(g, world, c, m, c1, 1, c');
    n := m + 1;
  }

  function StoreTo(x: string, v: Emitted, env: Scope<nat>): Instr {
    var slot: Option<nat> := Lookup(env, x);
    Store(v.v, if slot.Some? then slot.value else v.b.slots)
  }

  /** The store itself, in source terms. */
  lemma SimStore(x: string, v: Emitted, env: Scope<nat>, vals: Scope<Int32>, g: Code, world: World, c: Config) returns (c': Config)
    requires v.b.Valid() && Reached(c, v.b) && Allocated(env, v.b.slots) && Agree(env, vals, c.mem)
    requires Within(v.b.Emit(StoreTo(x, v, env)), g) && Read(v.v, c.regs).Some?
    ensures Steps(g, world, c, 1, c')
    ensures var r, value := LowerStore(x, v, env), Read(v.v, c.regs).value;
            && Reached(c', r.b) && c'.trace == c.trace && c'.regs == c.regs
            && Agree(r.env, if Lookup(vals, x).Some? then Update(vals, x, value) else Declare(vals, x, value), c'.mem)
  {
    var i := StoreTo(x, v, env);
    LookupAgrees(env, vals, c.mem, x);
    StepEmitted(v.b, i, g, world, c);
    c' := Perform(i, world, c).value;
    var value := Read(v.v, c.regs).value;
    if Lookup(env, x).Some? {
      WriteVariable(env, v.b.slots, vals, c.mem, x, value);
    } else {
      DeclareAgrees(env, v.b.slots, vals, c.mem, x, value);
    }
  }

  // -------------------------------------------------------------------- if

  /** The two instructions that end a condition go to the branch that its value selects. */
  lemma SimBranch(v: Emitted, g: Code, world: World, c: Config, flag: bool) returns (c': Config)
    requires v.b.Valid() && Reached(c, v.b) && Within(Branch(v), g)
    requires Read(v.v, c.regs) == Some(Flag(flag))
    ensures Steps(g, world, c, 2, c')
    ensures c'.block == |v.b.blocks| + (if flag then 0 else 1) && c'.pc == 0
    ensures c'.mem == c.mem && c'.trace == c.trace && Keeps(c.regs, c'.regs, v.b.regs)
  {
    var n := |v.b.blocks|;
    var i := ICmp(v.b.regs, NotEqual, v.v, Imm(0));
    var test := v.b.EmitDef(i);
    var j := CondBr(test.v, n, n + 1);
    var b2 := test.b.NewBlocks(1);
    WithinTrans(v.b.Emit(i), Branch(v), g);
    StepEmitted(v.b, i, g, world, c);
    var c1 := Perform(i, world, c).value;
    assert Reached(c1, b2);
    assert Within(b2.Emit(j), g);
    StepEmitted(b2, j, g, world, c1);
    c' := Perform(j, world, c1).value;
    StepsTrans(g, world, c, 1, c1, 1, c');
  }

  lemma SimJoin(b: IR, merge: nat, next: nat, g: Code, world: World, c: Config) returns (c': Config)
    requires b.Valid() && next < |b.blocks| && Reached(c, b) && Within(Join(b, merge, next), g)
    ensures Steps(g, world, c, 1, c')
    ensures c' == c.(block := merge, pc := 0)
  {
    StepEmitted(b, Br(merge), g, world, c);
    c' := Perform(Br(merge), world, c).value;
  }

  /** As `Simulates`, but ending at the start of block `to`. */
  ghost predicate EndsAt(o: Outcome, env: Scope<nat>, to: nat, bound: nat, fuel: nat, c: Config, n: nat, c': Config) {
    match o
    case Done(vals, trace) =>
      && c'.block == to && c'.pc == 0
      && Agree(env, vals, c'.mem)
      && c'.trace == trace
      && Keeps(c.regs, c'.regs, bound)
    case OutOfFuel(trace) => n >= fuel && c'.trace == trace
    case Stuck => false
  }

  /** A branch of an if statement, reached after `m` steps, ends at the start of the merge block. */
  lemma {:induction false} SimArm(ss: seq<Stmt>, env: Scope<nat>, b: IR, merge: nat, next: nat, vals: Scope<Int32>,
                                  g: Code, world: World, fuel: nat, c0: Config, m: nat, c: Config) returns (n: nat, c': Config)
    requires Starts(env, b, vals, c) && Steps(g, world, c0, m, c)
    requires LowerBlock(ss, Frame(map[], env), b).Some?
    requires var e := LowerBlock(ss, Frame(map[], env), b).value;
             next < |e.b.blocks| && Within(Join(e.b, merge, next), g)
    ensures Steps(g, world, c0, n, c')
    ensures var o := Leave(ExecBlock(ss, Frame(map[], vals), c.trace, world, fuel));
            EndsAt(o, env, merge, b.regs, fuel, c, n, c')
    decreases fuel, ss, 1
  {
    var e := LowerBlock(ss, Frame(map[], env), b).value;
    WithinTrans(e.b, Join(e.b, merge, next), g);
    var k, c1 := SimBlock(ss, Frame(map[], env), b, Frame(map[], vals), g, world, fuel, c);
    StepsTrans(g, world, c0, m, c, k, c1);
    n, c' := m + k, c1;
    var o := ExecBlock(ss, Frame(map[], vals), c.trace, world, fuel);
    if o.Done? {
      LoweredBlockScope(ss, Frame(map[], env), b);
      c' := SimJoin(e.b, merge, next, g, world, c1);
      StepsTrans(g, world, c0, n, c1, 1, c');
      n := n + 1;
    }
  }

  /** Every stage of the lowered if statement is still in place in the finished code. */
  lemma WithinIf(s: Stmt, env: Scope<nat>, b: IR, g: Code)
    requires b.Valid() && s.If? && LowerIf(s, env, b).Some? && Within(LowerIf(s, env, b).value.b, g)
    ensures Within(CondOf(s, env, b).b, g) && Within(Branch(CondOf(s, env, b)), g) && Within(ElseStart(s, env, b), g)
  {
    IfGrows(s, env, b);
    BranchGrows(CondOf(s, env, b));
    WithinTrans(ElseOf(s, env, b).b, LowerIf(s, env, b).value.b, g);
    WithinTrans(ElseStart(s, env, b), ElseOf(s, env, b).b, g);
    WithinTrans(ThenOf(s, env, b).b, ElseStart(s, env, b), g);
    WithinTrans(Branch(CondOf(s, env, b)), ThenOf(s, env, b).b, g);
    WithinTrans(CondOf(s, env, b).b, Branch(CondOf(s, env, b)), g);
  }

  /** A later state of the builder, about to fill the still empty block `k`. */
  ghost predicate Opened(b: IR, b': IR, k: nat) {
    Onward(b, b') && b'.cur == k && b'.Here() == 0
  }

  /** The stages of a lowered if statement: the condition, both branches and the state after the merge. */
  datatype IfStages = IfStages(v: Emitted, b1: IR, t: Lowered, b2: IR, e: Lowered, b3: IR) {
    ghost predicate Of(s: Stmt, env: Scope<nat>, b: IR, g: Code) {
      var k := |b.blocks|;
      && s.If? && b.Valid() && v.b.Valid()
      && LowerCond(s.cond, env, b) == Some(v) && Within(v.b, g) && Within(Branch(v), g)
      && Opened(b, b1, k) && LowerBlock(s.thn, Frame(map[], env), b1) == Some(t)
      && t.b.Valid() && k + 2 < |t.b.blocks| && Within(Join(t.b, k + 2, k + 1), g)
      && Opened(b, b2, k + 1) && LowerBlock(s.els, Frame(map[], env), b2) == Some(e)
      && e.b.Valid() && k + 2 < |e.b.blocks| && Within(Join(e.b, k + 2, k + 2), g)
      && Opened(b, b3, k + 2)
    }
  }

  lemma SplitIf(s: Stmt, env: Scope<nat>, b: IR, g: Code) returns (i: IfStages)
    requires s.If? && b.Valid() && LowerIf(s, env, b).Some? && Within(LowerIf(s, env, b).value.b, g)
    ensures i.Of(s, env, b, g) && LowerIf(s, env, b) == Some(Lowered(i.b3, env))
  {
    WithinIf(s, env, b, g);
    IfGrows(s, env, b);
    i := IfStages(CondOf(s, env, b), Branch(CondOf(s, env, b)), ThenOf(s, env, b),
                  ElseStart(s, env, b), ElseOf(s, env, b), LowerIf(s, env, b).value.b);
  }

  /** The condition leads to the branch that it selects. */
  lemma SimChoice(s: Stmt, i: IfStages, env: Scope<nat>, b: IR, vals: Scope<Int32>, g: Code, world: World, c: Config)
    returns (n: nat, c': Config)
    requires Starts(env, b, vals, c) && i.Of(s, env, b, g)
    ensures Steps(g, world, c, n, c')
    ensures var value := EvalCond(s.cond, vals, c.trace, world);
            && value.Some? && c'.trace == value.value.trace && Keeps(c.regs, c'.regs, b.regs)
            && Starts(env, if value.value.v then i.b1 else i.b2, vals, c')
  {
    var m, c1 := SimCond(s.cond, env, b, vals, g, world, c);
    var flag := EvalCond(s.cond, vals, c.trace, world).value.v;
    c' := SimBranch(i.v, g, world, c1, flag);
    StepsTrans(g, world, c, m, c1, 2, c');
    n := m + 2;
    AllocatedMore(env, b.slots, if flag then i.b1.slots else i.b2.slots);
  }

  lemma {:induction false} SimIf(s: Stmt, i: IfStages, env: Scope<nat>, b: IR, vals: Scope<Int32>,
                                 g: Code, world: World, fuel: nat, c: Config) returns (n: nat, c': Config)
    requires Starts(env, b, vals, c) && i.Of(s, env, b, g)
    ensures Steps(g, world, c, n, c')
    ensures var value := EvalCond(s.cond, vals, c.trace, world);
            && value.Some?
            && var ss := if value.value.v then s.thn else s.els;
               Simulates(Leave(ExecBlock(ss, Frame(map[], vals), value.value.trace, world, fuel)),
                         Lowered(i.b3, env), b.regs, fuel, c, n, c')
    decreases fuel, s, 0
  {
    var m, c1 := SimChoice(s, i, env, b, vals, g, world, c);
    var k, flag := |b.blocks|, EvalCond(s.cond, vals, c.trace, world).value.v;
    n, c' := SimArm(if flag then s.thn else s.els, env, if flag then i.b1 else i.b2, k + 2, if flag then k + 1 else k + 2,
                    vals, g, world, fuel, c, m, c1);
  }

  // ------------------------------------------------------------------- for

  lemma SimEnter(v: Emitted, g: Code, world: World, c: Config, start: Int32) returns (c': Config)
    requires v.b.Valid() && Reached(c, v.b) && Within(EnterLoop(v), g) && Read(v.v, c.regs) == Some(start)
    ensures Steps(g, world, c, 2, c')
    ensures c' == c.(block := |v.b.blocks|, pc := 0, mem := c.mem[v.b.slots := start])
  {
    var n := |v.b.blocks|;
    var i := Store(v.v, v.b.slots);
    var b1 := v.b.NewBlocks(3);
    var b2 := b1.Emit(i);
    assert Within(b2.Emit(Br(n)), g);
    WithinTrans(b2, b2.Emit(Br(n)), g);
    StepEmitted(b1, i, g, world, c);
    var c1 := Perform(i, world, c).value;
    StepEmitted(b2, Br(n), g, world, c1);
    c' := Perform(Br(n), world, c1).value;
    StepsTrans(g, world, c, 1, c1, 1, c');
  }

  lemma SimTest(limit: Emitted, slot: nat, n: nat, g: Code, world: World, c: Config, cur: Int32, end: Int32) returns (c': Config)
    requires limit.b.Valid() && n + 2 < |limit.b.blocks| && Reached(c, limit.b) && Within(TestLoop(limit, slot, n), g)
    requires Known(limit.v, limit.b.regs) && Read(limit.v, c.regs) == Some(end)
    requires slot in c.mem && c.mem[slot] == cur
    ensures Steps(g, world, c, 3, c')
    ensures c'.block == n + (if cur < end then 1 else 2) && c'.pc == 0
    ensures c'.mem == c.mem && c'.trace == c.trace && Keeps(c.regs, c'.regs, limit.b.regs)
    ensures limit.b.regs in c'.regs && c'.regs[limit.b.regs] == cur
  {
    var r := limit.b.regs;
    var i1, i2, i3 := Load(r, slot), ICmp(r + 1, Less, Reg(r), limit.v), CondBr(Reg(r + 1), n + 1, n + 2);
    var b1 := limit.b.Emit(i1);
    var b2 := b1.Emit(i2);
    var b3 := b2.Emit(i3);
    assert Within(b3, g);
    WithinTrans(b2, b3, g);
    WithinTrans(b1, b2, g);
    StepEmitted(limit.b, i1, g, world, c);
    var c1 := Perform(i1, world, c).value;
    StepEmitted(b1, i2, g, world, c1);
    var c2 := Perform(i2, world, c1).value;
    StepEmitted(b2, i3, g, world, c2);
    c' := Perform(i3, world, c2).value;
    StepsTrans(g, world, c, 1, c1, 1, c2);
    StepsTrans(g, world, c, 2, c2, 1, c');
  }

  lemma SimStep(b: IR, slot: nat, current: nat, n: nat, g: Code, world: World, c: Config, cur: Int32) returns (c': Config)
    requires b.Valid() && n + 2 < |b.blocks| && Reached(c, b) && Within(StepLoop(b, slot, current, n), g)
    requires Read(Reg(current), c.regs) == Some(cur) && current < b.regs
    ensures Steps(g, world, c, 3, c')
    ensures c'.block == n && c'.pc == 0 && c'.mem == c.mem[slot := Wrap32(cur + 1)] && c'.trace == c.trace
    ensures Keeps(c.regs, c'.regs, b.regs)
  {
    var i1, i2, i3 := Compute(b.regs, Plus, Reg(current), Imm(1)), Store(Reg(b.regs), slot), Br(n);
    var b1 := b.Emit(i1);
    var b2 := b1.Emit(i2);
    var b3 := b2.Emit(i3);
    assert Within(b3, g);
    WithinTrans(b2, b3, g);
    WithinTrans(b1, b2, g);
    StepEmitted(b, i1, g, world, c);
    var c1 := Perform(i1, world, c).value;
    StepEmitted(b1, i2, g, world, c1);
    var c2 := Perform(i2, world, c1).value;
    StepEmitted(b2, i3, g, world, c2);
    c' := Perform(i3, world, c2).value;
    StepsTrans(g, world, c, 1, c1, 1, c2);
    StepsTrans(g, world, c, 2, c2, 1, c');
  }

  /** Every stage of the lowered for statement is still in place in the finished code. */
  lemma WithinLoop(s: Stmt, env: Scope<nat>, b: IR, g: Code)
    requires s.For? && b.Valid() && LowerFor(s, env, b).Some? && Within(LowerFor(s, env, b).value.b, g)
    ensures Within(StartOf(s, env, b).b, g) && Within(EnterLoop(StartOf(s, env, b)), g)
    ensures Within(LimitOf(s, env, b).b, g) && Within(TestOf(s, env, b), g) && Within(BodyOf(s, env, b).b, g)
  {
    ForGrows(s, env, b);
    EnterGrows(StartOf(s, env, b));
    WithinTrans(BodyOf(s, env, b).b, LowerFor(s, env, b).value.b, g);
    WithinTrans(TestOf(s, env, b), BodyOf(s, env, b).b, g);
    WithinTrans(LimitOf(s, env, b).b, TestOf(s, env, b), g);
    WithinTrans(EnterLoop(StartOf(s, env, b)), LimitOf(s, env, b).b, g);
    WithinTrans(StartOf(s, env, b).b, EnterLoop(StartOf(s, env, b)), g);
  }

  /** The stages of a lowered for statement: the start value, the loop head, the limit, the test, the body and the state after it. */
  datatype ForStages = ForStages(v: Emitted, b1: IR, limit: Emitted, b2: IR, l: Lowered, b3: IR) {
    ghost predicate Of(s: Stmt, env: Scope<nat>, b: IR, g: Code) {
      var k := |b.blocks|;
      && s.For? && b.Valid() && v.b.Valid()
      && LowerExpr(s.start, env, b) == Some(v) && Within(v.b, g) && v.b.slots == b.slots && |v.b.blocks| == k
      && Within(EnterLoop(v), g)
      && Opened(b, b1, k) && LowerExpr(s.end, env, b1) == Some(limit) && Within(limit.b, g)
      && b.regs <= b1.regs <= limit.b.regs && limit.b.Valid() && k + 2 < |limit.b.blocks| && Known(limit.v, limit.b.regs)
      && Within(TestLoop(limit, b.slots, k), g)
      && Opened(b, b2, k + 1) && b2.slots == b.slots + 1 && limit.b.regs < b2.regs
      && LowerBlock(s.body, Frame(map[], Frame(map[s.name := b.slots], env)), b2) == Some(l)
      && l.b.Valid() && k + 2 < |l.b.blocks| && b2.regs <= l.b.regs && Within(l.b, g)
      && Within(StepLoop(l.b, b.slots, limit.b.regs, k), g)
      && Opened(b, b3, k + 2)
    }
  }

  lemma SplitFor(s: Stmt, env: Scope<nat>, b: IR, g: Code) returns (i: ForStages)
    requires s.For? && b.Valid() && LowerFor(s, env, b).Some? && Within(LowerFor(s, env, b).value.b, g)
    ensures i.Of(s, env, b, g) && LowerFor(s, env, b) == Some(Lowered(i.b3, Leak(env, s.name, b.slots)))
  {
    WithinLoop(s, env, b, g);
    ForGrows(s, env, b);
    i := ForStages(StartOf(s, env, b), EnterLoop(StartOf(s, env, b)), LimitOf(s, env, b), TestOf(s, env, b),
                   BodyOf(s, env, b), LowerFor(s, env, b).value.b);
  }

  lemma {:induction false} SimFor(s: Stmt, i: ForStages, env: Scope<nat>, b: IR, vals: Scope<Int32>,
                                  g: Code, world: World, fuel: nat, c: Config) returns (n: nat, c': Config)
    requires Starts(env, b, vals, c) && i.Of(s, env, b, g)
    ensures Steps(g, world, c, n, c')
    ensures var v := EvalExpr(s.start, vals, c.trace, world);
            && v.Some?
            && Simulates(ExecLoop(s.name, s.end, s.body, v.value.v, vals, v.value.trace, world, fuel),
                         Lowered(i.b3, Leak(env, s.name, b.slots)), b.regs, fuel, c, n, c')
    decreases fuel, s, 0
  {
    var n1, c1 := SimExpr(s.start, env, b, vals, g, world, c);
    var start := Read(i.v.v, c1.regs).value;
    var c2 := SimEnter(i.v, g, world, c1, start);
    StepsTrans(g, world, c, n1, c1, 2, c2);
    AllocatedMore(env, b.slots, b.slots);
    WriteElsewhere(env, vals, c1.mem, b.slots, start);
    var n3, c3 := SimLoop(s, i, env, b, vals, g, world, fuel, c2, start);
    StepsTrans(g, world, c, n1 + 2, c2, n3, c3);
    n, c' := n1 + 2 + n3, c3;
  }

  /** Control is at the top of the loop's condition block and the variable's slot holds `cur`. */
  ghost predicate AtLoop(head: IR, env: Scope<nat>, slot: nat, vals: Scope<Int32>, c: Config, cur: Int32) {
    && Reached(c, head)
    && Allocated(env, slot)
    && Agree(env, vals, c.mem)
    && slot in c.mem && c.mem[slot] == cur
  }

  /** From the loop head through the limit and the test. */
  lemma SimHead(s: Stmt, i: ForStages, env: Scope<nat>, b: IR, vals: Scope<Int32>,
                g: Code, world: World, c: Config, cur: Int32) returns (n: nat, c': Config)
    requires i.Of(s, env, b, g) && AtLoop(i.b1, env, b.slots, vals, c, cur)
    ensures Steps(g, world, c, n, c') && n >= 1
    ensures var limit := EvalExpr(s.end, vals, c.trace, world);
            && limit.Some?
            && c'.trace == limit.value.trace
            && AtLoop(if cur < limit.value.v then i.b2 else i.b3, env, b.slots, vals, c', cur)
    ensures Read(Reg(i.limit.b.regs), c'.regs) == Some(cur) && Keeps(c.regs, c'.regs, b.regs)
  {
    var m, c1 := SimExpr(s.end, env, i.b1, vals, g, world, c);
    var end := Read(i.limit.v, c1.regs).value;
    c' := SimTest(i.limit, b.slots, |b.blocks|, g, world, c1, cur, end);
    StepsTrans(g, world, c, m, c1, 3, c');
    n := m + 3;
  }

  lemma {:induction false} SimLoop(s: Stmt, i: ForStages, env: Scope<nat>, b: IR, vals: Scope<Int32>,
                                   g: Code, world: World, fuel: nat, c: Config, cur: Int32) returns (n: nat, c': Config)
    requires i.Of(s, env, b, g) && AtLoop(i.b1, env, b.slots, vals, c, cur)
    ensures Steps(g, world, c, n, c')
    ensures Simulates(ExecLoop(s.name, s.end, s.body, cur, vals, c.trace, world, fuel),
                      Lowered(i.b3, Leak(env, s.name, b.slots)), b.regs, fuel, c, n, c')
    decreases fuel, s.body, 3
  {
    if fuel == 0 {
      n, c' := 0, c;
    } else {
      n, c' := SimHead(s, i, env, b, vals, g, world, c, cur);
      var limit := EvalExpr(s.end, vals, c.trace, world).value;
      if cur < limit.v {
        var n1, c1 := SimRounds(s, i, env, b, vals, g, world, fuel - 1, c', cur);
        StepsTrans(g, world, c, n, c', n1, c1);
        n, c' := n + n1, c1;
      } else {
        LeakAgrees(s.name, env, b.slots, vals, c'.mem);
      }
    }
  }

  /** A round that passed the test, and all rounds after it. */
  lemma {:induction false} SimRounds(s: Stmt, i: ForStages, env: Scope<nat>, b: IR, vals: Scope<Int32>,
                                     g: Code, world: World, fuel: nat, c: Config, cur: Int32) returns (n: nat, c': Config)
    requires i.Of(s, env, b, g) && AtLoop(i.b2, env, b.slots, vals, c, cur)
    requires Read(Reg(i.limit.b.regs), c.regs) == Some(cur)
    ensures Steps(g, world, c, n, c')
    ensures var o := Leave(Leave(ExecBlock(s.body, Frame(map[], Frame(map[s.name := cur], vals)), c.trace, world, fuel)));
            Simulates(if o.Done? then ExecLoop(s.name, s.end, s.body, Wrap32(cur + 1), o.vals, o.trace, world, fuel) else o,
                      Lowered(i.b3, Leak(env, s.name, b.slots)), b.regs, fuel, c, n, c')
    decreases fuel, s.body, 4
  {
    var o;
    o, n, c' := SimRound(s, i, env, b, vals, g, world, fuel, c, cur);
    if o.Done? {
      var n1, c1 := SimLoop(s, i, env, b, o.vals, g, world, fuel, c', Wrap32(cur + 1));
      StepsTrans(g, world, c, n, c', n1, c1);
      n, c' := n + n1, c1;
    }
  }

  lemma LeakAgrees(x: string, env: Scope<nat>, slot: nat, vals: Scope<Int32>, mem: map<nat, Int32>)
    requires Agree(env, vals, mem) && slot in mem
    ensures Agree(Leak(env, x, slot), Leak(vals, x, mem[slot]), mem)
  {
  }

  /** One execution of the body and the step, from the top of the loop block back to the condition block. */
  lemma {:induction false} SimRound(s: Stmt, i: ForStages, env: Scope<nat>, b: IR, vals: Scope<Int32>,
                                    g: Code, world: World, fuel: nat, c: Config, cur: Int32)
    returns (o: Outcome, n: nat, c': Config)
    requires i.Of(s, env, b, g) && AtLoop(i.b2, env, b.slots, vals, c, cur)
    requires Read(Reg(i.limit.b.regs), c.regs) == Some(cur)
    ensures o == Leave(Leave(ExecBlock(s.body, Frame(map[], Frame(map[s.name := cur], vals)), c.trace, world, fuel)))
    ensures Steps(g, world, c, n, c')
    ensures match o
            case Done(vals', trace) =>
              && AtLoop(i.b1, env, b.slots, vals', c', Wrap32(cur + 1))
              && c'.trace == trace
              && Keeps(c.regs, c'.regs, b.regs)
            case OutOfFuel(trace) => n >= fuel && c'.trace == trace
            case Stuck => false
    decreases fuel, s.body, 2
  {
    var inner := Frame(map[], Frame(map[s.name := b.slots], env));
    var start := Frame(map[], Frame(map[s.name := cur], vals));
    InnerScope(s.name, env, b.slots, vals, c.mem);
    n, c' := SimBlock(s.body, inner, i.b2, start, g, world, fuel, c);
    var r := ExecBlock(s.body, start, c.trace, world, fuel);
    o := Leave(Leave(r));
    if r.Done? {
      LoweredBlockScope(s.body, inner, i.b2);
      OuterScope(inner, i.l.env, r.vals, c'.mem);
      var c2 := SimBack(s, i, env, b, o.vals, g, world, c', cur);
      StepsTrans(g, world, c, n, c', 3, c2);
      n, c' := n + 3, c2;
    }
  }

  /** From the end of the body back to the loop head. */
  lemma SimBack(s: Stmt, i: ForStages, env: Scope<nat>, b: IR, vals: Scope<Int32>,
                g: Code, world: World, c: Config, cur: Int32) returns (c': Config)
    requires i.Of(s, env, b, g) && Reached(c, i.l.b) && Allocated(env, b.slots) && Agree(env, vals, c.mem)
    requires Read(Reg(i.limit.b.regs), c.regs) == Some(cur)
    ensures Steps(g, world, c, 3, c') && c'.trace == c.trace && Keeps(c.regs, c'.regs, b.regs)
    ensures AtLoop(i.b1, env, b.slots, vals, c', Wrap32(cur + 1))
  {
    c' := SimStep(i.l.b, b.slots, i.limit.b.regs, |b.blocks|, g, world, c, cur);
    AllocatedMore(env, b.slots, b.slots);
    WriteElsewhere(env, vals, c.mem, b.slots, Wrap32(cur + 1));
  }

  /** The loop variable's scope and the body's, on both sides. */
  lemma InnerScope(x: string, env: Scope<nat>, slot: nat, vals: Scope<Int32>, mem: map<nat, Int32>)
    requires Allocated(env, slot) && Agree(env, vals, mem) && slot in mem
    ensures Allocated(Frame(map[], Frame(map[x := slot], env)), slot + 1)
    ensures Agree(Frame(map[], Frame(map[x := slot], env)), Frame(map[], Frame(map[x := mem[slot]], vals)), mem)
  {
    AllocatedMore(env, slot, slot + 1);
    AllocatedMore(env, slot, slot);
    assert Allocated(Frame(map[x := slot], env), slot + 1);
  }

  lemma OuterScope(inner: Scope<nat>, env: Scope<nat>, vals: Scope<Int32>, mem: map<nat, Int32>)
    requires Agree(env, vals, mem) && inner.Frame? && inner.outer.Frame? && env.Frame? && env.outer == inner.outer
    ensures vals.Frame? && vals.outer.Frame? && Agree(inner.outer.outer, vals.outer.outer, mem)
  {
    assert Agree(inner.outer, vals.outer, mem);
  }
}
