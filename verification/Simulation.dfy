/** Running the emitted blocks does exactly what the source statement does. */
module Simulation {
  import opened Wrappers
  import opened Language
  import opened Machine
  import opened Lowering

  // ---------------------------------------------- names, slots and memory

  ghost function Slots(env: Scope<nat>): set<nat> {
    match env
    case Root => {}
    case Frame(vars, outer) => (set x | x in vars :: vars[x]) + Slots(outer)
  }

  /** No two visible bindings share a slot and every slot has been created. */
  ghost predicate Allocated(env: Scope<nat>, slots: nat) {
    match env
    case Root => true
    case Frame(vars, outer) =>
      && (forall x, y | x in vars && y in vars && vars[x] == vars[y] :: x == y)
      && (forall x | x in vars :: vars[x] < slots && vars[x] !in Slots(outer))
      && Allocated(outer, slots)
  }

  /** Every visible name's slot holds the name's value. */
  ghost predicate Agree(env: Scope<nat>, vals: Scope<Int32>, mem: map<nat, Int32>) {
    match env
    case Root => vals.Root?
    case Frame(vars, outer) =>
      && vals.Frame?
      && vals.vars.Keys == vars.Keys
      && (forall x | x in vars :: vars[x] in mem && mem[vars[x]] == vals.vars[x])
      && Agree(outer, vals.outer, mem)
  }

  lemma {:induction false} AllocatedMore(env: Scope<nat>, slots: nat, more: nat)
    requires Allocated(env, slots) && slots <= more
    ensures Allocated(env, more)
    ensures forall s | s in Slots(env) :: s < slots
  {
    match env
    case Root =>
    case Frame(vars, outer) => AllocatedMore(outer, slots, more);
  }

  lemma {:induction false} LookupAgrees(env: Scope<nat>, vals: Scope<Int32>, mem: map<nat, Int32>, x: string)
    requires Agree(env, vals, mem)
    ensures Lookup(env, x).Some? <==> Lookup(vals, x).Some?
    ensures var slot := Lookup(env, x);
            slot.Some? ==> slot.value in Slots(env) && slot.value in mem && Lookup(vals, x) == Some(mem[slot.value])
  {
    match env
    case Root =>
    case Frame(vars, outer) => LookupAgrees(outer, vals.outer, mem, x);
  }

  lemma {:induction false} WriteElsewhere(env: Scope<nat>, vals: Scope<Int32>, mem: map<nat, Int32>, slot: nat, v: Int32)
    requires Agree(env, vals, mem) && slot !in Slots(env)
    ensures Agree(env, vals, mem[slot := v])
  {
    match env
    case Root =>
    case Frame(vars, outer) => WriteElsewhere(outer, vals.outer, mem, slot, v);
  }

  lemma {:induction false} WriteVariable(env: Scope<nat>, slots: nat, vals: Scope<Int32>, mem: map<nat, Int32>, x: string, v: Int32)
    requires Agree(env, vals, mem) && Allocated(env, slots) && Lookup(env, x).Some?
    ensures Agree(env, Update(vals, x, v), mem[Lookup(env, x).value := v])
  {
    match env
    case Root =>
    case Frame(vars, outer) =>
      if x in vars {
        WriteElsewhere(outer, vals.outer, mem, vars[x], v);
      } else {
        WriteVariable(outer, slots, vals.outer, mem, x, v);
        LookupAgrees(outer, vals.outer, mem, x);
      }
  }

  lemma DeclareFresh(env: Scope<nat>, slots: nat, x: string)
    requires Allocated(env, slots)
    ensures Allocated(Declare(env, x, slots), slots + 1)
  {
    AllocatedMore(env, slots, slots + 1);
    if env.Frame? {
      AllocatedMore(env.outer, slots, slots + 1);
    }
  }

  lemma DeclareAgrees(env: Scope<nat>, slots: nat, vals: Scope<Int32>, mem: map<nat, Int32>, x: string, v: Int32)
    requires Agree(env, vals, mem) && Allocated(env, slots)
    ensures Agree(Declare(env, x, slots), Declare(vals, x, v), mem[slots := v])
  {
    AllocatedMore(env, slots, slots);
    if env.Frame? {
      AllocatedMore(env.outer, slots, slots);
      WriteElsewhere(env.outer, vals.outer, mem, slots, v);
    }
  }

  /** Lowering a statement only ever adds names to the innermost scope. */
  lemma {:induction false} LoweredStmtScope(s: Stmt, env: Scope<nat>, b: IR)
    requires b.Valid() && Allocated(env, b.slots) && LowerStmt(s, env, b).Some?
    ensures var r := LowerStmt(s, env, b).value;
            Allocated(r.env, r.b.slots) && r.env.Frame? == env.Frame? && (env.Frame? ==> r.env.outer == env.outer)
    decreases s, 0
  {
    var r := LowerStmt(s, env, b).value;
    AllocatedMore(env, b.slots, r.b.slots);
    match s
    case Eval(e) =>
    case Assign(x, e) =>
      DeclareFresh(env, b.slots, x);
    case If(cond, thn, els) =>
    case For(x, start, end, body) =>
      LeakScope(env, b.slots, x, r.b.slots);
      LoweredForScope(s, env, b);
  }

  lemma LeakScope(env: Scope<nat>, slots: nat, x: string, more: nat)
    requires Allocated(env, slots) && slots < more
    ensures var r := Leak(env, x, slots);
            Allocated(r, more) && r.Frame? == env.Frame? && (env.Frame? ==> r.outer == env.outer)
  {
    DeclareFresh(env, slots, x);
    AllocatedMore(Declare(env, x, slots), slots + 1, more);
    AllocatedMore(env, slots, more);
  }

  lemma LoweredForScope(s: Stmt, env: Scope<nat>, b: IR)
    requires s.For? && b.Valid() && LowerFor(s, env, b).Some?
    ensures var r := LowerFor(s, env, b).value;
            r.env == Leak(env, s.name, b.slots) && b.slots < r.b.slots
  {
    assert TestOf(s, env, b).slots == b.slots + 1;
    assert Onward(TestOf(s, env, b), BodyOf(s, env, b).b);
  }

  lemma {:induction false} LoweredBlockScope(ss: seq<Stmt>, env: Scope<nat>, b: IR)
    requires b.Valid() && Allocated(env, b.slots) && LowerBlock(ss, env, b).Some?
    ensures var r := LowerBlock(ss, env, b).value;
            Allocated(r.env, r.b.slots) && r.env.Frame? == env.Frame? && (env.Frame? ==> r.env.outer == env.outer)
  {
    if ss != [] {
      LoweredStmtScope(ss[0], env, b);
      var r := LowerStmt(ss[0], env, b).value;
      LoweredBlockScope(ss[1..], r.env, r.b);
    }
  }

  // ------------------------------------------------------- running emitted code

  /** Control is at the insertion point. */
  ghost predicate Reached(c: Config, b: IR) {
    b.Valid() && c.block == b.cur && c.pc == b.Here()
  }

  /** The first `n` registers keep their values. */
  ghost predicate Keeps(old_: map<nat, Int32>, new_: map<nat, Int32>, n: nat) {
    forall r | r in old_ && r < n :: r in new_ && new_[r] == old_[r]
  }

  /** From `c`, exactly `n` steps lead to `c'`. */
  ghost predicate Steps(g: Code, world: World, c: Config, n: nat, c': Config) {
    Run(g, world, c, n) == Some(c')
  }

  lemma StepsTrans(g: Code, world: World, c: Config, m: nat, c1: Config, n: nat, c2: Config)
    requires Steps(g, world, c, m, c1) && Steps(g, world, c1, n, c2)
    ensures Steps(g, world, c, m + n, c2)
  {
    RunAppend(g, world, c, m, n);
  }

  /** The instruction at the insertion point is the one that was emitted there. */
  lemma StepEmitted(b: IR, i: Instr, g: Code, world: World, c: Config)
    requires b.Valid() && Reached(c, b) && Within(b.Emit(i), g) && Perform(i, world, c).Some?
    ensures Steps(g, world, c, 1, Perform(i, world, c).value)
  {
    var here := b.Emit(i).blocks[b.cur];
    assert here[b.Here()] == i && here <= g[b.cur];
    assert Fetch(g, c) == Some(i);
    var c' := Perform(i, world, c).value;
    assert Run(g, world, c', 0) == Some(c');
  }

  /** Running an expression's code leaves its value in the operand and touches nothing else. */
  ghost predicate Computes<T>(value: Option<Value<T>>, v: Option<T>, b: IR, r: IR, c: Config, c': Config) {
    && value.Some?
    && v == Some(value.value.v)
    && Reached(c', r)
    && c'.mem == c.mem
    && c'.trace == value.value.trace
    && Keeps(c.regs, c'.regs, b.regs)
  }

  /** An expression's last instruction, after `n` steps for its operands. */
  lemma FinishExpr(b: IR, k: IR, i: Instr, g: Code, world: World, c: Config, n: nat, c1: Config, v: Int32, trace: seq<Event>)
    returns (m: nat, c': Config)
    requires b.Valid() && k.Valid() && b.regs <= k.regs && Within(k.EmitDef(i).b, g)
    requires Steps(g, world, c, n, c1) && Reached(c1, k) && c1.mem == c.mem && Keeps(c.regs, c1.regs, b.regs)
    requires Perform(i, world, c1) == Some(Define(c1.(trace := trace), k.regs, v))
    ensures Steps(g, world, c, m, c')
    ensures Computes(Some(Value(v, trace)), Read(k.EmitDef(i).v, c'.regs), b, k.EmitDef(i).b, c, c')
  {
    StepEmitted(k, i, g, world, c1);
    c' := Perform(i, world, c1).value;
    StepsTrans(g, world, c, n, c1, 1, c');
    m := n + 1;
  }

  lemma {:induction false} SimExpr(e: Expr, env: Scope<nat>, b: IR, vals: Scope<Int32>, g: Code, world: World, c: Config)
    returns (n: nat, c': Config)
    requires b.Valid() && LowerExpr(e, env, b).Some? && Within(LowerExpr(e, env, b).value.b, g)
    requires Reached(c, b) && Agree(env, vals, c.mem)
    ensures Steps(g, world, c, n, c')
    ensures var r := LowerExpr(e, env, b).value;
            Computes(EvalExpr(e, vals, c.trace, world), Read(r.v, c'.regs), b, r.b, c, c')
    decreases e, 1
  {
    match e
    case Const(v) =>
      n, c' := 0, c;
    case Var(x) =>
      LookupAgrees(env, vals, c.mem, x);
      var slot := Lookup(env, x).value;
      n, c' := FinishExpr(b, b, Load(b.regs, slot), g, world, c, 0, c, c.mem[slot], c.trace);
    case Bin(op, left, right) =>
      n, c' := SimBin(e, env, b, vals, g, world, c);
    case Call(f, args) =>
      n, c' := SimCall(e, env, b, vals, g, world, c);
  }

  lemma {:induction false} SimBin(e: Expr, env: Scope<nat>, b: IR, vals: Scope<Int32>, g: Code, world: World, c: Config)
    returns (n: nat, c': Config)
    requires e.Bin?
    requires b.Valid() && LowerExpr(e, env, b).Some? && Within(LowerExpr(e, env, b).value.b, g)
    requires Reached(c, b) && Agree(env, vals, c.mem)
    ensures Steps(g, world, c, n, c')
    ensures var r := LowerExpr(e, env, b).value;
            Computes(EvalExpr(e, vals, c.trace, world), Read(r.v, c'.regs), b, r.b, c, c')
    decreases e, 0
  {
    var l := LowerExpr(e.left, env, b).value;
    var r := LowerExpr(e.right, env, l.b).value;
    var i := Compute(r.b.regs, e.op, l.v, r.v);
    WithinTrans(r.b, r.b.Emit(i), g);
    ExprGrows(e.right, env, l.b);
    WithinTrans(l.b, r.b, g);
    var n1, c1 := SimExpr(e.left, env, b, vals, g, world, c);
    var n2, c2 := SimExpr(e.right, env, l.b, vals, g, world, c1);
    StepsTrans(g, world, c, n1, c1, n2, c2);
    var x := Read(l.v, c1.regs).value;
    var y := Read(r.v, c2.regs).value;
    n, c' := FinishExpr(b, r.b, i, g, world, c, n1 + n2, c2, Arith(e.op, x, y), c2.trace);
  }

  lemma {:induction false} SimCall(e: Expr, env: Scope<nat>, b: IR, vals: Scope<Int32>, g: Code, world: World, c: Config)
    returns (n: nat, c': Config)
    requires e.Call?
    requires b.Valid() && LowerExpr(e, env, b).Some? && Within(LowerExpr(e, env, b).value.b, g)
    requires Reached(c, b) && Agree(env, vals, c.mem)
    ensures Steps(g, world, c, n, c')
    ensures var r := LowerExpr(e, env, b).value;
            Computes(EvalExpr(e, vals, c.trace, world), Read(r.v, c'.regs), b, r.b, c, c')
    decreases e, 0
  {
    var a1 := LowerArgs(e.args, env, b).value;
    var a2 := LowerArgs(e.args, env, a1.b).value;
    var i := Invoke(a2.b.regs, e.callee, a2.vs);
    WithinTrans(a2.b, a2.b.Emit(i), g);
    ArgsGrow(e.args, env, a1.b);
    WithinTrans(a1.b, a2.b, g);
    var n1, c1 := SimArgs(e.args, env, b, vals, g, world, c);
    var n2, c2 := SimArgs(e.args, env, a1.b, vals, g, world, c1);
    StepsTrans(g, world, c, n1, c1, n2, c2);
    var trace := c2.trace + [Event(e.callee, ReadAll(a2.vs, c2.regs).value)];
    n, c' := FinishExpr(b, a2.b, i, g, world, c, n1 + n2, c2, world(trace), trace);
  }

  lemma {:induction false} SimArgs(es: seq<Expr>, env: Scope<nat>, b: IR, vals: Scope<Int32>, g: Code, world: World, c: Config)
    returns (n: nat, c': Config)
    requires b.Valid() && LowerArgs(es, env, b).Some? && Within(LowerArgs(es, env, b).value.b, g)
    requires Reached(c, b) && Agree(env, vals, c.mem)
    ensures Steps(g, world, c, n, c')
    ensures var r := LowerArgs(es, env, b).value;
            Computes(EvalArgs(es, vals, c.trace, world), ReadAll(r.vs, c'.regs), b, r.b, c, c')
    decreases es, 2
  {
    if es == [] {
      n, c' := 0, c;
    } else {
      var v := LowerExpr(es[0], env, b).value;
      var vs := LowerArgs(es[1..], env, v.b).value;
      ArgsGrow(es[1..], env, v.b);
      WithinTrans(v.b, vs.b, g);
      var n1, c1 := SimExpr(es[0], env, b, vals, g, world, c);
      var n2, c2 := SimArgs(es[1..], env, v.b, vals, g, world, c1);
      StepsTrans(g, world, c, n1, c1, n2, c2);
      n, c' := n1 + n2, c2;
      assert ([v.v] + vs.vs)[1..] == vs.vs;
    }
  }

  /** Two operands, one after the other: the second one's code leaves the first one's value alone. */
  lemma SimPair(left: Expr, right: Expr, env: Scope<nat>, b: IR, l: Emitted, r: Emitted, vals: Scope<Int32>,
                g: Code, world: World, c: Config) returns (n: nat, c': Config)
    requires b.Valid() && LowerExpr(left, env, b) == Some(l) && l.b.Valid() && LowerExpr(right, env, l.b) == Some(r)
    requires Within(r.b, g) && Reached(c, b) && Agree(env, vals, c.mem)
    ensures Steps(g, world, c, n, c')
    ensures var x := EvalExpr(left, vals, c.trace, world);
            && x.Some? && Read(l.v, c'.regs) == Some(x.value.v)
            && Computes(EvalExpr(right, vals, x.value.trace, world), Read(r.v, c'.regs), b, r.b, c, c')
  {
    ExprGrows(right, env, l.b);
    WithinTrans(l.b, r.b, g);
    var n1, c1 := SimExpr(left, env, b, vals, g, world, c);
    var n2, c2 := SimExpr(right, env, l.b, vals, g, world, c1);
    StepsTrans(g, world, c, n1, c1, n2, c2);
    n, c' := n1 + n2, c2;
  }

  lemma SimCond(k: Cond, env: Scope<nat>, b: IR, vals: Scope<Int32>, g: Code, world: World, c: Config)
    returns (n: nat, c': Config)
    requires b.Valid() && LowerCond(k, env, b).Some? && Within(LowerCond(k, env, b).value.b, g)
    requires Reached(c, b) && Agree(env, vals, c.mem)
    ensures Steps(g, world, c, n, c')
    ensures var r := LowerCond(k, env, b).value;
            var value := EvalCond(k, vals, c.trace, world);
            && value.Some?
            && Computes(Some(Value(Flag(value.value.v), value.value.trace)), Read(r.v, c'.regs), b, r.b, c, c')
  {
    match k
    case Literal(_) =>
      n, c' := 0, c;
    case Compare(p, left, right) =>
      var l := LowerExpr(left, env, b).value;
      var r := LowerExpr(right, env, l.b).value;
      var i := ICmp(r.b.regs, p, l.v, r.v);
      WithinTrans(r.b, r.b.Emit(i), g);
      var m, c1 := SimPair(left, right, env, b, l, r, vals, g, world, c);
      var x := Read(l.v, c1.regs).value;
      var y := Read(r.v, c1.regs).value;
      n, c' := FinishExpr(b, r.b, i, g, world, c, m, c1, Flag(Holds(p, x, y)), c1.trace);
  }
}
