/** The part of LLVM IR that the code generator emits, as a machine that steps through basic blocks. */
module Machine {
  import opened Wrappers
  import opened Language

  datatype Operand = Imm(v: Int32) | Reg(id: nat)

  datatype Instr =
    | Load(dst: nat, slot: nat)
    | Store(src: Operand, slot: nat)
    | Compute(dst: nat, op: BinOp, a: Operand, b: Operand)
    | ICmp(dst: nat, p: Pred, a: Operand, b: Operand)
    | Invoke(dst: nat, callee: string, args: seq<Operand>)
    | Br(target: nat)
    | CondBr(cond: Operand, ifTrue: nat, ifFalse: nat)
    | Ret

  type Code = seq<seq<Instr>>

  datatype Config = Config(block: nat, pc: nat, regs: map<nat, Int32>, mem: map<nat, Int32>, trace: seq<Event>)

  function Fetch(g: Code, c: Config): Option<Instr> {
    if c.block < |g| && c.pc < |g[c.block]| then Some(g[c.block][c.pc]) else None
  }

  function Read(o: Operand, regs: map<nat, Int32>): Option<Int32> {
    match o
    case Imm(v) => Some(v)
    case Reg(id) => if id in regs then Some(regs[id]) else None
  }

  function ReadAll(os: seq<Operand>, regs: map<nat, Int32>): Option<seq<Int32>> {
    if os == [] then Some([])
    else
      var v :- Read(os[0], regs);
      var vs :- ReadAll(os[1..], regs);
      Some([v] + vs)
  }

  /** Falls through to the next instruction with `v` in register `dst`. */
  function Define(c: Config, dst: nat, v: Int32): Config {
    c.(pc := c.pc + 1, regs := c.regs[dst := v])
  }

  /**
   The effect of one instruction.  `None` at a return is a normal halt;
   anywhere else a register or slot is read before it is written.
   */
  function Perform(i: Instr, world: World, c: Config): Option<Config> {
    match i
    case Load(dst, slot) =>
      if slot in c.mem then Some(Define(c, dst, c.mem[slot])) else None
    case Store(src, slot) =>
      var v :- Read(src, c.regs);
      Some(c.(pc := c.pc + 1, mem := c.mem[slot := v]))
    case Compute(dst, op, a, b) =>
      var x :- Read(a, c.regs);
      var y :- Read(b, c.regs);
      Some(Define(c, dst, Arith(op, x, y)))
    case ICmp(dst, p, a, b) =>
      var x :- Read(a, c.regs);
      var y :- Read(b, c.regs);
      Some(Define(c, dst, Flag(Holds(p, x, y))))
    case Invoke(dst, f, args) =>
      var vs :- ReadAll(args, c.regs);
      var trace := c.trace + [Event(f, vs)];
      Some(Define(c.(trace := trace), dst, world(trace)))
    case Br(t) => Some(c.(block := t, pc := 0))
    case CondBr(cond, t, f) =>
      var v :- Read(cond, c.regs);
      Some(c.(block := if v != 0 then t else f, pc := 0))
    case Ret => None
  }

  /** `None` when the machine halts, is stuck or has run off the end of a block. */
  function Step(g: Code, world: World, c: Config): Option<Config> {
    var i :- Fetch(g, c);
    Perform(i, world, c)
  }

  /** Exactly `n` steps; `None` when the machine stops earlier. */
  function Run(g: Code, world: World, c: Config, n: nat): Option<Config>
    decreases n
  {
    if n == 0 then Some(c)
    else
      var next :- Step(g, world, c);
      Run(g, world, next, n - 1)
  }

  lemma {:induction false} RunAppend(g: Code, world: World, c: Config, m: nat, n: nat)
    requires Run(g, world, c, m).Some?
    ensures Run(g, world, c, m + n) == Run(g, world, Run(g, world, c, m).value, n)
    decreases m
  {
    if m > 0 {
      RunAppend(g, world, Step(g, world, c).value, m - 1, n);
    }
  }
}
