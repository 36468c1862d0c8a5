/** Whole functions: the compiled code halts, at a return, having made the calls of the source. */
module CompiledFunction {
  import opened Wrappers
  import opened Language
  import opened Machine
  import opened Lowering
  import opened Simulation
  import opened Refinement
  import opened Termination

  /** The machine at function entry: arguments in registers, no slot written yet. */
  function Entry(args: seq<Int32>): Config {
    Config(0, 0, map i: nat | i < |args| :: args[i], map[], [])
  }

  /** Halted at a return, having made exactly these calls. */
  ghost predicate Returned(g: Code, c: Config, trace: seq<Event>) {
    Fetch(g, c) == Some(Ret) && c.trace == trace
  }

  /** Stopped, for whatever reason, after exactly `n` steps. */
  ghost predicate StopsAfter(g: Code, world: World, c: Config, n: nat) {
    var end := Run(g, world, c, n);
    end.Some? && Step(g, world, end.value).None?
  }

  lemma {:induction false} ParamsGrow(params: seq<string>, i: nat, env: Scope<nat>, b: IR)
    requires b.Valid() && i <= |params|
    ensures Grows(b, LowerParams(params, i, env, b).b)
    decreases |params| - i
  {
    if i < |params| {
      var b1 := b.Emit(Store(Reg(i), b.slots)).(slots := b.slots + 1);
      assert Grows(b, b1);
      ParamsGrow(params, i + 1, Declare(env, params[i], b.slots), b1);
      GrowsTrans(b, b1, LowerParams(params, i + 1, Declare(env, params[i], b.slots), b1).b);
    }
  }

  lemma {:induction false} SimParams(params: seq<string>, args: seq<Int32>, i: nat, env: Scope<nat>, b: IR,
                                     vals: Scope<Int32>, g: Code, world: World, c: Config) returns (n: nat, c': Config)
    requires |params| == |args| && i <= |params| && Starts(env, b, vals, c) && c.regs == Entry(args).regs
    requires Within(LowerParams(params, i, env, b).b, g)
    ensures var r := LowerParams(params, i, env, b);
            && Steps(g, world, c, n, c') && c'.trace == c.trace
            && Starts(r.env, r.b, BindArgs(params, args, i, vals), c')
    decreases |params| - i
  {
    if i == |params| {
      n, c' := 0, c;
    } else {
      var store := Store(Reg(i), b.slots);
      var b1 := b.Emit(store).(slots := b.slots + 1);
      var env1 := Declare(env, params[i], b.slots);
      ParamsGrow(params, i + 1, env1, b1);
      WithinTrans(b1, LowerParams(params, i + 1, env1, b1).b, g);
      StepEmitted(b, store, g, world, c);
      var c1 := Perform(store, world, c).value;
      DeclareFresh(env, b.slots, params[i]);
      DeclareAgrees(env, b.slots, vals, c.mem, params[i], args[i]);
      n, c' := SimParams(params, args, i + 1, env1, b1, Declare(vals, params[i], args[i]), g, world, c1);
      StepsTrans(g, world, c, 1, c1, n, c');
      n := n + 1;
    }
  }

  /** For every bound on loop rounds, what the compiled function does. */
  lemma SimFunction(params: seq<string>, body: seq<Stmt>, args: seq<Int32>, world: World, fuel: nat)
    returns (n: nat, c: Config)
    requires |params| == |args| && LowerFunction(params, body).Some?
    ensures var g := LowerFunction(params, body).value.blocks;
            && Steps(g, world, Entry(args), n, c)
            && match CallFunction(params, body, args, world, fuel)
               case Done(_, trace) => Returned(g, c, trace)
               case OutOfFuel(trace) => n >= fuel && c.trace == trace
               case Stuck => false
  {
    var ir := LowerFunction(params, body).value;
    var g := ir.blocks;
    var b0 := EntryBlock(|params|);
    var p := LowerParams(params, 0, Frame(map[], Root), b0);
    var env := Frame(map[], p.env);
    var l := LowerBlock(body, env, p.b).value;
    BlockGrows(body, env, p.b);
    assert Within(l.b, g);
    WithinTrans(p.b, l.b, g);
    var m, c1 := SimParams(params, args, 0, Frame(map[], Root), b0, Frame(map[], Root), g, world, Entry(args));
    var vals := Frame(map[], BindArgs(params, args, 0, Frame(map[], Root)));
    assert Allocated(env, p.b.slots);
    n, c := SimBlock(body, env, p.b, vals, g, world, fuel, c1);
    StepsTrans(g, world, Entry(args), m, c1, n, c);
    n := m + n;
    if ExecBlock(body, vals, c1.trace, world, fuel).Done? {
      assert g[l.b.cur][l.b.Here()] == Ret;
    }
  }

  lemma {:induction false} RunPrefix(g: Code, world: World, c: Config, m: nat, n: nat)
    requires Run(g, world, c, n).Some? && m <= n
    ensures Run(g, world, c, m).Some?
    ensures m < n ==> Step(g, world, Run(g, world, c, m).value).Some?
    decreases m
  {
    if m > 0 {
      RunPrefix(g, world, Step(g, world, c).value, m - 1, n - 1);
    }
  }

  /** A deterministic machine stops at most once. */
  lemma StopsOnce(g: Code, world: World, c: Config, m: nat, n: nat)
    requires StopsAfter(g, world, c, m) && Run(g, world, c, n).Some?
    ensures n <= m
    ensures StopsAfter(g, world, c, n) ==> m == n
  {
    if m < n {
      RunPrefix(g, world, c, m, n);
    }
    if n < m {
      RunPrefix(g, world, c, n, m);
    }
  }

  /** What a function does, with rounds enough for all its loops. */
  function Meaning(params: seq<string>, body: seq<Stmt>, args: seq<Int32>, world: World): Outcome
    requires |params| == |args|
  {
    CallFunction(params, body, args, world, Need(body))
  }

  /** A function comes to an end, and the bound on loop rounds does not matter once it is large enough. */
  lemma FunctionEnds(params: seq<string>, body: seq<Stmt>, args: seq<Int32>, world: World, fuel: nat)
    requires |params| == |args|
    ensures var run, end := CallFunction(params, body, args, world, fuel), Meaning(params, body, args, world);
            !end.OutOfFuel? && (fuel >= Need(body) || !run.OutOfFuel? ==> run == end)
  {
    var vals := Frame(map[], BindArgs(params, args, 0, Frame(map[], Root)));
    BlockEnds(body, vals, [], world, Need(body));
    if fuel >= Need(body) {
      BlockSettled(body, vals, [], world, Need(body), fuel);
    } else if !CallFunction(params, body, args, world, fuel).OutOfFuel? {
      BlockSettled(body, vals, [], world, fuel, Need(body));
    }
  }

  /**
   Compilation preserves behaviour.  For all arguments and whatever its callees
   return, the source function ends without reading an unbound name; the
   compiled function stops, after one number of steps only, stands at a return
   and has made the same calls in the same order.  The source goes through no
   more rounds than that has steps.  In particular it never gets
   stuck on an undefined register, an unwritten slot or the end of a block.
   */
  lemma CompiledFunctionHalts(params: seq<string>, body: seq<Stmt>, args: seq<Int32>, world: World) returns (n: nat)
    requires |params| == |args| && LowerFunction(params, body).Some?
    ensures var g, run := LowerFunction(params, body).value.blocks, Meaning(params, body, args, world);
            && run.Done?
            && StopsAfter(g, world, Entry(args), n)
            && Returned(g, Run(g, world, Entry(args), n).value, run.trace)
            && (forall k: nat :: StopsAfter(g, world, Entry(args), k) ==> k == n)
            && CallFunction(params, body, args, world, n + 1) == run
  {
    var g := LowerFunction(params, body).value.blocks;
    FunctionEnds(params, body, args, world, Need(body));
    var c;
    n, c := SimFunction(params, body, args, world, Need(body));
    forall k: nat | StopsAfter(g, world, Entry(args), k)
      ensures k == n
    {
      StopsOnce(g, world, Entry(args), k, n);
    }
    var m, c1 := SimFunction(params, body, args, world, n + 1);
    StopsOnce(g, world, Entry(args), n, m);
    FunctionEnds(params, body, args, world, n + 1);
  }
}
