/**
 What generated code is seen to do, in numbers and names written out: laws of
 the operators and scopes that source and machine share, and whole functions
 whose calls can be told from their arguments.
 */
module Observed {
  import opened Wrappers
  import opened Language
  import opened Machine
  import opened Lowering
  import opened Simulation
  import opened CompiledFunction
  import opened Termination
  import opened Scoping
  import LoopMeaning

  // ----------------------------------------------------------------- operators

  /** `b` is `d` steps above `a`. */
  predicate Above(d: nat, a: int, b: int) {
    d > 0 && b == a + d
  }

  /** Less and greater by counting; the others are complements. */
  lemma Comparisons(a: Int32, b: Int32)
    ensures Holds(Less, a, b) <==> exists d: nat :: Above(d, a, b)
    ensures Holds(Greater, a, b) <==> exists d: nat :: Above(d, b, a)
    ensures Holds(Equal, a, b) <==> a == b
    ensures Holds(NotEqual, a, b) <==> !Holds(Equal, a, b)
    ensures Holds(LessEqual, a, b) <==> !Holds(Greater, a, b)
    ensures Holds(GreaterEqual, a, b) <==> !Holds(Less, a, b)
  {
    if a < b {
      assert Above(b - a, a, b);
    }
    if b < a {
      assert Above(a - b, b, a);
    }
  }

  /** A condition as a number. */
  lemma Flags(b: bool)
    ensures Flag(b) == 0 || Flag(b) == 1
    ensures Flag(b) == 1 <==> b
  {
  }

  /** Equal up to a multiple of 2^32. */
  predicate Congruent(a: int, b: int) {
    (a - b) % 0x1_0000_0000 == 0
  }

  lemma Residue(a: int, b: int, k: int)
    requires a == b + k * 0x1_0000_0000
    ensures Congruent(a, b)
  {
  }

  /** A 32-bit result is the one number of the type that is congruent to the true one. */
  lemma Arithmetic(op: BinOp, a: Int32, b: Int32, v: int)
    requires v == match op case Plus => a + b case Minus => a - b case Times => a * b
    ensures Congruent(Arith(op, a, b), v)
  {
    WrapCongruent(v);
  }

  lemma WrapCongruent(v: int)
    ensures Congruent(Wrap32(v), v)
  {
    var k := (v + 0x8000_0000) / 0x1_0000_0000;
    assert v + 0x8000_0000 == k * 0x1_0000_0000 + (v + 0x8000_0000) % 0x1_0000_0000;
    Residue(Wrap32(v), v, -k);
  }

  lemma OneOfAClass(a: Int32, b: Int32)
    requires Congruent(a, b)
    ensures a == b
  {
  }

  // -------------------------------------------------------------------- scopes

  /** Binding a name in a scope hides it further out, and touches no other name. */
  lemma DeclaredFound<V>(s: Scope<V>, x: string, y: string, v: V)
    requires s.Frame?
    ensures Lookup(Declare(s, x, v), y) == if y == x then Some(v) else Lookup(s, y)
  {
  }

  /** Overwriting changes the variable that is found, where it is found. */
  lemma {:induction false} UpdatedFound<V>(s: Scope<V>, x: string, y: string, v: V)
    requires Lookup(s, x).Some?
    ensures Lookup(Update(s, x, v), y) == if y == x then Some(v) else Lookup(s, y)
    ensures s.Frame? && Update(s, x, v).Frame?
    ensures if x in s.vars then Update(s, x, v).outer == s.outer else Update(s, x, v).vars == s.vars
  {
    if x !in s.vars {
      UpdatedFound(s.outer, x, y, v);
    }
  }

  // ---------------------------------------------------------- whole functions

  /** The generated code returns, having made exactly these calls. */
  ghost predicate Makes(params: seq<string>, body: seq<Stmt>, args: seq<Int32>, world: World, calls: seq<Event>)
    requires |params| == |args|
  {
    LowerFunction(params, body).Some? &&
    exists n: nat :: StopsAfter(LowerFunction(params, body).value.blocks, world, Entry(args), n)
      && Returned(LowerFunction(params, body).value.blocks, Run(LowerFunction(params, body).value.blocks, world, Entry(args), n).value, calls)
  }

  lemma RunsAsMeant(params: seq<string>, body: seq<Stmt>, args: seq<Int32>, world: World, fuel: nat, calls: seq<Event>)
    requires |params| == |args| && LowerFunction(params, body).Some?
    requires var run := CallFunction(params, body, args, world, fuel); run.Done? && run.trace == calls
    ensures Makes(params, body, args, world, calls)
  {
    var n := CompiledFunctionHalts(params, body, args, world);
    FunctionEnds(params, body, args, world, fuel);
  }

  lemma OneParam(a: Int32)
    ensures BindArgs(["x"], [a], 0, Frame(map[], Root)) == Frame(map["x" := a], Root)
  {
    var s: Scope<Int32> := Frame(map[], Root);
    assert BindArgs(["x"], [a], 1, Declare(s, "x", a)) == Declare(s, "x", a);
    assert map[]["x" := a] == map["x" := a];
  }

  lemma TwoParams(a: Int32, b: Int32)
    ensures BindArgs(["x", "y"], [a, b], 0, Frame(map[], Root)) == Frame(map["x" := a, "y" := b], Root)
  {
    var s: Scope<Int32> := Frame(map[], Root);
    var t: Scope<Int32> := Frame(map["x" := a], Root);
    var u: Scope<Int32> := Frame(map["x" := a, "y" := b], Root);
    assert Declare(s, "x", a) == t && Declare(t, "y", b) == u;
    assert BindArgs(["x", "y"], [a, b], 2, u) == u;
    assert BindArgs(["x", "y"], [a, b], 1, t) == u;
  }

  lemma Distinct()
    ensures "x" != "y" && "x" != "s" && "x" != "i" && "y" != "i" && "s" != "i" && "f" != "g"
  {
    assert "x"[0] != "y"[0] && "x"[0] != "s"[0] && "x"[0] != "i"[0] && "y"[0] != "i"[0] && "s"[0] != "i"[0] && "f"[0] != "g"[0];
  }

  lemma ReadParams(a: Int32, b: Int32)
    ensures var params: Scope<Int32> := Frame(map["x" := a, "y" := b], Root);
            && Lookup(params, "x") == Some(a) && Lookup(params, "y") == Some(b)
            && Lookup(Frame(map[], params), "x") == Some(a) && Lookup(Frame(map[], params), "y") == Some(b)
  {
    Distinct();
  }

  lemma SeeParams()
    ensures Visible("x", [{}, Elements(["x", "y"])]) && Visible("y", [{}, Elements(["x", "y"])]) && Visible("x", [{}, Elements(["x"])])
  {
    var two, one := Elements(["x", "y"]), Elements(["x"]);
    assert ["x", "y"][1..] == ["y"] && ["y"][1..] == [] && ["x"][1..] == [];
    assert "x" in two && "y" in two && "x" in one;
    assert [{}, two][1..] == [two] && [{}, one][1..] == [one];
    assert Visible("x", [two]) && Visible("y", [two]) && Visible("x", [one]);
  }

  lemma OneScoped(s: Stmt, scopes: Scopes)
    ensures BlockScoped([s], scopes) <==> StmtScoped(s, scopes)
  {
    assert [s][0] == s && [s][1..] == [];
    assert BlockScoped([], After(s, scopes));
  }

  lemma CallScoped(e: Expr, scopes: Scopes)
    ensures BlockScoped(CallOf(e), scopes) <==> ExprScoped(e, scopes)
  {
    OneScoped(Eval(Call("f", [e])), scopes);
    assert [e][0] == e && [e][1..] == [];
    assert ArgsScoped([e], scopes) <==> ExprScoped(e, scopes);
  }

  /** One call of `f`; its argument calls nothing. */
  function CallOf(e: Expr): seq<Stmt> {
    [Eval(Call("f", [e]))]
  }

  lemma OneCall(e: Expr, v: Int32, vals: Scope<Int32>, trace: seq<Event>, world: World, fuel: nat)
    requires EvalExpr(e, vals, trace, world) == Some(Value(v, trace))
    ensures ExecBlock(CallOf(e), vals, trace, world, fuel) == Done(vals, trace + [Event("f", [v])])
  {
    assert [e][1..] == [] && [v] + [] == [v];
    assert EvalArgs([e], vals, trace, world) == Some(Value([v], trace));
    assert CallOf(e)[1..] == [];
    assert ExecStmt(CallOf(e)[0], vals, trace, world, fuel) == Done(vals, trace + [Event("f", [v])]);
  }

  // ------------------------------------------------------------ if statements

  /** `if x <p> y { f() } else { g() }` */
  function Choose(p: Pred): seq<Stmt> {
    [If(Compare(p, Var("x"), Var("y")), [Eval(Call("f", []))], [Eval(Call("g", []))])]
  }

  lemma CallNone(f: string, vals: Scope<Int32>, world: World, fuel: nat)
    ensures ExecBlock([Eval(Call(f, []))], vals, [], world, fuel) == Done(vals, [Event(f, [])])
  {
    var s := Eval(Call(f, []));
    assert [s][1..] == [] && [] + [Event(f, [])] == [Event(f, [])];
    assert EvalArgs([], vals, [], world) == Some(Value([], []));
    assert ExecStmt(s, vals, [], world, fuel) == Done(vals, [Event(f, [])]);
  }

  lemma ChooseScoped(p: Pred)
    ensures LowerFunction(["x", "y"], Choose(p)).Some?
  {
    var scopes := [{}, Elements(["x", "y"])];
    var thn, els := Eval(Call("f", [])), Eval(Call("g", []));
    FunctionLowers(["x", "y"], Choose(p));
    SeeParams();
    OneScoped(thn, [{}] + scopes);
    OneScoped(els, [{}] + scopes);
    assert ArgsScoped([], [{}] + scopes);
    OneScoped(If(Compare(p, Var("x"), Var("y")), [thn], [els]), scopes);
    assert CondScoped(Compare(p, Var("x"), Var("y")), scopes);
  }

  lemma Chosen(p: Pred, a: Int32, b: Int32, world: World)
    ensures var run := CallFunction(["x", "y"], Choose(p), [a, b], world, 0);
            run.Done? && run.trace == [Event(if Holds(p, a, b) then "f" else "g", [])]
  {
    TwoParams(a, b);
    var params: Scope<Int32> := Frame(map["x" := a, "y" := b], Root);
    var vals: Scope<Int32> := Frame(map[], params);
    ReadParams(a, b);
    assert EvalCond(Compare(p, Var("x"), Var("y")), vals, [], world) == Some(Value(Holds(p, a, b), []));
    CallNone(if Holds(p, a, b) then "f" else "g", Frame(map[], vals), world, 0);
    assert Choose(p)[1..] == [];
  }

  /** The generated code of the if statement calls one function, which the arguments select as the operator says. */
  lemma ComparisonCode(p: Pred, a: Int32, b: Int32, world: World) returns (called: string)
    ensures Makes(["x", "y"], Choose(p), [a, b], world, [Event(called, [])])
    ensures called == "f" || called == "g"
    ensures p.Less? ==> (called == "f" <==> a < b)
    ensures p.LessEqual? ==> (called == "f" <==> a < b || a == b)
    ensures p.Greater? ==> (called == "f" <==> b < a)
    ensures p.GreaterEqual? ==> (called == "f" <==> b < a || a == b)
    ensures p.Equal? ==> (called == "f" <==> a == b)
    ensures p.NotEqual? ==> (called == "f" <==> a < b || b < a)
  {
    called := if Holds(p, a, b) then "f" else "g";
    Distinct();
    ChooseScoped(p);
    Chosen(p, a, b, world);
    RunsAsMeant(["x", "y"], Choose(p), [a, b], world, 0, [Event(called, [])]);
  }

  // -------------------------------------------------------------- expressions

  /** The generated code of `f(x <op> y)` calls `f` once, with the 32-bit result. */
  lemma ArithmeticCode(op: BinOp, a: Int32, b: Int32, world: World) returns (v: Int32)
    ensures Makes(["x", "y"], CallOf(Bin(op, Var("x"), Var("y"))), [a, b], world, [Event("f", [v])])
    ensures Congruent(v, match op case Plus => a + b case Minus => a - b case Times => a * b)
  {
    var e := Bin(op, Var("x"), Var("y"));
    v := Arith(op, a, b);
    Arithmetic(op, a, b, match op case Plus => a + b case Minus => a - b case Times => a * b);
    ArithmeticScoped(op);
    TwoParams(a, b);
    var vals: Scope<Int32> := Frame(map[], Frame(map["x" := a, "y" := b], Root));
    ReadBoth(op, a, b, world);
    OneCall(e, v, vals, [], world, 0);
    assert [] + [Event("f", [v])] == [Event("f", [v])];
    RunsAsMeant(["x", "y"], CallOf(e), [a, b], world, 0, [Event("f", [v])]);
  }

  lemma ReadBoth(op: BinOp, a: Int32, b: Int32, world: World)
    ensures var vals: Scope<Int32> := Frame(map[], Frame(map["x" := a, "y" := b], Root));
            EvalExpr(Bin(op, Var("x"), Var("y")), vals, [], world) == Some(Value(Arith(op, a, b), []))
  {
    ReadParams(a, b);
  }

  lemma ArithmeticScoped(op: BinOp)
    ensures LowerFunction(["x", "y"], CallOf(Bin(op, Var("x"), Var("y")))).Some?
  {
    FunctionLowers(["x", "y"], CallOf(Bin(op, Var("x"), Var("y"))));
    SeeParams();
    CallScoped(Bin(op, Var("x"), Var("y")), [{}, Elements(["x", "y"])]);
  }

  // --------------------------------------------------------------------- loops

  /** `for i : x..y { f(i) }` */
  function CountUp(): seq<Stmt> {
    [For("i", Var("x"), Var("y"), CallOf(Var("i")))]
  }

  /** `f(a)`, `f(a + 1)` and so on, below `b`. */
  function Counted(a: Int32, b: Int32): seq<Event>
    decreases b - a
  {
    if a < b then [Event("f", [a])] + Counted(a + 1, b) else []
  }

  lemma {:induction false} CountedAt(a: Int32, b: Int32, k: nat)
    ensures |Counted(a, b)| == if a < b then b - a else 0
    ensures k < |Counted(a, b)| ==> Counted(a, b)[k].callee == "f" && Counted(a, b)[k].args == [a + k]
    decreases b - a
  {
    if a < b {
      CountedAt(a + 1, b, if k > 0 then k - 1 else 0);
    }
  }

  lemma {:induction false} CountingLoop(a: Int32, b: Int32, cur: Int32, trace: seq<Event>, world: World, fuel: nat)
    requires fuel > 0x8000_0000 - cur
    ensures var vals: Scope<Int32> := Frame(map[], Frame(map["x" := a, "y" := b], Root));
            var run := ExecLoop("i", Var("y"), CallOf(Var("i")), cur, vals, trace, world, fuel);
            run.Done? && run.trace == trace + Counted(cur, b)
    decreases b - cur
  {
    var vals: Scope<Int32> := Frame(map[], Frame(map["x" := a, "y" := b], Root));
    ReadParams(a, b);
    assert EvalExpr(Var("y"), vals, trace, world) == Some(Value(b, trace));
    if cur < b {
      var inner := Frame(map[], Frame(map["i" := cur], vals));
      assert Lookup(inner, "i") == Some(cur);
      OneCall(Var("i"), cur, inner, trace, world, fuel - 1);
      assert Wrap32(cur + 1) == cur + 1;
      CountingLoop(a, b, cur + 1, trace + [Event("f", [cur])], world, fuel - 1);
      assert trace + [Event("f", [cur])] + Counted(cur + 1, b) == trace + Counted(cur, b);
    } else {
      assert trace + Counted(cur, b) == trace;
    }
  }

  lemma CountingRun(a: Int32, b: Int32, world: World)
    ensures var run := CallFunction(["x", "y"], CountUp(), [a, b], world, 0x2_0000_0000);
            run.Done? && run.trace == Counted(a, b)
  {
    TwoParams(a, b);
    var vals: Scope<Int32> := Frame(map[], Frame(map["x" := a, "y" := b], Root));
    ReadParams(a, b);
    CountingLoop(a, b, a, [], world, 0x2_0000_0000);
    assert [] + Counted(a, b) == Counted(a, b);
    assert CountUp()[1..] == [];
  }

  lemma SeeLoop(body: set<string>, loop: set<string>, outer: Scopes, x: string)
    ensures Visible(x, [body, loop] + outer) <==> x in body || x in loop || Visible(x, outer)
  {
    assert ([body, loop] + outer)[1..] == [loop] + outer && ([loop] + outer)[1..] == outer;
  }

  lemma CountingScoped()
    ensures LowerFunction(["x", "y"], CountUp()).Some?
  {
    var scopes := [{}, Elements(["x", "y"])];
    FunctionLowers(["x", "y"], CountUp());
    SeeParams();
    SeeLoop({}, {"i"}, scopes, "i");
    CallScoped(Var("i"), [{}, {"i"}] + scopes);
    OneScoped(CountUp()[0], scopes);
    assert CountUp() == [CountUp()[0]];
  }

  /** The generated code of the loop calls `f` once for every number from `a` up to but not including `b`, in order. */
  lemma CountingCode(a: Int32, b: Int32, world: World) returns (calls: seq<Event>)
    ensures Makes(["x", "y"], CountUp(), [a, b], world, calls)
    ensures |calls| == if a < b then b - a else 0
    ensures forall k | 0 <= k < |calls| :: calls[k].callee == "f" && calls[k].args == [a + k]
  {
    calls := Counted(a, b);
    CountingRun(a, b, world);
    CountingScoped();
    RunsAsMeant(["x", "y"], CountUp(), [a, b], world, 0x2_0000_0000, calls);
    forall k | 0 <= k < |calls|
      ensures calls[k].callee == "f" && calls[k].args == [a + k]
    {
      CountedAt(a, b, k);
    }
    CountedAt(a, b, 0);
  }

  // --------------------------------------------------------------- assignments

  /** `s = 0  for i : 0..x { s = s + i }  f(s)` */
  function SumUp(): seq<Stmt> {
    [Assign("s", Const(0)), For("i", Const(0), Var("x"), AddOn()), Eval(Call("f", [Var("s")]))]
  }

  function AddOn(): seq<Stmt> {
    [Assign("s", Bin(Plus, Var("s"), Var("i")))]
  }

  /** The numbers below `n`, added up. */
  function Total(n: nat): nat {
    if n == 0 then 0 else Total(n - 1) + (n - 1)
  }

  lemma {:induction false} TotalFormula(n: nat)
    ensures Total(n) == n * (n - 1) / 2
    decreases n
  {
    if n > 0 {
      TotalFormula(n - 1);
      TriangleStep(n - 1);
    }
  }

  lemma TriangleStep(n: nat)
    ensures n * (n - 1) / 2 + n == (n + 1) * n / 2
  {
    assert (n + 1) * n == n * (n - 1) + 2 * n;
  }

  function SumScope(x: Int32, s: Int32): Scope<Int32> {
    Frame(map["s" := s], Frame(map["x" := x], Root))
  }

  lemma AddedOn(x: Int32, s: Int32, i: Int32, world: World, fuel: nat)
    ensures var inner := Frame(map[], Frame(map["i" := i], SumScope(x, s)));
            ExecBlock(AddOn(), inner, [], world, fuel) == Done(Frame(map[], Frame(map["i" := i], SumScope(x, Wrap32(s + i)))), [])
  {
    var loop := Frame(map["i" := i], SumScope(x, s));
    var inner: Scope<Int32> := Frame(map[], loop);
    var v := Wrap32(s + i);
    Distinct();
    assert Lookup(SumScope(x, s), "s") == Some(s) && Lookup(loop, "s") == Some(s);
    assert Lookup(inner, "s") == Some(s) && Lookup(inner, "i") == Some(i);
    assert EvalExpr(Bin(Plus, Var("s"), Var("i")), inner, [], world) == Some(Value(v, []));
    assert map["s" := s]["s" := v] == map["s" := v];
    assert Update(SumScope(x, s), "s", v) == SumScope(x, v);
    assert Update(loop, "s", v) == Frame(map["i" := i], SumScope(x, v));
    assert Update(inner, "s", v) == Frame(map[], Frame(map["i" := i], SumScope(x, v)));
    assert AddOn()[1..] == [];
  }

  /** What `s` is before round `i`. */
  function Sum32(i: nat): Int32 {
    Wrap32(Total(i))
  }

  /** The loop is through, and `s` is the total. */
  predicate Summed(run: Outcome, x: Int32) {
    run.Done? && run.trace == [] && Lookup(run.vals, "s") == Some(Sum32(if x < 0 then 0 else x))
  }

  lemma {:induction false} SummingLoop(x: Int32, i: Int32, world: World, fuel: nat)
    requires 0 <= i && (i <= x || i == 0) && fuel > 0x8000_0000 - i
    ensures Summed(ExecLoop("i", Var("x"), AddOn(), i, SumScope(x, Sum32(i)), [], world, fuel), x)
    decreases x - i
  {
    var vals := SumScope(x, Sum32(i));
    SumScopeReads(x, Sum32(i));
    assert EvalExpr(Var("x"), vals, [], world) == Some(Value(x, []));
    if i < x {
      AddedOn(x, Sum32(i), i, world, fuel - 1);
      SumStep(i);
      LoopMeaning.ExecRound("i", Var("x"), AddOn(), i, vals, [], world, fuel, i, SumScope(x, Sum32(i + 1)), []);
      SummingLoop(x, i + 1, world, fuel - 1);
    } else {
      LoopMeaning.ExecEnd("i", Var("x"), AddOn(), i, vals, [], world, fuel);
      SumLeaks(x, Sum32(i), i);
    }
  }

  lemma SumScopeReads(x: Int32, s: Int32)
    ensures Lookup(SumScope(x, s), "x") == Some(x) && Lookup(SumScope(x, s), "s") == Some(s)
  {
    Distinct();
    assert Lookup(Frame(map["x" := x], Root), "x") == Some(x);
  }

  lemma SumLeaks(x: Int32, s: Int32, i: Int32)
    ensures Lookup(Leak(SumScope(x, s), "i", i), "s") == Some(s)
  {
    Distinct();
  }

  lemma SumStep(i: Int32)
    requires 0 <= i < 0x7FFF_FFFF
    ensures Wrap32(Sum32(i) + i) == Sum32(i + 1) && Wrap32(i + 1) == i + 1
  {
    assert Total(i + 1) == Total(i) + i;
    WrapTwice(Total(i), i);
  }

  lemma WrapTwice(a: int, b: int)
    ensures Wrap32(Wrap32(a) + b) == Wrap32(a + b)
  {
  }

  lemma SumBegins(x: Int32)
    ensures var vals: Scope<Int32> := Frame(map[], Frame(map["x" := x], Root));
            Lookup(vals, "s") == None && Declare(vals, "s", 0) == SumScope(x, 0) && Sum32(0) == 0
  {
    Distinct();
    var params: Scope<Int32> := Frame(map["x" := x], Root);
    assert Lookup(params, "s") == None;
    assert map[]["s" := 0 as Int32] == map["s" := 0];
  }

  lemma SummingRun(x: Int32, world: World, fuel: nat)
    requires fuel > 0x8000_0000
    ensures var run := CallFunction(["x"], SumUp(), [x], world, fuel);
            run.Done? && run.trace == [Event("f", [Sum32(if x < 0 then 0 else x)])]
  {
    OneParam(x);
    var vals: Scope<Int32> := Frame(map[], Frame(map["x" := x], Root));
    SumBegins(x);
    assert ExecStmt(SumUp()[0], vals, [], world, fuel) == Done(SumScope(x, 0), []);
    SummingLoop(x, 0, world, fuel);
    var run := ExecLoop("i", Var("x"), AddOn(), 0, SumScope(x, 0), [], world, fuel);
    SumEnds(x, Sum32(if x < 0 then 0 else x), run, world, fuel);
  }

  lemma SumEnds(x: Int32, v: Int32, run: Outcome, world: World, fuel: nat)
    requires run == ExecLoop("i", Var("x"), AddOn(), 0, SumScope(x, 0), [], world, fuel)
    requires run.Done? && run.trace == [] && Lookup(run.vals, "s") == Some(v)
    ensures ExecBlock(SumUp()[1..], SumScope(x, 0), [], world, fuel) == Done(run.vals, [Event("f", [v])])
  {
    var after := SumUp()[1..];
    assert after[0] == SumUp()[1] && after[1..] == CallOf(Var("s"));
    assert ExecStmt(after[0], SumScope(x, 0), [], world, fuel) == run;
    OneCall(Var("s"), v, run.vals, [], world, fuel);
    assert [] + [Event("f", [v])] == [Event("f", [v])];
  }

  lemma SumVisible(p: set<string>)
    requires p == Elements(["x"])
    ensures After(SumUp()[0], [{}, p]) == [{"s"}, p] && Visible("s", Bind("i", [{"s"}, p])) && Visible("x", [{"s"}, p]) && Visible("s", [{"s"}, p])
  {
    Distinct();
    assert p == {"x"} by {
      assert ["x"][1..] == [];
    }
    assert [{}, p][1..] == [p] && [p][1..] == [] && [{"s"}, p][1..] == [p];
    assert !Visible("s", [p]) && Visible("x", [p]);
    var none: set<string> := {};
    assert none + {"s"} == {"s"} && [{"s"}] + [p] == [{"s"}, p];
    assert Bind("i", [{"s"}, p])[0] == {"s", "i"};
  }

  lemma SummingScoped()
    ensures LowerFunction(["x"], SumUp()).Some?
  {
    var p := Elements(["x"]);
    var scopes := [{"s"}, p];
    FunctionLowers(["x"], SumUp());
    SeeParams();
    Distinct();
    SumVisible(p);
    SeeLoop({}, {"i"}, scopes, "i");
    SeeLoop({}, {"i"}, scopes, "s");
    OneScoped(AddOn()[0], [{}, {"i"}] + scopes);
    assert AddOn() == [AddOn()[0]];
    var inner := [{}, {"i"}] + scopes;
    assert Visible("s", inner) && Visible("i", inner);
    assert ExprScoped(Bin(Plus, Var("s"), Var("i")), inner);
    assert BlockScoped(AddOn(), [{}, {"i"}] + scopes);
    CallScoped(Var("s"), Bind("i", scopes));
    var after := SumUp()[1..];
    assert after[0] == SumUp()[1] && after[1..] == CallOf(Var("s"));
    assert StmtScoped(after[0], scopes);
    assert BlockScoped(after[1..], After(after[0], scopes));
  }

  lemma SumFormula(x: Int32)
    ensures Congruent(Sum32(if x < 0 then 0 else x), if x < 0 then 0 else x * (x - 1) / 2)
  {
    var n := if x < 0 then 0 else x;
    WrapCongruent(Total(n));
    TotalFormula(n);
  }

  /** The generated code adds up the numbers below its argument, in 32 bits. */
  lemma SummingCode(x: Int32, world: World) returns (v: Int32)
    ensures Makes(["x"], SumUp(), [x], world, [Event("f", [v])])
    ensures Congruent(v, if x < 0 then 0 else x * (x - 1) / 2)
  {
    var n := if x < 0 then 0 else x;
    v := Sum32(n);
    SummingRun(x, world, 0x2_0000_0000);
    SumFormula(x);
    SummingScoped();
    RunsAsMeant(["x"], SumUp(), [x], world, 0x2_0000_0000, [Event("f", [v])]);
  }
}
