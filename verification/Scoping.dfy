/** Which names are visible where, read off the text; code generation fails exactly when a name that is read is not. */
module Scoping {
  import opened Wrappers
  import opened Language
  import opened Machine
  import opened Lowering

  /** The names of each scope, innermost first. */
  type Scopes = seq<set<string>>

  predicate Visible(x: string, scopes: Scopes) {
    scopes != [] && (x in scopes[0] || Visible(x, scopes[1..]))
  }

  function Bind(x: string, scopes: Scopes): Scopes {
    if scopes == [] then [] else [scopes[0] + {x}] + scopes[1..]
  }

  predicate ExprScoped(e: Expr, scopes: Scopes) {
    match e
    case Const(_) => true
    case Var(x) => Visible(x, scopes)
    case Bin(_, left, right) => ExprScoped(left, scopes) && ExprScoped(right, scopes)
    case Call(_, args) => ArgsScoped(args, scopes)
  }

  predicate ArgsScoped(es: seq<Expr>, scopes: Scopes) {
    es == [] || (ExprScoped(es[0], scopes) && ArgsScoped(es[1..], scopes))
  }

  predicate CondScoped(c: Cond, scopes: Scopes) {
    c.Compare? ==> ExprScoped(c.left, scopes) && ExprScoped(c.right, scopes)
  }

  /** Every name that the statements read is visible where they read it. */
  predicate BlockScoped(ss: seq<Stmt>, scopes: Scopes) {
    ss == [] || (StmtScoped(ss[0], scopes) && BlockScoped(ss[1..], After(ss[0], scopes)))
  }

  predicate StmtScoped(s: Stmt, scopes: Scopes) {
    match s
    case Eval(e) => ExprScoped(e, scopes)
    case Assign(_, e) => ExprScoped(e, scopes)
    case If(cond, thn, els) => CondScoped(cond, scopes) && BlockScoped(thn, [{}] + scopes) && BlockScoped(els, [{}] + scopes)
    case For(x, start, end, body) => ExprScoped(start, scopes) && ExprScoped(end, scopes) && BlockScoped(body, [{}, {x}] + scopes)
  }

  /** A first assignment binds its name in the current scope, and so does a loop. */
  function After(s: Stmt, scopes: Scopes): Scopes {
    match s
    case Eval(_) => scopes
    case Assign(x, _) => if Visible(x, scopes) then scopes else Bind(x, scopes)
    case If(_, _, _) => scopes
    case For(x, _, _, _) => Bind(x, scopes)
  }

  // ------------------------------------------------------- the generator's view

  function Names(env: Scope<nat>): Scopes {
    match env
    case Root => []
    case Frame(vars, outer) => [vars.Keys] + Names(outer)
  }

  lemma {:induction false} LookupVisible(env: Scope<nat>, x: string)
    ensures Lookup(env, x).Some? <==> Visible(x, Names(env))
  {
    if env.Frame? {
      assert Names(env)[1..] == Names(env.outer);
      LookupVisible(env.outer, x);
    }
  }

  lemma BindNames(env: Scope<nat>, x: string, slot: nat)
    ensures Names(Declare(env, x, slot)) == Names(Leak(env, x, slot)) == Bind(x, Names(env))
  {
    if env.Frame? {
      assert Names(env)[1..] == Names(env.outer);
      assert env.vars[x := slot].Keys == env.vars.Keys + {x};
      assert x in env.vars ==> env.vars.Keys + {x} == env.vars.Keys;
    }
  }

  lemma InnerNames(env: Scope<nat>, x: string, slot: nat)
    ensures Names(Frame(map[], env)) == [{}] + Names(env)
    ensures Names(Frame(map[], Frame(map[x := slot], env))) == [{}, {x}] + Names(env)
  {
    var none: map<string, nat> := map[];
    assert map[x := slot].Keys == {x} && none.Keys == {};
  }

  lemma {:induction false} ExprLowers(e: Expr, env: Scope<nat>, b: IR)
    requires b.Valid()
    ensures LowerExpr(e, env, b).Some? <==> ExprScoped(e, Names(env))
    decreases e, 0
  {
    match e
    case Const(_) =>
    case Var(x) => LookupVisible(env, x);
    case Bin(_, left, right) =>
      ExprLowers(left, env, b);
      var l := LowerExpr(left, env, b);
      if l.Some? {
        ExprLowers(right, env, l.value.b);
      }
    case Call(_, args) =>
      ArgsLower(args, env, b);
      var first := LowerArgs(args, env, b);
      if first.Some? {
        ArgsLower(args, env, first.value.b);
      }
  }

  lemma {:induction false} ArgsLower(es: seq<Expr>, env: Scope<nat>, b: IR)
    requires b.Valid()
    ensures LowerArgs(es, env, b).Some? <==> ArgsScoped(es, Names(env))
    decreases es, 1
  {
    if es != [] {
      ExprLowers(es[0], env, b);
      var v := LowerExpr(es[0], env, b);
      if v.Some? {
        ArgsLower(es[1..], env, v.value.b);
      }
    }
  }

  lemma CondLowers(c: Cond, env: Scope<nat>, b: IR)
    requires b.Valid()
    ensures LowerCond(c, env, b).Some? <==> CondScoped(c, Names(env))
  {
    if c.Compare? {
      ExprLowers(c.left, env, b);
      var l := LowerExpr(c.left, env, b);
      if l.Some? {
        ExprLowers(c.right, env, l.value.b);
      }
    }
  }

  /** Statements are lowered if and only if every name they read is visible. */
  lemma {:induction false} BlockLowers(ss: seq<Stmt>, env: Scope<nat>, b: IR)
    requires b.Valid()
    ensures LowerBlock(ss, env, b).Some? <==> BlockScoped(ss, Names(env))
    decreases ss, 1
  {
    if ss != [] {
      StmtLowers(ss[0], env, b);
      var s := LowerStmt(ss[0], env, b);
      if s.Some? {
        BlockLowers(ss[1..], s.value.env, s.value.b);
      }
    }
  }

  lemma {:induction false} StmtLowers(s: Stmt, env: Scope<nat>, b: IR)
    requires b.Valid()
    ensures LowerStmt(s, env, b).Some? <==> StmtScoped(s, Names(env))
    ensures LowerStmt(s, env, b).Some? ==> Names(LowerStmt(s, env, b).value.env) == After(s, Names(env))
    decreases s, 1
  {
    match s
    case Eval(e) => ExprLowers(e, env, b);
    case Assign(x, e) =>
      ExprLowers(e, env, b);
      LookupVisible(env, x);
      var v := LowerExpr(e, env, b);
      if v.Some? {
        BindNames(env, x, v.value.b.slots);
      }
    case If(_, _, _) => IfLowers(s, env, b);
    case For(_, _, _, _) => ForLowers(s, env, b);
  }

  lemma {:induction false} IfLowers(s: Stmt, env: Scope<nat>, b: IR)
    requires s.If? && b.Valid()
    ensures LowerIf(s, env, b).Some? <==> StmtScoped(s, Names(env))
    ensures LowerIf(s, env, b).Some? ==> LowerIf(s, env, b).value.env == env
    decreases s, 0
  {
    CondLowers(s.cond, env, b);
    InnerNames(env, "", 0);
    var c := LowerCond(s.cond, env, b);
    if c.Some? {
      var n := |c.value.b.blocks|;
      BlockLowers(s.thn, Frame(map[], env), Branch(c.value));
      var t := LowerBlock(s.thn, Frame(map[], env), Branch(c.value));
      if t.Some? {
        BlockLowers(s.els, Frame(map[], env), Join(t.value.b, n + 2, n + 1));
      }
    }
  }

  lemma {:induction false} ForLowers(s: Stmt, env: Scope<nat>, b: IR)
    requires s.For? && b.Valid()
    ensures LowerFor(s, env, b).Some? <==> StmtScoped(s, Names(env))
    ensures LowerFor(s, env, b).Some? ==> Names(LowerFor(s, env, b).value.env) == After(s, Names(env))
    decreases s, 0
  {
    ExprLowers(s.start, env, b);
    var v := LowerExpr(s.start, env, b);
    if v.Some? {
      var n, slot := |v.value.b.blocks|, v.value.b.slots;
      BindNames(env, s.name, slot);
      InnerNames(env, s.name, slot);
      ExprLowers(s.end, env, EnterLoop(v.value));
      var limit := LowerExpr(s.end, env, EnterLoop(v.value));
      if limit.Some? {
        BlockLowers(s.body, Frame(map[], Frame(map[s.name := slot], env)), TestLoop(limit.value, slot, n));
      }
    }
  }

  function Elements(s: seq<string>): set<string> {
    set p | p in s
  }

  lemma {:induction false} ParamNames(params: seq<string>, i: nat, env: Scope<nat>, b: IR)
    requires b.Valid() && i <= |params| && env.Frame? && env.outer.Root?
    ensures Names(LowerParams(params, i, env, b).env) == [env.vars.Keys + Elements(params[i..])]
    decreases |params| - i
  {
    if i < |params| {
      var env' := Declare(env, params[i], b.slots);
      ParamNames(params, i + 1, env', b.Emit(Store(Reg(i), b.slots)).(slots := b.slots + 1));
      assert params[i..] == [params[i]] + params[i + 1..];
      assert Elements(params[i..]) == {params[i]} + Elements(params[i + 1..]);
      assert env'.vars.Keys == env.vars.Keys + {params[i]};
      assert env'.vars.Keys + Elements(params[i + 1..]) == env.vars.Keys + Elements(params[i..]);
    } else {
      assert params[i..] == [];
      assert env.vars.Keys + Elements(params[i..]) == env.vars.Keys;
      assert Names(env) == [env.vars.Keys] + Names(Root);
    }
  }

  /** A function is generated if and only if every name its body reads is visible, the parameters from the start. */
  lemma FunctionLowers(params: seq<string>, body: seq<Stmt>)
    ensures LowerFunction(params, body).Some? <==> BlockScoped(body, [{}, Elements(params)])
  {
    var top: Scope<nat> := Frame(map[], Root);
    var p := LowerParams(params, 0, top, EntryBlock(|params|));
    ParamNames(params, 0, top, EntryBlock(|params|));
    assert params[0..] == params && top.vars.Keys == {};
    assert top.vars.Keys + Elements(params) == Elements(params);
    InnerNames(p.env, "", 0);
    assert [{}] + [Elements(params)] == [{}, Elements(params)];
    BlockLowers(body, Frame(map[], p.env), p.b);
  }
}
