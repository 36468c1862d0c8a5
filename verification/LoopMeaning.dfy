/**
 For loops against the usual reading of one: the limit evaluated once, a loop
 variable that the body may assign, and that nobody sees afterwards.
 */
module LoopMeaning {
  import opened Wrappers
  import opened Language
  import opened ArgumentEvaluation

  /** The rounds of a conventional loop with a fixed limit. */
  function UsualLoop(x: string, limit: Int32, body: seq<Stmt>, cur: Int32,
                     vals: Scope<Int32>, trace: seq<Event>, world: World, fuel: nat): Outcome
    decreases fuel
  {
    if fuel == 0 then OutOfFuel(trace)
    else if cur < limit then
      var o := Leave(ExecBlock(body, Frame(map[], Frame(map[x := cur], vals)), trace, world, fuel - 1));
      if o.Done? && o.vals.Frame? && x in o.vals.vars
      then UsualLoop(x, limit, body, Wrap32(o.vals.vars[x] as int + 1), o.vals.outer, o.trace, world, fuel - 1)
      else if o.Done? then Stuck
      else o
    else Done(vals, trace)
  }

  function UsualFor(s: Stmt, vals: Scope<Int32>, trace: seq<Event>, world: World, fuel: nat): Outcome
    requires s.For?
  {
    var v := EvalExpr(s.start, vals, trace, world);
    if v.None? then Stuck
    else if fuel == 0 then OutOfFuel(v.value.trace)
    else
      var limit := EvalExpr(s.end, vals, v.value.trace, world);
      if limit.None? then Stuck
      else UsualLoop(s.name, limit.value.v, s.body, v.value.v, vals, limit.value.trace, world, fuel)
  }

  // ------------------------------------------------------------ names in code

  function Reads(e: Expr): set<string> {
    match e
    case Const(_) => {}
    case Var(x) => {x}
    case Bin(_, left, right) => Reads(left) + Reads(right)
    case Call(_, args) => ReadsAll(args)
  }

  function ReadsAll(es: seq<Expr>): set<string> {
    if es == [] then {} else Reads(es[0]) + ReadsAll(es[1..])
  }

  /** The names that the statements assign to, however deeply nested. */
  function Assigned(ss: seq<Stmt>): set<string> {
    if ss == [] then {} else AssignedBy(ss[0]) + Assigned(ss[1..])
  }

  function AssignedBy(s: Stmt): set<string> {
    match s
    case Eval(_) => {}
    case Assign(x, _) => {x}
    case If(_, thn, els) => Assigned(thn) + Assigned(els)
    case For(_, _, _, body) => Assigned(body)
  }

  /** What evaluating the limit once asks of the text of a loop. */
  predicate FixedLimit(s: Stmt)
    requires s.For?
  {
    CallFree(s.end) && Reads(s.end) !! Assigned(s.body)
  }

  // -------------------------------------------- what running a block may change

  /** The same variables, and only those in `names` may have other values. */
  ghost predicate Evolved(names: set<string>, s: Scope<Int32>, s': Scope<Int32>) {
    match s
    case Root => s' == Root
    case Frame(vars, outer) =>
      && s'.Frame? && s'.vars.Keys == vars.Keys && Evolved(names, outer, s'.outer)
      && forall y | y in vars && y !in names :: s'.vars[y] == vars[y]
  }

  /** The same, but for new variables in the innermost scope. */
  ghost predicate Grown(names: set<string>, s: Scope<Int32>, s': Scope<Int32>) {
    match s
    case Root => s' == Root
    case Frame(vars, outer) =>
      && s'.Frame? && vars.Keys <= s'.vars.Keys && Evolved(names, outer, s'.outer)
      && forall y | y in vars && y !in names :: s'.vars[y] == vars[y]
  }

  lemma {:induction false} EvolvedSame(names: set<string>, s: Scope<Int32>)
    ensures Evolved(names, s, s) && Grown(names, s, s)
  {
    if s.Frame? {
      EvolvedSame(names, s.outer);
    }
  }

  lemma {:induction false} EvolvedTrans(a: set<string>, b: set<string>, s: Scope<Int32>, s': Scope<Int32>, s'': Scope<Int32>)
    requires Evolved(a, s, s') && Evolved(b, s', s'')
    ensures Evolved(a + b, s, s'')
  {
    if s.Frame? {
      EvolvedTrans(a, b, s.outer, s'.outer, s''.outer);
    }
  }

  lemma GrownTrans(a: set<string>, b: set<string>, s: Scope<Int32>, s': Scope<Int32>, s'': Scope<Int32>)
    requires Grown(a, s, s') && Grown(b, s', s'')
    ensures Grown(a + b, s, s'')
  {
    if s.Frame? {
      EvolvedTrans(a, b, s.outer, s'.outer, s''.outer);
    }
  }

  lemma {:induction false} UpdateEvolves(s: Scope<Int32>, x: string, v: Int32)
    ensures Evolved({x}, s, Update(s, x, v)) && Grown({x}, s, Update(s, x, v))
  {
    if s.Frame? {
      EvolvedSame({x}, s.outer);
      UpdateEvolves(s.outer, x, v);
    }
  }

  lemma DeclareGrows(s: Scope<Int32>, x: string, v: Int32)
    ensures Grown({x}, s, Declare(s, x, v))
    ensures Grown({}, s, Leak(s, x, v))
  {
    EvolvedSame({x}, s);
    EvolvedSame({}, s);
    if s.Frame? {
      EvolvedSame({x}, s.outer);
      EvolvedSame({}, s.outer);
    }
  }

  lemma {:induction false} EvolvedMore(a: set<string>, b: set<string>, s: Scope<Int32>, s': Scope<Int32>)
    requires a <= b
    ensures Evolved(a, s, s') ==> Evolved(b, s, s')
    ensures Grown(a, s, s') ==> Grown(b, s, s')
  {
    if s.Frame? && s'.Frame? {
      EvolvedMore(a, b, s.outer, s'.outer);
    }
  }

  lemma {:induction false} LookupEvolved(names: set<string>, s: Scope<Int32>, s': Scope<Int32>, x: string)
    requires Evolved(names, s, s') && x !in names
    ensures Lookup(s', x) == Lookup(s, x)
  {
    if s.Frame? && x !in s.vars {
      LookupEvolved(names, s.outer, s'.outer, x);
    }
  }

  /** An expression without calls that reads none of the names keeps its value. */
  lemma {:induction false} ValueEvolved(names: set<string>, s: Scope<Int32>, s': Scope<Int32>, e: Expr,
                                        trace: seq<Event>, trace': seq<Event>, world: World)
    requires Evolved(names, s, s') && CallFree(e) && Reads(e) !! names
    ensures var v, v' := EvalExpr(e, s, trace, world), EvalExpr(e, s', trace', world);
            && (v.None? <==> v'.None?)
            && (v.Some? ==> v.value.trace == trace && v'.value == Value(v.value.v, trace'))
  {
    match e
    case Const(_) =>
    case Var(x) => LookupEvolved(names, s, s', x);
    case Bin(_, left, right) =>
      ValueEvolved(names, s, s', left, trace, trace', world);
      ValueEvolved(names, s, s', right, trace, trace', world);
  }

  lemma {:induction false} BlockGrown(ss: seq<Stmt>, vals: Scope<Int32>, trace: seq<Event>, world: World, fuel: nat)
    ensures var o := ExecBlock(ss, vals, trace, world, fuel); o.Done? ==> Grown(Assigned(ss), vals, o.vals)
    decreases fuel, ss, 0
  {
    if ss == [] {
      EvolvedSame({}, vals);
    } else {
      StmtGrown(ss[0], vals, trace, world, fuel);
      var o := ExecStmt(ss[0], vals, trace, world, fuel);
      if o.Done? {
        BlockGrown(ss[1..], o.vals, o.trace, world, fuel);
        var r := ExecBlock(ss[1..], o.vals, o.trace, world, fuel);
        if r.Done? {
          GrownTrans(AssignedBy(ss[0]), Assigned(ss[1..]), vals, o.vals, r.vals);
        }
      }
    }
  }

  lemma {:induction false} StmtGrown(s: Stmt, vals: Scope<Int32>, trace: seq<Event>, world: World, fuel: nat)
    ensures var o := ExecStmt(s, vals, trace, world, fuel); o.Done? ==> Grown(AssignedBy(s), vals, o.vals)
    decreases fuel, s, 0
  {
    match s
    case Eval(_) => EvolvedSame({}, vals);
    case Assign(x, e) =>
      var v := EvalExpr(e, vals, trace, world);
      if v.Some? {
        UpdateEvolves(vals, x, v.value.v);
        DeclareGrows(vals, x, v.value.v);
      }
    case If(cond, thn, els) =>
      var c := EvalCond(cond, vals, trace, world);
      if c.Some? {
        var ss := if c.value.v then thn else els;
        BlockGrown(ss, Frame(map[], vals), c.value.trace, world, fuel);
        var o := ExecBlock(ss, Frame(map[], vals), c.value.trace, world, fuel);
        if o.Done? {
          EvolvedMore(Assigned(ss), AssignedBy(s), vals, o.vals.outer);
          EvolvedGrown(AssignedBy(s), vals, o.vals.outer);
        }
      }
    case For(x, start, end, body) =>
      var v := EvalExpr(start, vals, trace, world);
      if v.Some? {
        LoopGrown(x, end, body, v.value.v, vals, v.value.trace, world, fuel);
      }
  }

  lemma EvolvedGrown(names: set<string>, s: Scope<Int32>, s': Scope<Int32>)
    requires Evolved(names, s, s')
    ensures Grown(names, s, s')
  {
  }

  lemma {:induction false} LoopGrown(x: string, end: Expr, body: seq<Stmt>, cur: Int32,
                                     vals: Scope<Int32>, trace: seq<Event>, world: World, fuel: nat)
    ensures var o := ExecLoop(x, end, body, cur, vals, trace, world, fuel); o.Done? ==> Grown(Assigned(body), vals, o.vals)
    decreases fuel, body, 1
  {
    if fuel > 0 {
      var limit := EvalExpr(end, vals, trace, world);
      if limit.Some? && cur < limit.value.v {
        RoundEvolved(x, body, cur, vals, limit.value.trace, world, fuel - 1);
        var o := Leave(Leave(ExecBlock(body, Frame(map[], Frame(map[x := cur], vals)), limit.value.trace, world, fuel - 1)));
        if o.Done? {
          LoopGrown(x, end, body, Wrap32(cur + 1), o.vals, o.trace, world, fuel - 1);
          var r := ExecLoop(x, end, body, Wrap32(cur + 1), o.vals, o.trace, world, fuel - 1);
          if r.Done? {
            EvolvedGrown(Assigned(body), vals, o.vals);
            GrownTrans(Assigned(body), Assigned(body), vals, o.vals, r.vals);
            assert Assigned(body) + Assigned(body) == Assigned(body);
          }
        }
      } else if limit.Some? {
        DeclareGrows(vals, x, cur);
        EvolvedMore({}, Assigned(body), vals, Leak(vals, x, cur));
      }
    }
  }

  /** One round leaves the loop variable's own scope in place, and the variable alone unless the body assigns it. */
  lemma {:induction false} RoundEvolved(x: string, body: seq<Stmt>, cur: Int32,
                                        vals: Scope<Int32>, trace: seq<Event>, world: World, fuel: nat)
    ensures var o := Leave(ExecBlock(body, Frame(map[], Frame(map[x := cur], vals)), trace, world, fuel));
            o.Done? ==>
              && o.vals.Frame? && o.vals.vars.Keys == {x} && Evolved(Assigned(body), vals, o.vals.outer)
              && (x !in Assigned(body) ==> o.vals.vars[x] == cur)
    decreases fuel, body, 1
  {
    BlockGrown(body, Frame(map[], Frame(map[x := cur], vals)), trace, world, fuel);
  }

  // ------------------------------------------------------- the two readings

  /**
   When the limit is fixed and the body leaves the loop variable alone, the
   loop does what the usual one does, except that its variable stays behind.
   */
  lemma {:induction false} LoopAsUsual(x: string, end: Expr, body: seq<Stmt>, limit: Int32, cur: Int32,
                                       vals: Scope<Int32>, trace: seq<Event>, world: World, fuel: nat)
    returns (last: Int32)
    requires CallFree(end) && Reads(end) !! Assigned(body) && x !in Assigned(body)
    requires EvalExpr(end, vals, trace, world) == Some(Value(limit, trace))
    ensures var usual := UsualLoop(x, limit, body, cur, vals, trace, world, fuel);
            && ExecLoop(x, end, body, cur, vals, trace, world, fuel)
               == (if usual.Done? then Done(Leak(usual.vals, x, last), usual.trace) else usual)
            && (usual.Done? ==> last >= limit && Evolved(Assigned(body), vals, usual.vals))
    decreases fuel
  {
    last := cur;
    if fuel > 0 && cur < limit {
      RoundEvolved(x, body, cur, vals, trace, world, fuel - 1);
      var o := Leave(ExecBlock(body, Frame(map[], Frame(map[x := cur], vals)), trace, world, fuel - 1));
      if o.Done? {
        ValueEvolved(Assigned(body), vals, o.vals.outer, end, trace, o.trace, world);
        last := LoopAsUsual(x, end, body, limit, Wrap32(cur + 1), o.vals.outer, o.trace, world, fuel - 1);
        var usual := UsualLoop(x, limit, body, Wrap32(cur + 1), o.vals.outer, o.trace, world, fuel - 1);
        if usual.Done? {
          EvolvedTrans(Assigned(body), Assigned(body), vals, o.vals.outer, usual.vals);
          assert Assigned(body) + Assigned(body) == Assigned(body);
        }
      }
    } else if fuel > 0 {
      EvolvedSame(Assigned(body), vals);
    }
  }

  lemma LeakSame(x: string, vals: Scope<Int32>, last: Int32)
    ensures Leak(vals, x, last) == vals <==> vals.Root? || x in vals.vars
  {
    if vals.Frame? && x !in vals.vars {
      assert x in Leak(vals, x, last).vars;
    }
  }

  /** A for statement with a fixed limit and an unassigned variable, against the usual one. */
  lemma ForLeaks(s: Stmt, vals: Scope<Int32>, trace: seq<Event>, world: World, fuel: nat) returns (last: Int32)
    requires s.For? && FixedLimit(s) && s.name !in Assigned(s.body)
    ensures var usual, here := UsualFor(s, vals, trace, world, fuel), ExecStmt(s, vals, trace, world, fuel);
            if usual.Done? then here == Done(Leak(usual.vals, s.name, last), usual.trace) && Evolved(Assigned(s.body), vals, usual.vals)
            else here == usual
  {
    var v := EvalExpr(s.start, vals, trace, world);
    last := 0;
    if v.Some? && fuel > 0 {
      EvolvedSame({}, vals);
      ValueEvolved({}, vals, vals, s.end, v.value.trace, v.value.trace, world);
      var limit := EvalExpr(s.end, vals, v.value.trace, world);
      if limit.Some? {
        last := LoopAsUsual(s.name, s.end, s.body, limit.value.v, v.value.v, vals, v.value.trace, world, fuel);
      }
    }
  }

  /** Such a statement does exactly what the usual one does, if and only if the scope around it binds the name already. */
  lemma LeakShows(s: Stmt, vals: Scope<Int32>, trace: seq<Event>, world: World, fuel: nat)
    requires s.For? && FixedLimit(s) && s.name !in Assigned(s.body)
    ensures var usual := UsualFor(s, vals, trace, world, fuel);
            ExecStmt(s, vals, trace, world, fuel) == usual <==> !usual.Done? || vals.Root? || s.name in vals.vars
  {
    var last := ForLeaks(s, vals, trace, world, fuel);
    var usual := UsualFor(s, vals, trace, world, fuel);
    if usual.Done? {
      LeakSame(s.name, usual.vals, last);
    }
  }

  // ----------------------------------------------- what comes after the loop

  function Mentions(ss: seq<Stmt>): set<string> {
    if ss == [] then {} else MentionsOf(ss[0]) + Mentions(ss[1..])
  }

  function MentionsOf(s: Stmt): set<string> {
    match s
    case Eval(e) => Reads(e)
    case Assign(x, e) => {x} + Reads(e)
    case If(cond, thn, els) => CondReads(cond) + Mentions(thn) + Mentions(els)
    case For(x, start, end, body) => {x} + Reads(start) + Reads(end) + Mentions(body)
  }

  function CondReads(c: Cond): set<string> {
    match c
    case Literal(_) => {}
    case Compare(_, left, right) => Reads(left) + Reads(right)
  }

  /** The same scopes, but for `x`. */
  ghost predicate Except(x: string, s: Scope<Int32>, s': Scope<Int32>) {
    match s
    case Root => s' == Root
    case Frame(vars, outer) => s'.Frame? && s'.vars - {x} == vars - {x} && Except(x, outer, s'.outer)
  }

  lemma {:induction false} ExceptSame(x: string, s: Scope<Int32>)
    ensures Except(x, s, s)
  {
    if s.Frame? {
      ExceptSame(x, s.outer);
    }
  }

  lemma SameVar(x: string, y: string, a: map<string, Int32>, b: map<string, Int32>)
    requires a - {x} == b - {x} && y != x
    ensures (y in a <==> y in b) && (y in a ==> a[y] == b[y])
  {
    assert y in a <==> y in a - {x};
    assert y in b <==> y in b - {x};
    assert y in a ==> (a - {x})[y] == a[y];
    assert y in b ==> (b - {x})[y] == b[y];
  }

  lemma {:induction false} LookupExcept(x: string, y: string, s: Scope<Int32>, s': Scope<Int32>)
    requires Except(x, s, s') && y != x
    ensures Lookup(s', y) == Lookup(s, y)
  {
    if s.Frame? {
      SameVar(x, y, s.vars, s'.vars);
      LookupExcept(x, y, s.outer, s'.outer);
    }
  }

  lemma {:induction false} UpdateExcept(x: string, y: string, v: Int32, s: Scope<Int32>, s': Scope<Int32>)
    requires Except(x, s, s') && y != x
    ensures Except(x, Update(s, y, v), Update(s', y, v))
  {
    if s.Frame? {
      SameVar(x, y, s.vars, s'.vars);
      assert s.vars[y := v] - {x} == (s.vars - {x})[y := v];
      assert s'.vars[y := v] - {x} == (s'.vars - {x})[y := v];
      UpdateExcept(x, y, v, s.outer, s'.outer);
    }
  }

  lemma DeclareExcept(x: string, y: string, v: Int32, s: Scope<Int32>, s': Scope<Int32>)
    requires Except(x, s, s') && y != x
    ensures Except(x, Declare(s, y, v), Declare(s', y, v)) && Except(x, Leak(s, y, v), Leak(s', y, v))
  {
    if s.Frame? {
      SameVar(x, y, s.vars, s'.vars);
      assert s.vars[y := v] - {x} == (s.vars - {x})[y := v];
      assert s'.vars[y := v] - {x} == (s'.vars - {x})[y := v];
    }
  }

  lemma LeakExcept(x: string, v: Int32, s: Scope<Int32>)
    ensures Except(x, s, Leak(s, x, v))
  {
    ExceptSame(x, s);
    if s.Frame? {
      ExceptSame(x, s.outer);
      assert s.vars[x := v] - {x} == s.vars - {x};
    }
  }

  lemma {:induction false} ExprExcept(x: string, s: Scope<Int32>, s': Scope<Int32>, e: Expr, trace: seq<Event>, world: World)
    requires Except(x, s, s') && x !in Reads(e)
    ensures EvalExpr(e, s', trace, world) == EvalExpr(e, s, trace, world)
  {
    match e
    case Const(_) =>
    case Var(y) => LookupExcept(x, y, s, s');
    case Bin(_, left, right) =>
      ExprExcept(x, s, s', left, trace, world);
      var l := EvalExpr(left, s, trace, world);
      if l.Some? {
        ExprExcept(x, s, s', right, l.value.trace, world);
      }
    case Call(_, args) =>
      ArgsExcept(x, s, s', args, trace, world);
      var first := EvalArgs(args, s, trace, world);
      if first.Some? {
        ArgsExcept(x, s, s', args, first.value.trace, world);
      }
  }

  lemma {:induction false} ArgsExcept(x: string, s: Scope<Int32>, s': Scope<Int32>, es: seq<Expr>, trace: seq<Event>, world: World)
    requires Except(x, s, s') && x !in ReadsAll(es)
    ensures EvalArgs(es, s', trace, world) == EvalArgs(es, s, trace, world)
  {
    if es != [] {
      ExprExcept(x, s, s', es[0], trace, world);
      var v := EvalExpr(es[0], s, trace, world);
      if v.Some? {
        ArgsExcept(x, s, s', es[1..], v.value.trace, world);
      }
    }
  }

  lemma CondExcept(x: string, s: Scope<Int32>, s': Scope<Int32>, c: Cond, trace: seq<Event>, world: World)
    requires Except(x, s, s') && x !in CondReads(c)
    ensures EvalCond(c, s', trace, world) == EvalCond(c, s, trace, world)
  {
    if c.Compare? {
      ExprExcept(x, s, s', c.left, trace, world);
      var l := EvalExpr(c.left, s, trace, world);
      if l.Some? {
        ExprExcept(x, s, s', c.right, l.value.trace, world);
      }
    }
  }

  /** The same outcome as far as anyone can tell who does not look at `x`. */
  ghost predicate SameBut(x: string, o: Outcome, o': Outcome) {
    match o
    case Done(vals, trace) => o'.Done? && o'.trace == trace && Except(x, vals, o'.vals)
    case OutOfFuel(trace) => o' == o
    case Stuck => o' == o
  }

  lemma LeaveExcept(x: string, o: Outcome, o': Outcome)
    requires SameBut(x, o, o')
    ensures SameBut(x, Leave(o), Leave(o'))
  {
  }

  lemma {:induction false} BlockExcept(x: string, ss: seq<Stmt>, s: Scope<Int32>, s': Scope<Int32>, trace: seq<Event>, world: World, fuel: nat)
    requires Except(x, s, s') && x !in Mentions(ss)
    ensures SameBut(x, ExecBlock(ss, s, trace, world, fuel), ExecBlock(ss, s', trace, world, fuel))
    decreases fuel, ss, 0
  {
    if ss != [] {
      StmtExcept(x, ss[0], s, s', trace, world, fuel);
      var o, o' := ExecStmt(ss[0], s, trace, world, fuel), ExecStmt(ss[0], s', trace, world, fuel);
      if o.Done? {
        BlockExcept(x, ss[1..], o.vals, o'.vals, o.trace, world, fuel);
      }
    }
  }

  lemma {:induction false} StmtExcept(x: string, st: Stmt, s: Scope<Int32>, s': Scope<Int32>, trace: seq<Event>, world: World, fuel: nat)
    requires Except(x, s, s') && x !in MentionsOf(st)
    ensures SameBut(x, ExecStmt(st, s, trace, world, fuel), ExecStmt(st, s', trace, world, fuel))
    decreases fuel, st, 0
  {
    match st
    case Eval(e) => ExprExcept(x, s, s', e, trace, world);
    case Assign(y, e) =>
      ExprExcept(x, s, s', e, trace, world);
      LookupExcept(x, y, s, s');
      var v := EvalExpr(e, s, trace, world);
      if v.Some? {
        UpdateExcept(x, y, v.value.v, s, s');
        DeclareExcept(x, y, v.value.v, s, s');
      }
    case If(cond, thn, els) =>
      CondExcept(x, s, s', cond, trace, world);
      var c := EvalCond(cond, s, trace, world);
      if c.Some? {
        BlockExcept(x, if c.value.v then thn else els, Frame(map[], s), Frame(map[], s'), c.value.trace, world, fuel);
      }
    case For(y, start, end, body) =>
      ExprExcept(x, s, s', start, trace, world);
      var v := EvalExpr(start, s, trace, world);
      if v.Some? {
        LoopExcept(x, y, end, body, v.value.v, s, s', v.value.trace, world, fuel);
      }
  }

  lemma {:induction false} LoopExcept(x: string, y: string, end: Expr, body: seq<Stmt>, cur: Int32,
                                      s: Scope<Int32>, s': Scope<Int32>, trace: seq<Event>, world: World, fuel: nat)
    requires Except(x, s, s') && y != x && x !in Reads(end) && x !in Mentions(body)
    ensures SameBut(x, ExecLoop(y, end, body, cur, s, trace, world, fuel), ExecLoop(y, end, body, cur, s', trace, world, fuel))
    decreases fuel, body, 1
  {
    if fuel > 0 {
      ExprExcept(x, s, s', end, trace, world);
      var limit := EvalExpr(end, s, trace, world);
      if limit.Some? && cur < limit.value.v {
        var inner, inner' := Frame(map[], Frame(map[y := cur], s)), Frame(map[], Frame(map[y := cur], s'));
        BlockExcept(x, body, inner, inner', limit.value.trace, world, fuel - 1);
        var round := ExecBlock(body, inner, limit.value.trace, world, fuel - 1);
        var round' := ExecBlock(body, inner', limit.value.trace, world, fuel - 1);
        LeaveExcept(x, round, round');
        LeaveExcept(x, Leave(round), Leave(round'));
        var o, o' := Leave(Leave(round)), Leave(Leave(round'));
        if o.Done? {
          LoopExcept(x, y, end, body, Wrap32(cur + 1), o.vals, o'.vals, o.trace, world, fuel - 1);
        }
      } else if limit.Some? {
        DeclareExcept(x, y, cur, s, s');
      }
    }
  }

  /**
   A loop and the statements after it do what the usual loop and they do, if
   the text fixes the limit, does not assign the loop variable in the body and
   does not mention it afterwards.
   */
  lemma ForAsUsual(s: Stmt, rest: seq<Stmt>, vals: Scope<Int32>, trace: seq<Event>, world: World, fuel: nat)
    requires s.For? && FixedLimit(s) && s.name !in Assigned(s.body) && s.name !in Mentions(rest)
    ensures var usual := UsualFor(s, vals, trace, world, fuel);
            SameBut(s.name, if usual.Done? then ExecBlock(rest, usual.vals, usual.trace, world, fuel) else usual,
                    ExecBlock([s] + rest, vals, trace, world, fuel))
  {
    var o := ExecStmt(s, vals, trace, world, fuel);
    assert ([s] + rest)[0] == s && ([s] + rest)[1..] == rest;
    assert ExecBlock([s] + rest, vals, trace, world, fuel) == if o.Done? then ExecBlock(rest, o.vals, o.trace, world, fuel) else o;
    var last := ForLeaks(s, vals, trace, world, fuel);
    var usual := UsualFor(s, vals, trace, world, fuel);
    if usual.Done? {
      LeakExcept(s.name, last, usual.vals);
      BlockExcept(s.name, rest, usual.vals, Leak(usual.vals, s.name, last), usual.trace, world, fuel);
    }
  }

  // ------------------------------------------------- where the readings differ

  lemma OneAssignment(x: string, e: Expr, v: Int32, vals: Scope<Int32>, trace: seq<Event>, world: World, fuel: nat)
    requires EvalExpr(e, vals, trace, world) == Some(Value(v, trace)) && Lookup(vals, x).Some?
    ensures ExecBlock([Assign(x, e)], vals, trace, world, fuel) == Done(Update(vals, x, v), trace)
  {
    assert [Assign(x, e)][0] == Assign(x, e) && [Assign(x, e)][1..] == [];
    assert ExecStmt(Assign(x, e), vals, trace, world, fuel) == Done(Update(vals, x, v), trace);
  }

  /** One round of the usual loop. */
  lemma UsualRound(x: string, limit: Int32, body: seq<Stmt>, cur: Int32, vals: Scope<Int32>, trace: seq<Event>, world: World, fuel: nat,
                   last: Int32, vals': Scope<Int32>, trace': seq<Event>)
    requires fuel > 0 && cur < limit
    requires ExecBlock(body, Frame(map[], Frame(map[x := cur], vals)), trace, world, fuel - 1) == Done(Frame(map[], Frame(map[x := last], vals')), trace')
    ensures UsualLoop(x, limit, body, cur, vals, trace, world, fuel) == UsualLoop(x, limit, body, Wrap32(last + 1), vals', trace', world, fuel - 1)
  {
  }

  lemma UsualEnd(x: string, limit: Int32, body: seq<Stmt>, cur: Int32, vals: Scope<Int32>, trace: seq<Event>, world: World, fuel: nat)
    requires fuel > 0 && cur >= limit
    ensures UsualLoop(x, limit, body, cur, vals, trace, world, fuel) == Done(vals, trace)
  {
  }

  /** One round of the loop as it is. */
  lemma ExecRound(x: string, end: Expr, body: seq<Stmt>, cur: Int32, vals: Scope<Int32>, trace: seq<Event>, world: World, fuel: nat,
                  last: Int32, vals': Scope<Int32>, trace': seq<Event>)
    requires fuel > 0 && EvalExpr(end, vals, trace, world).Some? && cur < EvalExpr(end, vals, trace, world).value.v
    requires ExecBlock(body, Frame(map[], Frame(map[x := cur], vals)), EvalExpr(end, vals, trace, world).value.trace, world, fuel - 1)
          == Done(Frame(map[], Frame(map[x := last], vals')), trace')
    ensures ExecLoop(x, end, body, cur, vals, trace, world, fuel) == ExecLoop(x, end, body, Wrap32(cur + 1), vals', trace', world, fuel - 1)
  {
  }

  lemma ExecEnd(x: string, end: Expr, body: seq<Stmt>, cur: Int32, vals: Scope<Int32>, trace: seq<Event>, world: World, fuel: nat)
    requires fuel > 0 && EvalExpr(end, vals, trace, world).Some? && cur >= EvalExpr(end, vals, trace, world).value.v
    ensures ExecLoop(x, end, body, cur, vals, trace, world, fuel) == Done(Leak(vals, x, cur), EvalExpr(end, vals, trace, world).value.trace)
  {
  }

  /** `n` on its own. */
  function Counter(n: Int32): Scope<Int32> {
    Frame(map["n" := n], Root)
  }

  lemma LeakBeside(n: Int32, i: Int32)
    ensures Leak(Counter(n), "i", i) == Frame(map["n" := n, "i" := i], Root)
  {
    assert Leak(Counter(n), "i", i).vars == map["n" := n, "i" := i];
  }

  function ShrinkLimit(): seq<Stmt> {
    [Assign("n", Bin(Minus, Var("n"), Const(1)))]
  }

  lemma ShrinkUsual(i: Int32, n: Int32, world: World, fuel: nat)
    requires fuel > 0 && 0 <= i < 2 && 0 < n < 10
    ensures UsualLoop("i", 2, ShrinkLimit(), i, Counter(n), [], world, fuel)
         == UsualLoop("i", 2, ShrinkLimit(), i + 1, Counter(n - 1), [], world, fuel - 1)
  {
    CountDown(i, n, world, fuel - 1);
    assert Wrap32(i + 1) == i + 1;
    UsualRound("i", 2, ShrinkLimit(), i, Counter(n), [], world, fuel, i, Counter(n - 1), []);
  }

  lemma ShrinkHere(i: Int32, n: Int32, world: World, fuel: nat)
    requires fuel > 0 && 0 <= i < n < 10
    ensures ExecLoop("i", Var("n"), ShrinkLimit(), i, Counter(n), [], world, fuel)
         == ExecLoop("i", Var("n"), ShrinkLimit(), i + 1, Counter(n - 1), [], world, fuel - 1)
  {
    CountDown(i, n, world, fuel - 1);
    assert Wrap32(i + 1) == i + 1;
    ReadCounter(n, world);
    ExecRound("i", Var("n"), ShrinkLimit(), i, Counter(n), [], world, fuel, i, Counter(n - 1), []);
  }

  lemma ReadCounter(n: Int32, world: World)
    ensures EvalExpr(Var("n"), Counter(n), [], world) == Some(Value(n, []))
  {
    assert Lookup(Counter(n), "n") == Some(n);
  }

  /** `for i : 0..n { n = n - 1 }` from n = 2 leaves n = 1; the usual loop leaves n = 0. */
  lemma LimitReread(world: World, fuel: nat)
    requires fuel >= 3
    ensures UsualLoop("i", 2, ShrinkLimit(), 0, Counter(2), [], world, fuel) == Done(Counter(0), [])
    ensures ExecLoop("i", Var("n"), ShrinkLimit(), 0, Counter(2), [], world, fuel) == Done(Frame(map["n" := 1, "i" := 1], Root), [])
  {
    ShrinkUsual(0, 2, world, fuel);
    ShrinkUsual(1, 1, world, fuel - 1);
    UsualEnd("i", 2, ShrinkLimit(), 2, Counter(0), [], world, fuel - 2);
    ShrinkHere(0, 2, world, fuel);
    ReadCounter(1, world);
    ExecEnd("i", Var("n"), ShrinkLimit(), 1, Counter(1), [], world, fuel - 1);
    LeakBeside(1, 1);
  }

  lemma CountDown(cur: Int32, n: Int32, world: World, fuel: nat)
    requires 0 < n < 10
    ensures var inner: Scope<Int32> := Frame(map[], Frame(map["i" := cur], Frame(map["n" := n], Root)));
            ExecBlock(ShrinkLimit(), inner, [], world, fuel)
            == Done(Frame(map[], Frame(map["i" := cur], Frame(map["n" := n - 1], Root))), [])
  {
    var vals: Scope<Int32> := Frame(map["n" := n], Root);
    var middle: Scope<Int32> := Frame(map["i" := cur], vals);
    var inner: Scope<Int32> := Frame(map[], middle);
    var e := Bin(Minus, Var("n"), Const(1));
    assert Lookup(vals, "n") == Some(n) && Lookup(middle, "n") == Some(n) && Lookup(inner, "n") == Some(n);
    assert Wrap32(n - 1) == n - 1;
    assert EvalExpr(Var("n"), inner, [], world) == Some(Value(n, []));
    assert EvalExpr(Const(1), inner, [], world) == Some(Value(1 as Int32, []));
    assert Arith(Minus, n, 1) == n - 1;
    OneAssignment("n", e, n - 1, inner, [], world, fuel);
    assert map["n" := n]["n" := n - 1] == map["n" := n - 1];
    assert Update(vals, "n", n - 1) == Frame(map["n" := n - 1], Root);
    assert Update(middle, "n", n - 1) == Frame(map["i" := cur], Update(vals, "n", n - 1));
    assert Update(inner, "n", n - 1) == Frame(map[], Update(middle, "n", n - 1));
  }

  /** `n` is counted up, and the loop variable moved beyond any limit of the loop. */
  function LeaveEarly(): seq<Stmt> {
    [Assign("n", Bin(Plus, Var("n"), Const(1))), Assign("i", Const(5))]
  }

  lemma LeaveHere(i: Int32, n: Int32, world: World, fuel: nat)
    requires fuel > 0 && 0 <= i < 2 && 0 <= n < 10
    ensures ExecLoop("i", Const(2), LeaveEarly(), i, Counter(n), [], world, fuel)
         == ExecLoop("i", Const(2), LeaveEarly(), i + 1, Counter(n + 1), [], world, fuel - 1)
  {
    CountUp(i, n, world, fuel - 1);
    assert Wrap32(i + 1) == i + 1;
    ExecRound("i", Const(2), LeaveEarly(), i, Counter(n), [], world, fuel, 5, Counter(n + 1), []);
  }

  lemma LeaveUsual(i: Int32, n: Int32, world: World, fuel: nat)
    requires fuel > 0 && 0 <= i < 2 && 0 <= n < 10
    ensures UsualLoop("i", 2, LeaveEarly(), i, Counter(n), [], world, fuel)
         == UsualLoop("i", 2, LeaveEarly(), 6, Counter(n + 1), [], world, fuel - 1)
  {
    CountUp(i, n, world, fuel - 1);
    assert Wrap32(5 + 1) == 6;
    UsualRound("i", 2, LeaveEarly(), i, Counter(n), [], world, fuel, 5, Counter(n + 1), []);
  }

  /**
   `for i : 0..2 { n = n + 1  i = 5 }` from n = 0 leaves n = 2, since the
   assignment to `i` is lost and there is a second round; the usual loop ends
   after one round and leaves n = 1.
   */
  lemma VariableReset(world: World, fuel: nat)
    requires fuel >= 3
    ensures UsualLoop("i", 2, LeaveEarly(), 0, Counter(0), [], world, fuel) == Done(Counter(1), [])
    ensures ExecLoop("i", Const(2), LeaveEarly(), 0, Counter(0), [], world, fuel) == Done(Frame(map["n" := 2, "i" := 2], Root), [])
  {
    LeaveUsual(0, 0, world, fuel);
    UsualEnd("i", 2, LeaveEarly(), 6, Counter(1), [], world, fuel - 1);
    LeaveHere(0, 0, world, fuel);
    LeaveHere(1, 1, world, fuel - 1);
    ExecEnd("i", Const(2), LeaveEarly(), 2, Counter(2), [], world, fuel - 2);
    LeakBeside(2, 2);
  }

  lemma CountUp(cur: Int32, n: Int32, world: World, fuel: nat)
    requires 0 <= n < 10
    ensures var inner: Scope<Int32> := Frame(map[], Frame(map["i" := cur], Frame(map["n" := n], Root)));
            ExecBlock(LeaveEarly(), inner, [], world, fuel) == Done(Frame(map[], Frame(map["i" := 5], Frame(map["n" := n + 1], Root))), [])
  {
    var inner: Scope<Int32> := Frame(map[], Frame(map["i" := cur], Frame(map["n" := n], Root)));
    var next: Scope<Int32> := Frame(map[], Frame(map["i" := cur], Frame(map["n" := n + 1], Root)));
    AddOne(cur, n, world, fuel);
    SetVariable(cur, n + 1, world, fuel);
    assert LeaveEarly()[0] == Assign("n", Bin(Plus, Var("n"), Const(1))) && LeaveEarly()[1..] == [Assign("i", Const(5))];
    assert ExecStmt(LeaveEarly()[0], inner, [], world, fuel) == Done(next, []);
  }

  lemma AddOne(cur: Int32, n: Int32, world: World, fuel: nat)
    requires 0 <= n < 10
    ensures var inner: Scope<Int32> := Frame(map[], Frame(map["i" := cur], Frame(map["n" := n], Root)));
            ExecStmt(Assign("n", Bin(Plus, Var("n"), Const(1))), inner, [], world, fuel)
            == Done(Frame(map[], Frame(map["i" := cur], Frame(map["n" := n + 1], Root))), [])
  {
    var vals: Scope<Int32> := Frame(map["n" := n], Root);
    var middle: Scope<Int32> := Frame(map["i" := cur], vals);
    var inner: Scope<Int32> := Frame(map[], middle);
    assert Lookup(vals, "n") == Some(n) && Lookup(middle, "n") == Some(n) && Lookup(inner, "n") == Some(n);
    assert Wrap32(n + 1) == n + 1;
    assert EvalExpr(Var("n"), inner, [], world) == Some(Value(n, []));
    assert EvalExpr(Const(1), inner, [], world) == Some(Value(1 as Int32, []));
    assert Arith(Plus, n, 1) == n + 1;
    assert map["n" := n]["n" := n + 1] == map["n" := n + 1];
    assert Update(vals, "n", n + 1) == Frame(map["n" := n + 1], Root);
    assert Update(middle, "n", n + 1) == Frame(map["i" := cur], Update(vals, "n", n + 1));
    assert Update(inner, "n", n + 1) == Frame(map[], Update(middle, "n", n + 1));
  }

  lemma SetVariable(cur: Int32, n: Int32, world: World, fuel: nat)
    ensures var inner: Scope<Int32> := Frame(map[], Frame(map["i" := cur], Frame(map["n" := n], Root)));
            ExecBlock([Assign("i", Const(5))], inner, [], world, fuel)
            == Done(Frame(map[], Frame(map["i" := 5], Frame(map["n" := n], Root))), [])
  {
    var middle: Scope<Int32> := Frame(map["i" := cur], Frame(map["n" := n], Root));
    var inner: Scope<Int32> := Frame(map[], middle);
    assert Lookup(middle, "i") == Some(cur) && Lookup(inner, "i") == Some(cur);
    assert EvalExpr(Const(5), inner, [], world) == Some(Value(5 as Int32, []));
    OneAssignment("i", Const(5), 5, inner, [], world, fuel);
    assert map["i" := cur]["i" := 5 as Int32] == map["i" := 5];
    assert Update(middle, "i", 5) == Frame(map["i" := 5], Frame(map["n" := n], Root));
    assert Update(inner, "i", 5) == Frame(map[], Update(middle, "i", 5));
  }

  /** After `for i : 0..0 { }` the name `i` can be read; after the usual loop it cannot. */
  lemma VariableStays(world: World)
    ensures var loop, scope := For("i", Const(0), Const(0), []), Frame(map[], Root);
            var usual := UsualFor(loop, scope, [], world, 1);
            && ExecBlock([loop, Eval(Var("i"))], scope, [], world, 1).Done?
            && usual.Done? && ExecBlock([Eval(Var("i"))], usual.vals, usual.trace, world, 1) == Stuck
  {
    var loop := For("i", Const(0), Const(0), []);
    assert [loop, Eval(Var("i"))][1..] == [Eval(Var("i"))] && [Eval(Var("i"))][1..] == [];
    assert Leak(Frame(map[], Root), "i", 0) == Frame(map["i" := 0 as Int32], Root);
  }
}
