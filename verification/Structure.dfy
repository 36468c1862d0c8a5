/** The shape of generated functions: every block is in the function once and ends in its only terminator. */
module Structure {
  import opened Wrappers
  import opened Language
  import opened Machine
  import opened Lowering

  predicate Terminator(i: Instr) {
    i.Br? || i.CondBr? || i.Ret?
  }

  /** Still being filled. */
  predicate Open(block: seq<Instr>) {
    forall i | i in block :: !Terminator(i)
  }

  /** Every branch goes to one of the first `n` blocks. */
  predicate Targets(i: Instr, n: nat) {
    && (i.Br? ==> i.target < n)
    && (i.CondBr? ==> i.ifTrue < n && i.ifFalse < n)
  }

  /** Exactly one terminator, at the end, to blocks that exist. */
  predicate Closed(block: seq<Instr>, n: nat) {
    block != [] && Open(block[..|block| - 1]) && Terminator(block[|block| - 1]) && Targets(block[|block| - 1], n)
  }

  /**
   From `b` to `b'` every block that the builder has left is closed, and the
   block it is in is open.
   */
  ghost predicate Sealed(b: IR, b': IR) {
    && b.Valid() && b'.Valid() && Grows(b, b')
    && Open(b'.blocks[b'.cur])
    && (forall k | |b.blocks| <= k < |b'.blocks| && k != b'.cur :: Closed(b'.blocks[k], |b'.blocks|))
    && (b'.cur != b.cur ==> Closed(b'.blocks[b.cur], |b'.blocks|))
  }

  lemma SealedTrans(b: IR, b1: IR, b2: IR)
    requires Sealed(b, b1) && Sealed(b1, b2)
    ensures Sealed(b, b2)
  {
    GrowsTrans(b, b1, b2);
  }

  /** A stretch of ordinary instructions. */
  ghost predicate Plain(b: IR, b': IR) {
    b.Valid() && Grows(b, b') && |b'.blocks| == |b.blocks| && b'.cur == b.cur && Open(b'.blocks[b.cur])
  }

  lemma {:induction false} ExprPlain(e: Expr, env: Scope<nat>, b: IR)
    requires b.Valid() && Open(b.blocks[b.cur]) && LowerExpr(e, env, b).Some?
    ensures Plain(b, LowerExpr(e, env, b).value.b)
    decreases e, 0
  {
    ExprGrows(e, env, b);
    match e
    case Const(_) =>
    case Var(_) =>
    case Bin(op, left, right) =>
      var l := LowerExpr(left, env, b).value;
      ExprPlain(left, env, b);
      ExprPlain(right, env, l.b);
    case Call(f, args) =>
      var a := LowerArgs(args, env, b).value;
      ArgsPlain(args, env, b);
      ArgsPlain(args, env, a.b);
  }

  lemma {:induction false} ArgsPlain(es: seq<Expr>, env: Scope<nat>, b: IR)
    requires b.Valid() && Open(b.blocks[b.cur]) && LowerArgs(es, env, b).Some?
    ensures Plain(b, LowerArgs(es, env, b).value.b)
    decreases es, 1
  {
    ArgsGrow(es, env, b);
    if es != [] {
      var v := LowerExpr(es[0], env, b).value;
      ExprPlain(es[0], env, b);
      ArgsPlain(es[1..], env, v.b);
    }
  }

  lemma CondPlain(c: Cond, env: Scope<nat>, b: IR)
    requires b.Valid() && Open(b.blocks[b.cur]) && LowerCond(c, env, b).Some?
    ensures Plain(b, LowerCond(c, env, b).value.b)
  {
    CondGrows(c, env, b);
    if c.Compare? {
      var l := LowerExpr(c.left, env, b).value;
      ExprPlain(c.left, env, b);
      ExprPlain(c.right, env, l.b);
    }
  }

  /** The block of `b` that was current has been closed and `b'` is in block `next`. */
  ghost predicate Closes(b: IR, b': IR, next: nat) {
    && b.Valid() && Moves(b, b', next)
    && Closed(b'.blocks[b.cur], |b'.blocks|)
  }

  /** Three blocks filled in turn, as for if and for statements. */
  lemma ThreeSealed(b: IR, b1: IR, t: IR, b2: IR, e: IR, b3: IR)
    requires b.Valid() && b1.Valid() && b2.Valid() && b3.Valid()
    requires Grows(b, b1) && b1.cur == |b.blocks| && |b1.blocks| == |b.blocks| + 3
    requires b1.blocks[b1.cur + 1] == b1.blocks[b1.cur + 2] == []
    requires Closed(b1.blocks[b.cur], |b1.blocks|)
    requires Sealed(b1, t) && Closes(t, b2, |b.blocks| + 1)
    requires Sealed(b2, e) && Closes(e, b3, |b.blocks| + 2)
    ensures Sealed(b, b3)
  {
    var n := |b.blocks|;
    ThreeStages(b, b1, t, b2, e, b3);
    assert Closed(b3.blocks[b.cur], |b3.blocks|) by {
      assert t.blocks[b.cur] == b1.blocks[b.cur] && b2.blocks[b.cur] == t.blocks[b.cur];
      assert e.blocks[b.cur] == b2.blocks[b.cur] && b3.blocks[b.cur] == e.blocks[b.cur];
    }
    forall k | n <= k < |b3.blocks| && k != n + 2
      ensures Closed(b3.blocks[k], |b3.blocks|)
    {
      ThirdClosed(b, b1, t, b2, e, b3, k);
    }
  }

  lemma ThirdClosed(b: IR, b1: IR, t: IR, b2: IR, e: IR, b3: IR, k: nat)
    requires b.Valid() && b1.Valid() && b2.Valid() && b3.Valid()
    requires b1.cur == |b.blocks| && |b1.blocks| == |b.blocks| + 3
    requires Sealed(b1, t) && Closes(t, b2, |b.blocks| + 1)
    requires Sealed(b2, e) && Closes(e, b3, |b.blocks| + 2)
    requires |b.blocks| <= k < |b3.blocks| && k != |b.blocks| + 2
    ensures Closed(b3.blocks[k], |b3.blocks|)
  {
    var n := |b.blocks|;
    if k >= |t.blocks| || k == n + 1 {
      if k != e.cur {
        assert Closed(e.blocks[k], |e.blocks|);
        assert b3.blocks[k] == e.blocks[k];
      }
    } else {
      if k != t.cur {
        assert Closed(t.blocks[k], |t.blocks|);
        assert b2.blocks[k] == t.blocks[k];
      }
      assert Closed(b2.blocks[k], |b2.blocks|);
      assert e.blocks[k] == b2.blocks[k];
      assert b3.blocks[k] == e.blocks[k];
    }
  }

  lemma {:induction false} BlockSealed(ss: seq<Stmt>, env: Scope<nat>, b: IR)
    requires b.Valid() && Open(b.blocks[b.cur]) && LowerBlock(ss, env, b).Some?
    ensures Sealed(b, LowerBlock(ss, env, b).value.b)
    decreases ss, 1
  {
    if ss == [] {
      assert Grows(b, b);
    } else {
      var s := LowerStmt(ss[0], env, b).value;
      StmtSealed(ss[0], env, b);
      BlockSealed(ss[1..], s.env, s.b);
      SealedTrans(b, s.b, LowerBlock(ss[1..], s.env, s.b).value.b);
    }
  }

  lemma {:induction false} StmtSealed(s: Stmt, env: Scope<nat>, b: IR)
    requires b.Valid() && Open(b.blocks[b.cur]) && LowerStmt(s, env, b).Some?
    ensures Sealed(b, LowerStmt(s, env, b).value.b)
    decreases s, 1
  {
    StmtGrows(s, env, b);
    match s
    case Eval(e) => ExprPlain(e, env, b);
    case Assign(x, e) => ExprPlain(e, env, b);
    case If(_, _, _) => IfSealed(s, env, b);
    case For(_, _, _, _) => ForSealed(s, env, b);
  }

  lemma BranchCloses(b: IR, c: Emitted)
    requires Plain(b, c.b)
    ensures Grows(b, Branch(c)) && Closed(Branch(c).blocks[b.cur], |Branch(c).blocks|)
  {
    BranchGrows(c);
    GrowsTrans(b, c.b, Branch(c));
    var i := ICmp(c.b.regs, NotEqual, c.v, Imm(0));
    var body := c.b.blocks[b.cur] + [i];
    assert Branch(c).blocks[b.cur] == body + [CondBr(Reg(c.b.regs), |c.b.blocks|, |c.b.blocks| + 1)];
    ClosedBy(body, CondBr(Reg(c.b.regs), |c.b.blocks|, |c.b.blocks| + 1), |Branch(c).blocks|);
  }

  lemma ClosedBy(body: seq<Instr>, i: Instr, n: nat)
    requires Open(body) && Terminator(i) && Targets(i, n)
    ensures Closed(body + [i], n)
  {
    assert (body + [i])[..|body + [i]| - 1] == body;
  }

  lemma JoinCloses(b: IR, merge: nat, next: nat)
    requires b.Valid() && merge < |b.blocks| && next < |b.blocks| && Open(b.blocks[b.cur])
    ensures Closes(b, Join(b, merge, next), next)
  {
    JoinMoves(b, merge, next);
    ClosedBy(b.blocks[b.cur], Br(merge), |b.blocks|);
  }

  /** The first block of an if statement, when the condition has been emitted. */
  lemma IfBegins(s: Stmt, env: Scope<nat>, b: IR)
    requires s.If? && b.Valid() && Open(b.blocks[b.cur]) && LowerIf(s, env, b).Some?
    ensures var b1 := Branch(CondOf(s, env, b));
            && Grows(b, b1) && Closed(b1.blocks[b.cur], |b1.blocks|)
            && b1.blocks[b1.cur + 1] == b1.blocks[b1.cur + 2] == []
  {
    CondPlain(s.cond, env, b);
    BranchGrows(CondOf(s, env, b));
    BranchCloses(b, CondOf(s, env, b));
  }

  /** A branch, and the jump at its end. */
  lemma {:induction false} ArmSealed(ss: seq<Stmt>, env: Scope<nat>, b: IR, merge: nat, next: nat)
    requires b.Valid() && Open(b.blocks[b.cur]) && LowerBlock(ss, env, b).Some?
    requires merge < |b.blocks| && next < |b.blocks|
    ensures var e := LowerBlock(ss, env, b).value.b; Sealed(b, e) && Closes(e, Join(e, merge, next), next)
    decreases ss, 2
  {
    BlockSealed(ss, env, b);
    JoinCloses(LowerBlock(ss, env, b).value.b, merge, next);
  }

  lemma {:induction false} IfSealed(s: Stmt, env: Scope<nat>, b: IR)
    requires s.If? && b.Valid() && Open(b.blocks[b.cur]) && LowerIf(s, env, b).Some?
    ensures Sealed(b, LowerIf(s, env, b).value.b)
    decreases s, 0
  {
    var n := |b.blocks|;
    var b1, t := Branch(CondOf(s, env, b)), ThenOf(s, env, b).b;
    var b2, e := ElseStart(s, env, b), ElseOf(s, env, b).b;
    IfBegins(s, env, b);
    IfGrows(s, env, b);
    ArmSealed(s.thn, Frame(map[], env), b1, n + 2, n + 1);
    ArmSealed(s.els, Frame(map[], env), b2, n + 2, n + 2);
    ThreeSealed(b, b1, t, b2, e, LowerIf(s, env, b).value.b);
  }

  lemma EnterCloses(b: IR, v: Emitted)
    requires Plain(b, v.b)
    ensures Grows(b, EnterLoop(v)) && Closed(EnterLoop(v).blocks[b.cur], |EnterLoop(v).blocks|)
  {
    EnterGrows(v);
    GrowsTrans(b, v.b, EnterLoop(v));
    var body := v.b.blocks[b.cur] + [Store(v.v, v.b.slots)];
    assert EnterLoop(v).blocks[b.cur] == body + [Br(|v.b.blocks|)];
    ClosedBy(body, Br(|v.b.blocks|), |EnterLoop(v).blocks|);
  }

  lemma TestCloses(limit: Emitted, slot: nat, n: nat)
    requires limit.b.Valid() && n + 2 < |limit.b.blocks| && Open(limit.b.blocks[limit.b.cur])
    ensures Closes(limit.b, TestLoop(limit, slot, n), n + 1)
  {
    TestMoves(limit, slot, n);
    var r := limit.b.regs;
    var body := limit.b.blocks[limit.b.cur] + [Load(r, slot)] + [ICmp(r + 1, Less, Reg(r), limit.v)];
    ClosedBy(body, CondBr(Reg(r + 1), n + 1, n + 2), |limit.b.blocks|);
  }

  lemma StepCloses(b: IR, slot: nat, current: nat, n: nat)
    requires b.Valid() && n + 2 < |b.blocks| && Open(b.blocks[b.cur])
    ensures Closes(b, StepLoop(b, slot, current, n), n + 2)
  {
    StepMoves(b, slot, current, n);
    var body := b.blocks[b.cur] + [Compute(b.regs, Plus, Reg(current), Imm(1))] + [Store(Reg(b.regs), slot)];
    ClosedBy(body, Br(n), |b.blocks|);
  }

  lemma {:induction false} ForSealed(s: Stmt, env: Scope<nat>, b: IR)
    requires s.For? && b.Valid() && Open(b.blocks[b.cur]) && LowerFor(s, env, b).Some?
    ensures Sealed(b, LowerFor(s, env, b).value.b)
    decreases s, 0
  {
    var n := |b.blocks|;
    var v, b1, limit := StartOf(s, env, b), EnterLoop(StartOf(s, env, b)), LimitOf(s, env, b);
    var t, l := TestOf(s, env, b), BodyOf(s, env, b).b;
    ExprPlain(s.start, env, b);
    EnterGrows(v);
    EnterCloses(b, v);
    ForGrows(s, env, b);
    ExprPlain(s.end, env, b1);
    TestCloses(limit, b.slots, n);
    BlockSealed(s.body, Frame(map[], Frame(map[s.name := b.slots], env)), t);
    StepCloses(l, b.slots, limit.b.regs, n);
    ThreeSealed(b, b1, limit.b, t, l, LowerFor(s, env, b).value.b);
  }

  // ---------------------------------------------------------------- layout

  /** Every block created since `b` has been inserted into the function exactly once. */
  ghost predicate LaidOut(b: IR, b': IR) {
    && |b.blocks| <= |b'.blocks|
    && forall k: nat :: multiset(b'.layout)[k] == multiset(b.layout)[k] + if |b.blocks| <= k < |b'.blocks| then 1 else 0
  }

  lemma {:induction false} BlockLaidOut(ss: seq<Stmt>, env: Scope<nat>, b: IR)
    requires b.Valid() && LowerBlock(ss, env, b).Some?
    ensures LaidOut(b, LowerBlock(ss, env, b).value.b)
    decreases ss, 3
  {
    if ss != [] {
      var s := LowerStmt(ss[0], env, b).value;
      StmtLaidOut(ss[0], env, b);
      BlockLaidOut(ss[1..], s.env, s.b);
    }
  }

  lemma {:induction false} StmtLaidOut(s: Stmt, env: Scope<nat>, b: IR)
    requires b.Valid() && LowerStmt(s, env, b).Some?
    ensures LaidOut(b, LowerStmt(s, env, b).value.b)
    decreases s, 2
  {
    match s
    case Eval(e) =>
    case Assign(x, e) =>
    case If(_, _, _) => IfLaidOut(s, env, b);
    case For(_, _, _, _) => ForLaidOut(s, env, b);
  }

  lemma ThreeLaidOut(b: IR, b1: IR, t: IR, b2: IR, e: IR, b3: IR)
    requires |b1.blocks| == |b.blocks| + 3 && b1.layout == b.layout + [|b.blocks|]
    requires LaidOut(b1, t) && |b2.blocks| == |t.blocks| && b2.layout == t.layout + [|b.blocks| + 1]
    requires LaidOut(b2, e) && |b3.blocks| == |e.blocks| && b3.layout == e.layout + [|b.blocks| + 2]
    ensures LaidOut(b, b3)
  {
  }

  lemma LoopLaidOut(b: IR, t: IR, l: IR, b3: IR)
    requires |t.blocks| == |b.blocks| + 3 && t.layout == b.layout + [|b.blocks|, |b.blocks| + 1, |b.blocks| + 2]
    requires LaidOut(t, l) && |b3.blocks| == |l.blocks| && b3.layout == l.layout
    ensures LaidOut(b, b3)
  {
  }

  lemma ThenLayout(s: Stmt, env: Scope<nat>, b: IR)
    requires s.If? && b.Valid() && LowerIf(s, env, b).Some?
    ensures var b1 := Branch(CondOf(s, env, b));
            && LowerBlock(s.thn, Frame(map[], env), b1) == Some(ThenOf(s, env, b))
            && b1.Valid() && |b1.blocks| == |b.blocks| + 3 && b1.layout == b.layout + [|b.blocks|]
  {
  }

  lemma ElseLayout(s: Stmt, env: Scope<nat>, b: IR)
    requires s.If? && b.Valid() && LowerIf(s, env, b).Some?
    ensures var t, b2 := ThenOf(s, env, b).b, ElseStart(s, env, b);
            && LowerBlock(s.els, Frame(map[], env), b2) == Some(ElseOf(s, env, b))
            && b2.Valid() && |b2.blocks| == |t.blocks| && b2.layout == t.layout + [|b.blocks| + 1]
  {
  }

  lemma MergeLayout(s: Stmt, env: Scope<nat>, b: IR)
    requires s.If? && b.Valid() && LowerIf(s, env, b).Some?
    ensures var e, b3 := ElseOf(s, env, b).b, LowerIf(s, env, b).value.b;
            |b3.blocks| == |e.blocks| && b3.layout == e.layout + [|b.blocks| + 2]
  {
  }

  lemma {:induction false} IfLaidOut(s: Stmt, env: Scope<nat>, b: IR)
    requires s.If? && b.Valid() && LowerIf(s, env, b).Some?
    ensures LaidOut(b, LowerIf(s, env, b).value.b)
    decreases s, 1
  {
    ThenLayout(s, env, b);
    ElseLayout(s, env, b);
    MergeLayout(s, env, b);
    var b1, t, b2, e := Branch(CondOf(s, env, b)), ThenOf(s, env, b).b, ElseStart(s, env, b), ElseOf(s, env, b).b;
    BlockLaidOut(s.thn, Frame(map[], env), b1);
    BlockLaidOut(s.els, Frame(map[], env), b2);
    ThreeLaidOut(b, b1, t, b2, e, LowerIf(s, env, b).value.b);
  }

  lemma {:induction false} ForLaidOut(s: Stmt, env: Scope<nat>, b: IR)
    requires s.For? && b.Valid() && LowerFor(s, env, b).Some?
    ensures LaidOut(b, LowerFor(s, env, b).value.b)
    decreases s, 1
  {
    var t, l := TestOf(s, env, b), BodyOf(s, env, b).b;
    TestLayout(s, env, b);
    BodyLowers(s, env, b);
    BlockLaidOut(s.body, Frame(map[], Frame(map[s.name := b.slots], env)), t);
    StepLayout(s, env, b);
    LoopLaidOut(b, t, l, LowerFor(s, env, b).value.b);
  }

  lemma TestLayout(s: Stmt, env: Scope<nat>, b: IR)
    requires s.For? && b.Valid() && LowerFor(s, env, b).Some?
    ensures TestOf(s, env, b).layout == b.layout + [|b.blocks|, |b.blocks| + 1, |b.blocks| + 2]
  {
    var b1 := EnterLoop(StartOf(s, env, b));
    assert b1.layout == b.layout + [|b.blocks|, |b.blocks| + 1, |b.blocks| + 2];
    assert LimitOf(s, env, b).b.layout == b1.layout;
  }

  lemma BodyLowers(s: Stmt, env: Scope<nat>, b: IR)
    requires s.For? && b.Valid() && LowerFor(s, env, b).Some?
    ensures LowerBlock(s.body, Frame(map[], Frame(map[s.name := b.slots], env)), TestOf(s, env, b)) == Some(BodyOf(s, env, b))
  {
  }

  lemma StepLayout(s: Stmt, env: Scope<nat>, b: IR)
    requires s.For? && b.Valid() && LowerFor(s, env, b).Some?
    ensures var l, b3 := BodyOf(s, env, b).b, LowerFor(s, env, b).value.b;
            |b3.blocks| == |l.blocks| && b3.layout == l.layout
  {
  }

  /**
   In a finished function every block is in the function exactly once, and
   ends in its one and only terminator, whose targets are blocks of the function.
   */
  /** One way out of the block, at its end: a return, or a jump to a block that exists. */
  predicate LeavesOnce(block: seq<Instr>, n: nat) {
    && block != []
    && (match block[|block| - 1]
        case Br(target) => target < n
        case CondBr(_, ifTrue, ifFalse) => ifTrue < n && ifFalse < n
        case Ret => true
        case _ => false)
    && forall i | 0 <= i < |block| - 1 :: !block[i].Br? && !block[i].CondBr? && !block[i].Ret?
  }

  lemma ClosedLeaves(block: seq<Instr>, n: nat)
    requires Closed(block, n)
    ensures LeavesOnce(block, n)
  {
    var front := block[..|block| - 1];
    assert forall i | 0 <= i < |block| - 1 :: block[i] == front[i] && block[i] in front;
  }

  lemma FunctionWellFormed(params: seq<string>, body: seq<Stmt>)
    requires LowerFunction(params, body).Some?
    ensures var ir := LowerFunction(params, body).value;
            && (forall k | 0 <= k < |ir.blocks| :: Closed(ir.blocks[k], |ir.blocks|))
            && (forall k | 0 <= k < |ir.blocks| :: LeavesOnce(ir.blocks[k], |ir.blocks|))
            && (forall k: nat :: multiset(ir.layout)[k] == if k < |ir.blocks| then 1 else 0)
  {
    var ir := LowerFunction(params, body).value;
    var p := LowerParams(params, 0, Frame(map[], Root), EntryBlock(|params|));
    ParamsPlain(params, 0, Frame(map[], Root), EntryBlock(|params|));
    var l := LowerBlock(body, Frame(map[], p.env), p.b).value;
    BlockSealed(body, Frame(map[], p.env), p.b);
    ClosedBy(l.b.blocks[l.b.cur], Ret, |l.b.blocks|);
    BlockLaidOut(body, Frame(map[], p.env), p.b);
    forall k | 0 <= k < |ir.blocks|
      ensures LeavesOnce(ir.blocks[k], |ir.blocks|)
    {
      ClosedLeaves(ir.blocks[k], |ir.blocks|);
    }
  }

  lemma {:induction false} ParamsPlain(params: seq<string>, i: nat, env: Scope<nat>, b: IR)
    requires b.Valid() && i <= |params| && Open(b.blocks[b.cur])
    ensures var r := LowerParams(params, i, env, b).b;
            r.cur == b.cur && |r.blocks| == |b.blocks| && r.layout == b.layout && Open(r.blocks[r.cur])
    decreases |params| - i
  {
    if i < |params| {
      ParamsPlain(params, i + 1, Declare(env, params[i], b.slots), b.Emit(Store(Reg(i), b.slots)).(slots := b.slots + 1));
    }
  }
}
