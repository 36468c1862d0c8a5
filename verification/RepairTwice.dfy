/**
 What the repair achieves on every tree, whatever its left operands are: no
 operator keeps a looser operand, and after a second repair nothing is left
 to rotate.
 */
module RepairTwice {
  import opened Precedence

  /** How loose the root is; operands are as tight as can be. */
  function Low(t: Tree): nat {
    if t.IsBin() then t.Prec() else 1000
  }

  function Min(a: nat, b: nat): nat {
    if a <= b then a else b
  }

  /** The loosest operator above the operands. */
  function Loosest(t: Tree): nat {
    if t.IsBin() then Min(t.Prec(), Min(Loosest(t.kids[0]), Loosest(t.kids[1]))) else 1000
  }

  /** No operator has a looser operand. */
  predicate NoLooser(t: Tree) {
    && (forall k | k in t.kids :: NoLooser(k))
    && (t.IsBin() ==> Low(t.kids[0]) >= t.Prec() && Low(t.kids[1]) >= t.Prec())
  }

  /** Nor does an operator that nests to the left have itself as its right operand. */
  predicate Stable(t: Tree) {
    && (forall k | k in t.kids :: Stable(k))
    && (t.IsBin() ==> Low(t.kids[0]) >= t.Prec() && Low(t.kids[1]) >= t.Prec() && !SameRight(t.tag, t.kids[1]))
  }

  predicate SameRight(op: Tag, right: Tree) {
    LeftAssoc(op.kind) && right.tag.kind == op.kind && |right.kids| == 2
  }

  lemma {:induction false} LoosestIsRoot(t: Tree)
    requires NoLooser(t)
    ensures Loosest(t) == Low(t)
    decreases t
  {
    if t.IsBin() {
      LoosestIsRoot(t.kids[0]);
      LoosestIsRoot(t.kids[1]);
    }
  }

  lemma NoLooserPair(op: Tag, l: Tree, r: Tree)
    requires NoLooser(l) && NoLooser(r) && Low(l) >= Tightness(op.kind) && Low(r) >= Tightness(op.kind)
    ensures NoLooser(Node(op, [l, r]))
  {
  }

  lemma KidsNoLooser(t: Tree)
    requires NoLooser(t) && |t.kids| == 2
    ensures NoLooser(t.kids[0]) && NoLooser(t.kids[1])
  {
  }

  // ------------------------------------------------------- no looser operand

  /** On any tree the repair leaves no operator with a looser operand, and no operator looser than there were. */
  lemma {:induction false} FixNoLooser(t: Tree)
    ensures NoLooser(Fix(t)) && Fix(t).IsBin() == t.IsBin()
    ensures Low(Fix(t)) >= Loosest(t)
    ensures NoLooser(t) ==> Fix(t).tag == t.tag && Low(Fix(t)) == Low(t)
    decreases Size(t), 2
  {
    AllNoLooser(t.kids);
    if t.IsBin() {
      SizeOfBoth(t);
      var l, r := Fix(t.kids[0]), Fix(t.kids[1]);
      FixNoLooser(t.kids[0]);
      FixNoLooser(t.kids[1]);
      FixOfTwo(t);
      SizeOfTwo(t.tag, l, r);
      TopNoLooser(t.tag, l, r);
    }
  }

  lemma {:induction false} AllNoLooser(ts: seq<Tree>)
    ensures forall r | r in FixAll(ts) :: NoLooser(r)
    decreases SizeAll(ts), 3
  {
    if ts != [] {
      FixNoLooser(ts[0]);
      AllNoLooser(ts[1..]);
    }
  }

  lemma {:induction false} TopNoLooser(op: Tag, l: Tree, r: Tree)
    requires InTable(op.kind) && NoLooser(l) && NoLooser(r)
    ensures var x := FixTop(Node(op, [l, r]));
            && NoLooser(x) && x.IsBin() && x.Prec() >= Min(Tightness(op.kind), Min(Low(l), Low(r)))
            && (Low(l) >= Tightness(op.kind) && Low(r) >= Tightness(op.kind) ==> x.tag == op)
    decreases Size(l) + Size(r), 5
  {
    SizeOfTwo(op, l, r);
    var v := View(Node(op, [l, r]), l, r);
    SameNoLooser(v);
    LeftNoLooser(SameOperator(v));
    RightNoLooser(LooserLeft(SameOperator(v)));
  }

  /** Two operands at a root, and what the child pointers show, without looser operands. */
  predicate Tidy(v: View) {
    && v.Sized() && v.node.IsBin() && NoLooser(v.left) && NoLooser(v.right)
    && NoLooser(v.node.kids[0]) && NoLooser(v.node.kids[1])
    && Low(v.node.kids[0]) >= Min(v.node.Prec(), Low(v.left))
    && Low(v.node.kids[1]) >= Min(v.node.Prec(), Low(v.right))
  }

  lemma {:induction false} SameNoLooser(v: View)
    requires Tidy(v)
    ensures var w := SameOperator(v);
            Tidy(w) && w.node.tag == v.node.tag && Low(w.left) == Low(v.left) && Low(w.right) == Low(v.right)
    decreases Size(v.left) + Size(v.right), 4
  {
    var op, right := v.node.tag, v.right;
    if SameRight(op, right) {
      SizeOfBoth(right);
      KidsNoLooser(right);
      var b, c := right.kids[0], right.kids[1];
      NewNoLooser(op, v.left, b);
      Refixed(v.left);
      Refixed(b);
      NoLooserPair(right.tag, Fix(b), c);
      assert SameOperator(v) == View(Node(op, [Fix(Node(op, [v.left, b])), c]), Fix(v.left), Node(right.tag, [Fix(b), c]));
    }
  }

  lemma {:induction false} Refixed(t: Tree)
    requires NoLooser(t)
    ensures NoLooser(Fix(t)) && Low(Fix(t)) == Low(t)
    decreases Size(t), 3
  {
    FixNoLooser(t);
  }

  lemma {:induction false} LeftNoLooser(v: View)
    requires Tidy(v)
    ensures var w := LooserLeft(v);
            && Tidy(w) && w.node.Prec() >= Min(v.node.Prec(), Low(v.left)) && Low(w.right) == Low(v.right)
            && Low(w.left) >= w.node.Prec() && Low(w.node.kids[0]) >= w.node.Prec()
    decreases Size(v.left) + Size(v.right), 4
  {
    var left := v.left;
    if left.IsBin() && v.node.Prec() > left.Prec() {
      SizeOfBoth(left);
      KidsNoLooser(left);
      var a, b := left.kids[0], left.kids[1];
      NewNoLooser(v.node.tag, b, v.right);
      Refixed(b);
      Refixed(v.right);
      NoLooserPair(left.tag, a, Fix(b));
      assert LooserLeft(v) == View(Node(left.tag, [a, Fix(Node(v.node.tag, [b, v.right]))]), Node(left.tag, [a, Fix(b)]), Fix(v.right));
    }
  }

  lemma {:induction false} RightNoLooser(v: View)
    requires Tidy(v) && Low(v.left) >= v.node.Prec() && Low(v.node.kids[0]) >= v.node.Prec()
    ensures NoLooser(LooserRight(v)) && LooserRight(v).IsBin() && LooserRight(v).Prec() >= Min(v.node.Prec(), Low(v.right))
    decreases Size(v.left) + Size(v.right), 4
  {
    var right := v.right;
    if right.IsBin() && v.node.Prec() > right.Prec() {
      SizeOfBoth(right);
      KidsNoLooser(right);
      NewNoLooser(v.node.tag, v.left, right.kids[0]);
      NoLooserPair(right.tag, Fix(Node(v.node.tag, [v.left, right.kids[0]])), right.kids[1]);
    } else {
      assert v.node == Node(v.node.tag, [v.node.kids[0], v.node.kids[1]]);
      NoLooserPair(v.node.tag, v.node.kids[0], v.node.kids[1]);
    }
  }

  /** A new operand that a rotation makes. */
  lemma {:induction false} NewNoLooser(op: Tag, l: Tree, r: Tree)
    requires InTable(op.kind) && NoLooser(l) && NoLooser(r)
    ensures var x := Fix(Node(op, [l, r]));
            NoLooser(x) && x.IsBin() && Low(x) >= Min(Tightness(op.kind), Min(Low(l), Low(r)))
    decreases Size(l) + Size(r) + 1, 3
  {
    SizeOfTwo(op, l, r);
    LoosestIsRoot(l);
    LoosestIsRoot(r);
    FixNoLooser(Node(op, [l, r]));
  }

  // ------------------------------------------------------ what a second repair does

  lemma {:induction false} StableNoLooser(t: Tree)
    requires Stable(t)
    ensures NoLooser(t)
    decreases t
  {
    forall k | k in t.kids
      ensures NoLooser(k)
    {
      StableNoLooser(k);
    }
  }

  lemma {:induction false} CanonicalStable(t: Tree)
    requires Canonical(t)
    ensures Stable(t)
    decreases t
  {
    forall k | k in t.kids
      ensures Stable(k)
    {
      CanonicalStable(k);
    }
  }

  lemma {:induction false} StableUnchanged(t: Tree)
    requires Stable(t)
    ensures Fix(t) == t
    decreases t
  {
    AllStableUnchanged(t.kids);
    if t.IsBin() {
      FixOfTwo(t);
      assert t.kids == [t.kids[0], t.kids[1]] && Node(t.tag, t.kids) == t;
      StableUnchanged(t.kids[0]);
      StableUnchanged(t.kids[1]);
      NothingToRotate(t);
    }
  }

  lemma {:induction false} AllStableUnchanged(ts: seq<Tree>)
    requires forall t | t in ts :: Stable(t)
    ensures FixAll(ts) == ts
    decreases ts
  {
    if ts != [] {
      StableUnchanged(ts[0]);
      AllStableUnchanged(ts[1..]);
    }
  }

  lemma NothingToRotate(u: Tree)
    requires u.IsBin() && Low(u.kids[0]) >= u.Prec() && Low(u.kids[1]) >= u.Prec() && !SameRight(u.tag, u.kids[1])
    ensures FixTop(u) == u
  {
  }

  /** Stable operands that are tight enough: only left-nesting operators are rotated. */
  lemma {:induction false} TopStable(op: Tag, l: Tree, r: Tree)
    requires InTable(op.kind) && Stable(l) && Stable(r) && Low(l) >= Tightness(op.kind) && Low(r) >= Tightness(op.kind)
    ensures var x := FixTop(Node(op, [l, r])); Stable(x) && x.tag == op && x.IsBin()
    decreases r
  {
    if SameRight(op, r) {
      var b, c := r.kids[0], r.kids[1];
      TopStable(op, l, b);
      var newLeft := Fix(Node(op, [l, b]));
      FixOfTwo(Node(op, [l, b]));
      StableUnchanged(l);
      StableUnchanged(b);
      SizeOfTwo(op, l, r);
      assert r == Node(r.tag, [b, c]);
      assert SameOperator(View(Node(op, [l, r]), l, r)) == View(Node(op, [newLeft, c]), l, r);
      assert FixTop(Node(op, [l, r])) == Node(op, [newLeft, c]);
    } else {
      NothingToRotate(Node(op, [l, r]));
    }
  }

  lemma {:induction false} FixStable(t: Tree)
    requires NoLooser(t)
    ensures Stable(Fix(t))
    decreases t
  {
    AllStable(t.kids);
    if t.IsBin() {
      var l, r := t.kids[0], t.kids[1];
      FixStable(l);
      FixStable(r);
      Refixed(l);
      Refixed(r);
      FixOfTwo(t);
      TopStable(t.tag, Fix(l), Fix(r));
    }
  }

  lemma {:induction false} AllStable(ts: seq<Tree>)
    requires forall t | t in ts :: NoLooser(t)
    ensures forall r | r in FixAll(ts) :: Stable(r)
    decreases ts
  {
    if ts != [] {
      FixStable(ts[0]);
      AllStable(ts[1..]);
    }
  }

  /** The repair changes nothing if and only if there is nothing to rotate. */
  lemma UnchangedIfStable(t: Tree)
    ensures Fix(t) == t <==> Stable(t)
  {
    FixNoLooser(t);
    if Fix(t) == t {
      FixStable(t);
    }
    if Stable(t) {
      StableUnchanged(t);
    }
  }

  /** Whatever the tree, a second repair settles it. */
  lemma RepairedTwice(t: Tree)
    ensures Stable(Fix(Fix(t))) && Fix(Fix(Fix(t))) == Fix(Fix(t))
  {
    FixNoLooser(t);
    FixStable(Fix(t));
    StableUnchanged(Fix(Fix(t)));
  }
}
