/**
 Operator precedence repair.  The parser nests every infix chain to the right;
 `fixPrecedence` then rotates nodes until the tree follows the precedence table.
 Here it is a function on trees; module `SyntaxTree` does the same in place.
 */
module Precedence {

  /** The node types of the precedence table; every other type is `Other`. */
  datatype Kind =
    | OperatorOverload
    | MemberAccess
    | AccessOperation
    | ParenTerm
    | AddressOf
    | Times | Divide
    | Plus | Minus
    | CompareEqual | CompareNot | CompareLess | CompareLessEqual | CompareGreater | CompareGreaterEqual
    | Range
    | Pipe
    | Other(name: string)

  predicate InTable(k: Kind) {
    !k.Other?
  }

  /** The precedence table; a larger number binds tighter. */
  function Tightness(k: Kind): nat {
    match k
    case OperatorOverload => 100
    case MemberAccess => 90
    case AccessOperation => 80
    case ParenTerm => 70
    case AddressOf => 50
    case Times => 40
    case Divide => 40
    case Plus => 30
    case Minus => 30
    case CompareEqual => 20
    case CompareNot => 20
    case CompareLess => 20
    case CompareLessEqual => 20
    case CompareGreater => 20
    case CompareGreaterEqual => 20
    case Range => 15
    case Pipe => 10
    case Other(_) => 0
  }

  predicate LeftAssoc(k: Kind) {
    k.MemberAccess? || k.AccessOperation? || k.Pipe?
  }

  /** What a rotation moves from node to node: the type, the token and the code generator. */
  datatype Tag = Tag(kind: Kind, token: string, codegen: string)

  datatype Tree = Node(tag: Tag, kids: seq<Tree>) {
    /** A two-operand operator of the table; anything else is opaque to the repair. */
    predicate IsBin() {
      InTable(tag.kind) && |kids| == 2
    }

    function Prec(): nat {
      Tightness(tag.kind)
    }
  }

  function Size(t: Tree): (n: nat)
    ensures n >= 1
  {
    1 + SizeAll(t.kids)
  }

  function SizeAll(ts: seq<Tree>): nat {
    if ts == [] then 0 else Size(ts[0]) + SizeAll(ts[1..])
  }

  lemma SizeOfTwo(tag: Tag, l: Tree, r: Tree)
    ensures Size(Node(tag, [l, r])) == 1 + Size(l) + Size(r)
  {
    assert [l, r][1..] == [r];
    assert SizeAll([r]) == Size(r) by {
      assert [r][1..] == [];
    }
  }

  // ------------------------------------------------------------- the repair

  function Fix(t: Tree): (r: Tree)
    ensures Size(r) == Size(t)
    decreases Size(t), 2
  {
    var u := Node(t.tag, FixAll(t.kids));
    if u.IsBin() then FixTop(u) else u
  }

  function FixAll(ts: seq<Tree>): (rs: seq<Tree>)
    ensures |rs| == |ts| && SizeAll(rs) == SizeAll(ts)
    decreases SizeAll(ts), 3
  {
    if ts == [] then []
    else
      var head := Fix(ts[0]);
      var tail := FixAll(ts[1..]);
      assert ([head] + tail)[1..] == tail;
      [head] + tail
  }

  /** The tree at a root, and what its two child pointers, read once before any rotation, show by now. */
  datatype View = View(node: Tree, left: Tree, right: Tree) {
    predicate Sized() {
      Size(node) == 1 + Size(left) + Size(right)
    }
  }

  /**
   The root, once its operands are repaired.  All three steps use the child
   pointers from before the first rotation.  A rotation repairs the new
   operand, and with it, once more, the old operands that it shares.
   */
  function FixTop(u: Tree): (r: Tree)
    requires u.IsBin()
    ensures Size(r) == Size(u)
    decreases Size(u), 0
  {
    assert u.kids == [u.kids[0], u.kids[1]];
    SizeOfTwo(u.tag, u.kids[0], u.kids[1]);
    LooserRight(LooserLeft(SameOperator(View(u, u.kids[0], u.kids[1]))))
  }

  /** Left-nesting operators: a right operand with the same one is rotated. */
  function SameOperator(v: View): (w: View)
    requires v.Sized()
    ensures w.Sized() && Size(w.left) == Size(v.left) && Size(w.right) == Size(v.right)
    decreases Size(v.left) + Size(v.right), 2
  {
    var op, right := v.node.tag, v.right;
    if LeftAssoc(op.kind) && right.tag.kind == op.kind && |right.kids| == 2 then
      SizeOfBoth(right);
      var b, c := Fix(right.kids[0]), right.kids[1];
      SizeOfTwo(right.tag, b, c);
      View(RotateLeft(op, op, v.left, right), Fix(v.left), Node(right.tag, [b, c]))
    else v
  }

  /** A looser left operand is rotated. */
  function LooserLeft(v: View): (w: View)
    requires v.Sized()
    ensures w.Sized() && Size(w.left) == Size(v.left) && Size(w.right) == Size(v.right)
    decreases Size(v.left) + Size(v.right), 2
  {
    var left := v.left;
    if left.IsBin() && Tightness(v.node.tag.kind) > left.Prec() then
      SizeOfBoth(left);
      var a, b := left.kids[0], Fix(left.kids[1]);
      SizeOfTwo(left.tag, a, b);
      View(RotateRight(v.node.tag, left, v.right), Node(left.tag, [a, b]), Fix(v.right))
    else v
  }

  /** A looser right operand is rotated. */
  function LooserRight(v: View): (r: Tree)
    requires v.Sized()
    ensures Size(r) == Size(v.node)
    decreases Size(v.left) + Size(v.right), 2
  {
    if v.right.IsBin() && Tightness(v.node.tag.kind) > v.right.Prec()
    then RotateLeft(v.node.tag, v.right.tag, v.left, v.right) else v.node
  }

  lemma SizeOfBoth(t: Tree)
    requires |t.kids| == 2
    ensures Size(t) == 1 + Size(t.kids[0]) + Size(t.kids[1])
  {
    assert t == Node(t.tag, [t.kids[0], t.kids[1]]);
    SizeOfTwo(t.tag, t.kids[0], t.kids[1]);
  }

  /** `left op (B top C)` becomes `(left op B) top C`, and the new left operand is repaired. */
  function RotateLeft(op: Tag, top: Tag, left: Tree, right: Tree): (r: Tree)
    requires |right.kids| == 2
    ensures Size(r) == 1 + Size(left) + Size(right)
    decreases Size(left) + Size(right), 1
  {
    SizeOfBoth(right);
    SizeOfTwo(op, left, right.kids[0]);
    var newLeft := Fix(Node(op, [left, right.kids[0]]));
    SizeOfTwo(top, newLeft, right.kids[1]);
    Node(top, [newLeft, right.kids[1]])
  }

  /** `(A top B) op right` becomes `A top (B op right)`, and the new right operand is repaired. */
  function RotateRight(op: Tag, left: Tree, right: Tree): (r: Tree)
    requires |left.kids| == 2
    ensures Size(r) == 1 + Size(left) + Size(right)
    decreases Size(left) + Size(right), 1
  {
    SizeOfBoth(left);
    SizeOfTwo(op, left.kids[1], right);
    var newRight := Fix(Node(op, [left.kids[1], right]));
    SizeOfTwo(left.tag, left.kids[0], newRight);
    Node(left.tag, [left.kids[0], newRight])
  }

  // -------------------------------------------------------- canonical trees

  /** As a left operand of `k`, `l` needs no parentheses. */
  predicate FitsLeft(l: Tree, k: Kind) {
    l.IsBin() ==> l.Prec() > Tightness(k) || (l.Prec() == Tightness(k) && LeftAssoc(k))
  }

  predicate FitsRight(r: Tree, k: Kind) {
    r.IsBin() ==> r.Prec() > Tightness(k) || (r.Prec() == Tightness(k) && !LeftAssoc(k))
  }

  /** No operator has a looser operator as an operand; equal ones nest to the side the table says. */
  predicate Canonical(t: Tree) {
    && (forall k | k in t.kids :: Canonical(k))
    && (t.IsBin() ==> FitsLeft(t.kids[0], t.tag.kind) && FitsRight(t.kids[1], t.tag.kind))
  }

  lemma SameTightness(a: Kind, b: Kind)
    requires InTable(a) && InTable(b) && Tightness(a) == Tightness(b)
    ensures LeftAssoc(a) == LeftAssoc(b)
    ensures LeftAssoc(a) ==> a == b
  {
  }

  datatype Item = Operand(t: Tree) | Operator(kind: Kind)

  /** Operands and operators from left to right. */
  function InOrder(t: Tree): seq<Item> {
    if t.IsBin() then InOrder(t.kids[0]) + [Operator(t.tag.kind)] + InOrder(t.kids[1]) else [Operand(t)]
  }

  /** The same for a tree before the repair, with the insides of opaque operands repaired. */
  function Flat(t: Tree): seq<Item> {
    if t.IsBin() then Flat(t.kids[0]) + [Operator(t.tag.kind)] + Flat(t.kids[1]) else [Operand(Fix(t))]
  }

  lemma {:induction false} CanonicalUnchanged(t: Tree)
    requires Canonical(t)
    ensures Fix(t) == t
    decreases t
  {
    AllUnchanged(t.kids);
    if t.IsBin() {
      var left, right := t.kids[0], t.kids[1];
      assert !(LeftAssoc(t.tag.kind) && right.tag.kind == t.tag.kind && |right.kids| == 2);
      assert FixTop(t) == t;
    }
  }

  lemma {:induction false} AllUnchanged(ts: seq<Tree>)
    requires forall t | t in ts :: Canonical(t)
    ensures FixAll(ts) == ts
    decreases ts
  {
    if ts != [] {
      CanonicalUnchanged(ts[0]);
      AllUnchanged(ts[1..]);
    }
  }

  /** The three steps at a root whose operands stay as they are. */
  function Rotated(u: Tree): Tree
    requires u.IsBin()
  {
    var left, right := u.kids[0], u.kids[1];
    var u1 := if LeftAssoc(u.tag.kind) && right.tag.kind == u.tag.kind && |right.kids| == 2
              then RotateLeft(u.tag, u.tag, left, right) else u;
    var u2 := if left.IsBin() && Tightness(u1.tag.kind) > left.Prec()
              then RotateRight(u1.tag, left, right) else u1;
    if right.IsBin() && Tightness(u2.tag.kind) > right.Prec()
    then RotateLeft(u2.tag, right.tag, left, right) else u2
  }

  lemma {:induction false} CanonicalStays(t: Tree)
    requires Canonical(t)
    ensures Fix(t) == t
    ensures |t.kids| == 2 ==> t == Node(t.tag, [Fix(t.kids[0]), t.kids[1]]) == Node(t.tag, [t.kids[0], Fix(t.kids[1])])
  {
    CanonicalUnchanged(t);
    if |t.kids| == 2 {
      CanonicalUnchanged(t.kids[0]);
      CanonicalUnchanged(t.kids[1]);
      assert t.kids == [t.kids[0], t.kids[1]];
    }
  }

  lemma CanonicalSteps(v: View)
    requires v.Sized() && Canonical(v.left) && Canonical(v.right)
    ensures SameOperator(v).left == v.left && SameOperator(v).right == v.right
    ensures LooserLeft(v).left == v.left && LooserLeft(v).right == v.right
  {
    CanonicalStays(v.left);
    CanonicalStays(v.right);
  }

  lemma TopRotated(u: Tree)
    requires u.IsBin() && Canonical(u.kids[0]) && Canonical(u.kids[1])
    ensures FixTop(u) == Rotated(u)
  {
    assert u.kids == [u.kids[0], u.kids[1]];
    SizeOfTwo(u.tag, u.kids[0], u.kids[1]);
    var v := View(u, u.kids[0], u.kids[1]);
    CanonicalSteps(v);
    CanonicalSteps(SameOperator(v));
  }

  lemma FixOfTwo(t: Tree)
    requires t.IsBin()
    ensures Fix(t) == FixTop(Node(t.tag, [Fix(t.kids[0]), Fix(t.kids[1])]))
  {
    FixAllPair(t.kids[0], t.kids[1]);
    assert t.kids == [t.kids[0], t.kids[1]];
  }

  /** With canonical operands, the repair starts at the root. */
  lemma FixPair(op: Tag, left: Tree, right: Tree)
    requires InTable(op.kind) && Canonical(left) && Canonical(right)
    ensures Fix(Node(op, [left, right])) == Rotated(Node(op, [left, right]))
  {
    FixOfTwo(Node(op, [left, right]));
    CanonicalStays(left);
    CanonicalStays(right);
    TopRotated(Node(op, [left, right]));
  }

  /** A well placed left operand: the repair of the root keeps the order and yields a canonical tree. */
  lemma {:induction false} RepairTop(op: Tag, left: Tree, right: Tree)
    requires InTable(op.kind) && Canonical(left) && Canonical(right) && FitsLeft(left, op.kind)
    ensures var r := Fix(Node(op, [left, right]));
            && Canonical(r) && r.IsBin()
            && InOrder(r) == InOrder(left) + [Operator(op.kind)] + InOrder(right)
            && (r.tag == op || (right.IsBin() && r.tag == right.tag))
    decreases right
  {
    FixPair(op, left, right);
    var u := Node(op, [left, right]);
    if right.IsBin() && (right.Prec() < Tightness(op.kind) || (right.Prec() == Tightness(op.kind) && LeftAssoc(op.kind))) {
      var b, c := right.kids[0], right.kids[1];
      RepairTop(op, left, b);
      var newLeft := Fix(Node(op, [left, b]));
      if right.Prec() == Tightness(op.kind) {
        SameTightness(op.kind, right.tag.kind);
        assert Rotated(u) == Node(op, [newLeft, c]);
      } else {
        assert Rotated(u) == Node(right.tag, [newLeft, c]);
      }
      assert InOrder(left) + [Operator(op.kind)] + InOrder(b) + [Operator(right.tag.kind)] + InOrder(c)
          == InOrder(left) + [Operator(op.kind)] + (InOrder(b) + [Operator(right.tag.kind)] + InOrder(c));
    } else {
      assert Rotated(u) == u;
    }
  }

  /** Every left operand binds at least as tightly as its operator allows, once it is repaired itself. */
  predicate Leaning(t: Tree) {
    && (forall k | k in t.kids :: Leaning(k))
    && (t.IsBin() ==> FitsLeft(Fix(t.kids[0]), t.tag.kind))
  }

  /** The repair keeps the operands and operators in order and makes the tree canonical. */
  lemma {:induction false} Repair(t: Tree)
    requires Leaning(t)
    ensures Canonical(Fix(t)) && InOrder(Fix(t)) == Flat(t)
    ensures t.IsBin() ==> Fix(t).IsBin()
    decreases t
  {
    RepairAll(t.kids);
    if t.IsBin() {
      var left, right := t.kids[0], t.kids[1];
      Repair(left);
      Repair(right);
      FixOfTwo(t);
      TopRotated(Node(t.tag, [Fix(left), Fix(right)]));
      FixPair(t.tag, Fix(left), Fix(right));
      RepairTop(t.tag, Fix(left), Fix(right));
    }
  }

  lemma FixAllPair(left: Tree, right: Tree)
    ensures FixAll([left, right]) == [Fix(left), Fix(right)]
  {
    assert [left, right][1..] == [right] && [right][1..] == [];
  }

  lemma {:induction false} RepairAll(ts: seq<Tree>)
    requires forall t | t in ts :: Leaning(t)
    ensures forall r | r in FixAll(ts) :: Canonical(r)
    decreases ts
  {
    if ts != [] {
      Repair(ts[0]);
      RepairAll(ts[1..]);
    }
  }

  /** Repairing twice is repairing once. */
  lemma RepairIdempotent(t: Tree)
    requires Leaning(t)
    ensures Fix(Fix(t)) == Fix(t)
  {
    Repair(t);
    CanonicalUnchanged(Fix(t));
  }

  lemma {:induction false} CanonicalLeans(t: Tree)
    requires Canonical(t)
    ensures Leaning(t)
    decreases t
  {
    forall k | k in t.kids
      ensures Leaning(k)
    {
      CanonicalLeans(k);
    }
    if t.IsBin() {
      CanonicalUnchanged(t.kids[0]);
    }
  }

  // --------------------------------- an independent parser: split at the loosest

  /** Operands and operators alternate, starting and ending with an operand. */
  predicate Alternates(items: seq<Item>) {
    && |items| % 2 == 1
    && forall i | 0 <= i < |items| ::
         if i % 2 == 0 then items[i].Operand? && !items[i].t.IsBin() else items[i].Operator? && InTable(items[i].kind)
  }

  /** Among the operators below `n`, `k` is the loosest, and the first or last such as the table says. */
  predicate Splits(items: seq<Item>, n: nat, k: nat)
    requires Alternates(items) && n <= |items|
  {
    && k < n && k % 2 == 1
    && (forall j | 0 <= j < k && j % 2 == 1 :: ComesUnder(items[j].kind, items[k].kind, true))
    && (forall j | k < j < n && j % 2 == 1 :: ComesUnder(items[j].kind, items[k].kind, false))
  }

  /** Operator `a`, to the left or right of `b`, belongs to an operand of `b`. */
  predicate ComesUnder(a: Kind, b: Kind, onLeft: bool) {
    Tightness(a) > Tightness(b) || (Tightness(a) == Tightness(b) && LeftAssoc(b) == onLeft)
  }

  function SplitPoint(items: seq<Item>, n: nat): (k: nat)
    requires Alternates(items) && 3 <= n <= |items| && n % 2 == 1
    ensures Splits(items, n, k)
  {
    if n == 3 then 1
    else
      var k := SplitPoint(items, n - 2);
      var a, b := items[n - 2].kind, items[k].kind;
      if Tightness(a) < Tightness(b) || (Tightness(a) == Tightness(b) && LeftAssoc(b)) then n - 2 else k
  }

  function Plain(k: Kind): Tag {
    Tag(k, "", "")
  }

  lemma AlternatesAround(items: seq<Item>, k: nat)
    requires Alternates(items) && k < |items| && k % 2 == 1
    ensures Alternates(items[..k]) && Alternates(items[k + 1..])
  {
    var after := items[k + 1..];
    forall i | 0 <= i < |after|
      ensures if i % 2 == 0 then after[i].Operand? && !after[i].t.IsBin() else after[i].Operator? && InTable(after[i].kind)
    {
      assert after[i] == items[k + 1 + i] && (k + 1 + i) % 2 == i % 2;
    }
  }

  /** Parses a flat expression by splitting it at its loosest operator. */
  function Parse(items: seq<Item>): Tree
    requires Alternates(items)
    decreases |items|
  {
    if |items| == 1 then items[0].t
    else
      var k := SplitPoint(items, |items|);
      AlternatesAround(items, k);
      Node(Plain(items[k].kind), [Parse(items[..k]), Parse(items[k + 1..])])
  }

  /** Forgets the tokens and code generators of the operators; their kinds and the operands stay. */
  function Erase(t: Tree): Tree {
    if t.IsBin() then Node(Plain(t.tag.kind), [Erase(t.kids[0]), Erase(t.kids[1])]) else t
  }

  lemma {:induction false} InOrderAlternates(t: Tree)
    ensures Alternates(InOrder(t))
    decreases t
  {
    if t.IsBin() {
      InOrderAlternates(t.kids[0]);
      InOrderAlternates(t.kids[1]);
    }
  }

  /** A canonical tree's root is as loose as any operator below it. */
  lemma {:induction false} RootIsLoosest(t: Tree, i: nat)
    requires Canonical(t) && i < |InOrder(t)| && i % 2 == 1
    ensures t.IsBin() && InOrder(t)[i].Operator? && Tightness(InOrder(t)[i].kind) >= t.Prec()
    decreases t
  {
    InOrderAlternates(t);
    if t.IsBin() {
      var n := |InOrder(t.kids[0])|;
      InOrderAlternates(t.kids[0]);
      if i < n {
        RootIsLoosest(t.kids[0], i);
      } else if i > n {
        assert InOrder(t)[i] == InOrder(t.kids[1])[i - n - 1];
        RootIsLoosest(t.kids[1], i - n - 1);
      }
    }
  }

  /** The root of a canonical tree is where its flat form splits. */
  lemma {:induction false} RootSplits(t: Tree)
    requires Canonical(t) && t.IsBin() && Alternates(InOrder(t))
    ensures Splits(InOrder(t), |InOrder(t)|, |InOrder(t.kids[0])|)
  {
    var items, n := InOrder(t), |InOrder(t.kids[0])|;
    InOrderAlternates(t.kids[0]);
    forall j | 0 <= j < n && j % 2 == 1
      ensures ComesUnder(items[j].kind, items[n].kind, true)
    {
      RootIsLoosest(t.kids[0], j);
      assert items[j] == InOrder(t.kids[0])[j];
    }
    forall j | n < j < |items| && j % 2 == 1
      ensures ComesUnder(items[j].kind, items[n].kind, false)
    {
      RootIsLoosest(t.kids[1], j - n - 1);
      assert items[j] == InOrder(t.kids[1])[j - n - 1];
    }
  }

  lemma SplitsOnce(items: seq<Item>, n: nat, j: nat, k: nat)
    requires Alternates(items) && n <= |items| && Splits(items, n, j) && Splits(items, n, k)
    ensures j == k
  {
    if Tightness(items[j].kind) == Tightness(items[k].kind) {
      SameTightness(items[j].kind, items[k].kind);
    }
  }

  /** There is only one canonical tree with a given flat form, and `Parse` finds it. */
  lemma {:induction false} CanonicalIsParse(t: Tree)
    requires Canonical(t)
    ensures Alternates(InOrder(t)) && Parse(InOrder(t)) == Erase(t)
    decreases t
  {
    InOrderAlternates(t);
    if t.IsBin() {
      var items, n := InOrder(t), |InOrder(t.kids[0])|;
      RootSplits(t);
      SplitsOnce(items, |items|, SplitPoint(items, |items|), n);
      assert items[..n] == InOrder(t.kids[0]) && items[n + 1..] == InOrder(t.kids[1]);
      CanonicalIsParse(t.kids[0]);
      CanonicalIsParse(t.kids[1]);
    }
  }

  lemma CanonicalUnique(a: Tree, b: Tree)
    requires Canonical(a) && Canonical(b) && InOrder(a) == InOrder(b)
    ensures Erase(a) == Erase(b)
  {
    CanonicalIsParse(a);
    CanonicalIsParse(b);
  }

  /** The repair of a leaning tree is the split-at-the-loosest parse of its flat form. */
  lemma RepairIsParse(t: Tree)
    requires Leaning(t)
    ensures Alternates(Flat(t)) && Erase(Fix(t)) == Parse(Flat(t))
  {
    Repair(t);
    CanonicalIsParse(Fix(t));
  }

  // ---------------------------------- operands that are looser than their operator

  /**
   Going down the right edge of `left` as long as it is looser than `op`, some
   operator there is tighter than `right`.  The stale child pointers then make
   the third step work on the wrong operator.
   */
  predicate Clash(op: Kind, left: Tree, right: Tree)
    decreases left
  {
    && left.IsBin() && right.IsBin() && left.Prec() < Tightness(op)
    && (right.Prec() < left.Prec() || Clash(op, left.kids[1], right))
  }

  /** The sum of all operators' precedences; a wrong rotation lowers it. */
  function Weight(items: seq<Item>): nat {
    if items == [] then 0
    else (if items[0].Operator? then Tightness(items[0].kind) else 0) + Weight(items[1..])
  }

  lemma {:induction false} WeightAppend(a: seq<Item>, b: seq<Item>)
    ensures Weight(a + b) == Weight(a) + Weight(b)
  {
    if a == [] {
      assert a + b == b;
    } else {
      assert (a + b)[1..] == a[1..] + b;
      WeightAppend(a[1..], b);
    }
  }

  lemma WeightOfBin(tag: Tag, left: Tree, right: Tree)
    requires InTable(tag.kind)
    ensures Weight(InOrder(Node(tag, [left, right])))
         == Weight(InOrder(left)) + Tightness(tag.kind) + Weight(InOrder(right))
  {
    var o := Operator(tag.kind);
    WeightAppend(InOrder(left), [o]);
    WeightAppend(InOrder(left) + [o], InOrder(right));
    assert Weight([o]) == Tightness(tag.kind) + Weight([]);
  }

  /**
   For repaired operands of any shape: the repair of an operator keeps the
   order of operands and operators if and only if the operands do not clash;
   if they clash, the operator itself is lost and a looser one repeated.
   */
  lemma {:induction false} OrderKept(op: Tag, left: Tree, right: Tree)
    requires InTable(op.kind) && Canonical(left) && Canonical(right)
    ensures var kept, now := InOrder(left) + [Operator(op.kind)] + InOrder(right), InOrder(Fix(Node(op, [left, right])));
            && (now == kept <==> !Clash(op.kind, left, right))
            && Weight(now) <= Weight(kept)
            && (Clash(op.kind, left, right) ==> Weight(now) < Weight(kept))
    decreases Size(left) + Size(right)
  {
    FixPair(op, left, right);
    var u := Node(op, [left, right]);
    WeightOfBin(op, left, right);
    if left.IsBin() && left.Prec() < Tightness(op.kind) {
      OrderOverLooser(op, left, right);
    } else if right.IsBin() && (right.Prec() < Tightness(op.kind) || (LeftAssoc(op.kind) && right.tag.kind == op.kind)) {
      var b, c := right.kids[0], right.kids[1];
      assert right == Node(right.tag, [b, c]);
      SizeOfTwo(right.tag, b, c);
      OrderKept(op, left, b);
      MovedLeft(InOrder(left), Operator(op.kind), InOrder(b), Operator(right.tag.kind), InOrder(c));
    } else {
      assert Rotated(u) == u;
    }
  }

  lemma MovedLeft<T>(a: seq<T>, x: T, b: seq<T>, y: T, c: seq<T>)
    ensures (a + [x] + b) + [y] + c == a + [x] + (b + [y] + c)
  {
  }

  lemma {:induction false} OrderOverLooser(op: Tag, left: Tree, right: Tree)
    requires InTable(op.kind) && Canonical(left) && Canonical(right) && left.IsBin() && left.Prec() < Tightness(op.kind)
    ensures var kept, now := InOrder(left) + [Operator(op.kind)] + InOrder(right), InOrder(Rotated(Node(op, [left, right])));
            && (now == kept <==> !Clash(op.kind, left, right))
            && Weight(now) <= Weight(kept)
            && (Clash(op.kind, left, right) ==> Weight(now) < Weight(kept))
    decreases Size(left) + Size(right), 0
  {
    WeightOfBin(op, left, right);
    if right.IsBin() && right.Prec() < left.Prec() {
      ClashesHere(op, left, right);
    } else {
      var a, b := left.kids[0], left.kids[1];
      assert left == Node(left.tag, [a, b]);
      SizeOfTwo(left.tag, a, b);
      OrderKept(op, b, right);
      RotatedOnce(op, left, right);
      MovedRight(InOrder(a), Operator(left.tag.kind), InOrder(b), Operator(op.kind), InOrder(right), InOrder(Fix(Node(op, [b, right]))));
      WeightOfBin(left.tag, a, Fix(Node(op, [b, right])));
      WeightOfBin(left.tag, a, b);
      WeightOfBin(op, b, right);
    }
  }

  lemma RotatedOnce(op: Tag, left: Tree, right: Tree)
    requires InTable(op.kind) && Canonical(left) && Canonical(right) && left.IsBin() && left.Prec() < Tightness(op.kind)
    requires right.IsBin() ==> right.Prec() >= left.Prec()
    ensures Rotated(Node(op, [left, right])) == Node(left.tag, [left.kids[0], Fix(Node(op, [left.kids[1], right]))])
  {
  }

  lemma MovedRight<T>(a: seq<T>, x: T, b: seq<T>, y: T, c: seq<T>, d: seq<T>)
    ensures a + [x] + d == a + [x] + b + [y] + c <==> d == b + [y] + c
  {
    assert a + [x] + b + [y] + c == (a + [x]) + (b + [y] + c);
    SameStart(a + [x], d, b + [y] + c);
  }

  lemma SameStart<T>(a: seq<T>, b: seq<T>, c: seq<T>)
    ensures a + b == a + c <==> b == c
  {
    assert b == (a + b)[|a|..] && c == (a + c)[|a|..];
  }

  /** The third step after the second: the weight falls by the difference of the two operators. */
  lemma {:induction false} ClashesHere(op: Tag, left: Tree, right: Tree)
    requires InTable(op.kind) && Canonical(left) && Canonical(right)
    requires left.IsBin() && left.Prec() < Tightness(op.kind) && right.IsBin() && right.Prec() < left.Prec()
    ensures Weight(InOrder(Rotated(Node(op, [left, right]))))
         <= Weight(InOrder(left)) + left.Prec() + Weight(InOrder(right))
    decreases Size(left) + Size(right), -1
  {
    var b, c := right.kids[0], right.kids[1];
    assert right == Node(right.tag, [b, c]);
    SizeOfTwo(right.tag, b, c);
    OrderKept(left.tag, left, b);
    var newLeft := Fix(Node(left.tag, [left, b]));
    assert Rotated(Node(op, [left, right])) == Node(right.tag, [newLeft, c]);
    WeightOfBin(right.tag, newLeft, c);
    WeightOfBin(right.tag, b, c);
    WeightOfBin(left.tag, left, b);
  }

  // ------------------------------------------------------------------ tokens

  /** The operators' tags from left to right. */
  function Tags(t: Tree): seq<Tag> {
    if t.IsBin() then Tags(t.kids[0]) + [t.tag] + Tags(t.kids[1]) else []
  }

  /** Along the path that the repair rotates, a left-nesting operator has another tag than `op`. */
  predicate Merges(op: Tag, right: Tree)
    decreases right
  {
    && right.IsBin()
    && if right.Prec() < Tightness(op.kind) then Merges(op, right.kids[0])
       else LeftAssoc(op.kind) && right.tag.kind == op.kind && (right.tag != op || Merges(op, right.kids[0]))
  }

  lemma SameAround<T>(a: seq<T>, b: seq<T>, x: T, y: T, c: seq<T>)
    requires |a| == |b|
    ensures a + [x] + c == b + [y] + c <==> a == b && x == y
  {
    var l, r := a + [x] + c, b + [y] + c;
    assert l[|a|] == x && r[|a|] == y;
    assert l[..|a|] == a && r[..|a|] == b;
  }

  lemma Regroup<T>(a: seq<T>, b: seq<T>, x: seq<T>, c: seq<T>)
    ensures a + (b + x + c) == a + b + x + c
  {
  }

  /**
   When `a . (b . c)` becomes `(a . b) . c`, both nodes end up with the first
   operator's token and code generator: for a left operand that is not looser,
   exactly then are tags not kept.
   */
  lemma {:induction false} TagsKept(op: Tag, left: Tree, right: Tree)
    requires InTable(op.kind) && Canonical(left) && Canonical(right) && (left.IsBin() ==> left.Prec() >= Tightness(op.kind))
    ensures var kept, now := Tags(left) + [op] + Tags(right), Tags(Fix(Node(op, [left, right])));
            |now| == |kept| && (now == kept <==> !Merges(op, right))
    decreases right
  {
    FixPair(op, left, right);
    var u := Node(op, [left, right]);
    if right.IsBin() && (right.Prec() < Tightness(op.kind) || (LeftAssoc(op.kind) && right.tag.kind == op.kind)) {
      var b, c := right.kids[0], right.kids[1];
      TagsKept(op, left, b);
      var newLeft := Fix(Node(op, [left, b]));
      var top := if right.Prec() < Tightness(op.kind) then right.tag else op;
      assert Rotated(u) == Node(top, [newLeft, c]);
      var want := Tags(left) + [op] + Tags(b);
      Regroup(Tags(left) + [op], Tags(b), [right.tag], Tags(c));
      SameAround(Tags(newLeft), want, top, right.tag, Tags(c));
    } else {
      assert Rotated(u) == u;
    }
  }
}
