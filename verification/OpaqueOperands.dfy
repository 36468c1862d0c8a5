/**
 Whole expressions, whatever stands inside of their operands: the repair looks
 at operators alone.  An expression in parentheses may itself be changed, more
 than once when rotations share it; operands are compared by what they settle to.
 */
module OpaqueOperands {
  import opened Precedence
  import opened RepairTwice
  import opened BracketAccess

  /** An operand after as many repairs as make a difference. */
  function Settle(t: Tree): Tree {
    Fix(Fix(t))
  }

  function Leaf(): Tree {
    Node(Tag(Other("operand"), "", ""), [])
  }

  /** The operators of a tree, above operands that all look the same. */
  function Blind(t: Tree): (b: Tree)
    ensures b.IsBin() == t.IsBin() && (t.IsBin() ==> b.tag == t.tag)
  {
    if t.IsBin() then Node(t.tag, [Blind(t.kids[0]), Blind(t.kids[1])]) else Leaf()
  }

  /** The operands from left to right. */
  function Operands(t: Tree): seq<Tree> {
    if t.IsBin() then Operands(t.kids[0]) + Operands(t.kids[1]) else [Settle(t)]
  }

  lemma OperandsOfTwo(op: Tag, l: Tree, r: Tree)
    requires InTable(op.kind)
    ensures Operands(Node(op, [l, r])) == Operands(l) + Operands(r)
  {
  }

  lemma BlindOfTwo(op: Tag, l: Tree, r: Tree)
    requires InTable(op.kind)
    ensures Blind(Node(op, [l, r])) == Node(op, [Blind(l), Blind(r)])
  {
  }

  // ------------------------------------------ the repair keeps operands in order

  predicate InStep(v: View) {
    v.Sized() && v.node.IsBin() && Operands(v.node) == Operands(v.left) + Operands(v.right)
  }

  /** Operators may be lost, operands are not, and they stay in order. */
  lemma {:induction false} FixOperands(t: Tree)
    ensures Operands(Fix(t)) == Operands(t)
    decreases Size(t), 2
  {
    if t.IsBin() {
      SizeOfBoth(t);
      FixOperands(t.kids[0]);
      FixOperands(t.kids[1]);
      FixOfTwo(t);
      TopOperands(t.tag, Fix(t.kids[0]), Fix(t.kids[1]));
    } else {
      OpaqueStays(t);
      RepairedTwice(t);
    }
  }

  lemma {:induction false} TopOperands(op: Tag, l: Tree, r: Tree)
    requires InTable(op.kind)
    ensures Operands(FixTop(Node(op, [l, r]))) == Operands(l) + Operands(r)
    decreases Size(l) + Size(r), 5
  {
    SizeOfTwo(op, l, r);
    OperandsOfTwo(op, l, r);
    var v := View(Node(op, [l, r]), l, r);
    SameOperands(v);
    LeftOperands(SameOperator(v));
    RightOperands(LooserLeft(SameOperator(v)));
  }

  lemma {:induction false} NewOperands(op: Tag, l: Tree, r: Tree)
    requires InTable(op.kind)
    ensures Operands(Fix(Node(op, [l, r]))) == Operands(l) + Operands(r)
    decreases Size(l) + Size(r) + 1, 3
  {
    SizeOfTwo(op, l, r);
    FixOperands(Node(op, [l, r]));
    OperandsOfTwo(op, l, r);
  }

  lemma {:induction false} SameOperands(v: View)
    requires InStep(v)
    ensures var w := SameOperator(v);
            InStep(w) && Operands(w.left) == Operands(v.left) && Operands(w.right) == Operands(v.right)
    decreases Size(v.left) + Size(v.right), 4
  {
    var op, right := v.node.tag, v.right;
    if SameRight(op, right) {
      SizeOfBoth(right);
      var b, c := right.kids[0], right.kids[1];
      NewOperands(op, v.left, b);
      FixOperands(v.left);
      FixOperands(b);
      OperandsOfTwo(right.tag, Fix(b), c);
      OperandsOfTwo(op, Fix(Node(op, [v.left, b])), c);
      assert Operands(v.left) + Operands(b) + Operands(c) == Operands(v.left) + (Operands(b) + Operands(c));
    }
  }

  lemma {:induction false} LeftOperands(v: View)
    requires InStep(v)
    ensures var w := LooserLeft(v);
            InStep(w) && Operands(w.left) == Operands(v.left) && Operands(w.right) == Operands(v.right)
    decreases Size(v.left) + Size(v.right), 4
  {
    var left := v.left;
    if left.IsBin() && v.node.Prec() > left.Prec() {
      SizeOfBoth(left);
      var a, b := left.kids[0], left.kids[1];
      NewOperands(v.node.tag, b, v.right);
      FixOperands(b);
      FixOperands(v.right);
      OperandsOfTwo(left.tag, a, Fix(b));
      OperandsOfTwo(left.tag, a, Fix(Node(v.node.tag, [b, v.right])));
      assert Operands(a) + (Operands(b) + Operands(v.right)) == Operands(a) + Operands(b) + Operands(v.right);
    }
  }

  lemma {:induction false} RightOperands(v: View)
    requires InStep(v)
    ensures Operands(LooserRight(v)) == Operands(v.left) + Operands(v.right)
    decreases Size(v.left) + Size(v.right), 4
  {
    var right := v.right;
    if right.IsBin() && v.node.Prec() > right.Prec() {
      SizeOfBoth(right);
      var b, c := right.kids[0], right.kids[1];
      NewOperands(v.node.tag, v.left, b);
      OperandsOfTwo(right.tag, Fix(Node(v.node.tag, [v.left, b])), c);
      assert Operands(v.left) + Operands(b) + Operands(c) == Operands(v.left) + (Operands(b) + Operands(c));
    }
  }

  // --------------------------------------------- the repair looks at operators alone

  function BlindView(v: View): View {
    View(Blind(v.node), Blind(v.left), Blind(v.right))
  }

  lemma {:induction false} FixBlind(t: Tree)
    ensures Fix(Blind(t)) == Blind(Fix(t))
    decreases Size(t), 2
  {
    if t.IsBin() {
      SizeOfBoth(t);
      FixBlind(t.kids[0]);
      FixBlind(t.kids[1]);
      FixOfTwo(t);
      FixOfTwo(Blind(t));
      TopBlind(t.tag, Fix(t.kids[0]), Fix(t.kids[1]));
    } else {
      OpaqueStays(t);
    }
  }

  lemma {:induction false} TopBlind(op: Tag, l: Tree, r: Tree)
    requires InTable(op.kind)
    ensures FixTop(Node(op, [Blind(l), Blind(r)])) == Blind(FixTop(Node(op, [l, r])))
    decreases Size(l) + Size(r), 5
  {
    SizeOfTwo(op, l, r);
    SizeOfTwo(op, Blind(l), Blind(r));
    BlindOfTwo(op, l, r);
    var v := View(Node(op, [l, r]), l, r);
    SameBlind(v);
    LeftBlind(SameOperator(v));
    RightBlind(LooserLeft(SameOperator(v)));
  }

  lemma {:induction false} NewBlind(op: Tag, l: Tree, r: Tree)
    requires InTable(op.kind)
    ensures Fix(Node(op, [Blind(l), Blind(r)])) == Blind(Fix(Node(op, [l, r])))
    decreases Size(l) + Size(r) + 1, 3
  {
    SizeOfTwo(op, l, r);
    BlindOfTwo(op, l, r);
    FixBlind(Node(op, [l, r]));
  }

  predicate Rooted(v: View) {
    v.Sized() && v.node.IsBin() && BlindView(v).Sized()
  }

  lemma SameRotated(v: View)
    requires v.Sized() && SameRight(v.node.tag, v.right)
    ensures var op, b, c := v.node.tag, v.right.kids[0], v.right.kids[1];
            SameOperator(v) == View(Node(op, [Fix(Node(op, [v.left, b])), c]), Fix(v.left), Node(v.right.tag, [Fix(b), c]))
  {
  }

  lemma LeftRotated(v: View)
    requires v.Sized() && v.left.IsBin() && v.node.Prec() > v.left.Prec()
    ensures var op, top, a, b := v.node.tag, v.left.tag, v.left.kids[0], v.left.kids[1];
            LooserLeft(v) == View(Node(top, [a, Fix(Node(op, [b, v.right]))]), Node(top, [a, Fix(b)]), Fix(v.right))
  {
  }

  lemma {:induction false} SameBlind(v: View)
    requires Rooted(v)
    ensures Rooted(SameOperator(v)) && SameOperator(BlindView(v)) == BlindView(SameOperator(v))
    decreases Size(v.left) + Size(v.right), 4
  {
    var op, right := v.node.tag, v.right;
    if SameRight(op, right) {
      SizeOfBoth(right);
      var b, c := right.kids[0], right.kids[1];
      NewBlind(op, v.left, b);
      FixBlind(v.left);
      FixBlind(b);
      BlindOfTwo(right.tag, Fix(b), c);
      BlindOfTwo(op, Fix(Node(op, [v.left, b])), c);
      SameRotated(v);
      SameRotated(BlindView(v));
    }
  }

  lemma {:induction false} LeftBlind(v: View)
    requires Rooted(v)
    ensures Rooted(LooserLeft(v)) && LooserLeft(BlindView(v)) == BlindView(LooserLeft(v))
    decreases Size(v.left) + Size(v.right), 4
  {
    var left := v.left;
    if left.IsBin() && v.node.Prec() > left.Prec() {
      SizeOfBoth(left);
      var a, b := left.kids[0], left.kids[1];
      NewBlind(v.node.tag, b, v.right);
      FixBlind(b);
      FixBlind(v.right);
      BlindOfTwo(left.tag, a, Fix(b));
      BlindOfTwo(left.tag, a, Fix(Node(v.node.tag, [b, v.right])));
      LeftRotated(v);
      LeftRotated(BlindView(v));
    }
  }

  lemma {:induction false} RightBlind(v: View)
    requires Rooted(v)
    ensures LooserRight(BlindView(v)) == Blind(LooserRight(v))
    decreases Size(v.left) + Size(v.right), 4
  {
    var right := v.right;
    if right.IsBin() && v.node.Prec() > right.Prec() {
      SizeOfBoth(right);
      var b, c := right.kids[0], right.kids[1];
      NewBlind(v.node.tag, v.left, b);
      BlindOfTwo(right.tag, Fix(Node(v.node.tag, [v.left, b])), c);
    }
  }

  // ----------------------------------------------------------- text and operands

  /** A tree as it is written, with its operands settled. */
  function Reading(t: Tree): seq<Mark> {
    if !t.IsBin() then [It(Operand(Settle(t)))]
    else if t.tag.kind == AccessOperation then Reading(t.kids[0]) + [Open] + Reading(t.kids[1]) + [Close]
    else Reading(t.kids[0]) + [It(Operator(t.tag.kind))] + Reading(t.kids[1])
  }

  function BlindMark(m: Mark): Mark {
    if m.It? && m.item.Operand? then It(Operand(Leaf())) else m
  }

  function BlindMarks(marks: seq<Mark>): seq<Mark> {
    seq(|marks|, i requires 0 <= i < |marks| => BlindMark(marks[i]))
  }

  function OperandsIn(marks: seq<Mark>): seq<Tree> {
    if marks == [] then []
    else (if marks[0].It? && marks[0].item.Operand? then [marks[0].item.t] else []) + OperandsIn(marks[1..])
  }

  lemma MarksAppend(a: seq<Mark>, b: seq<Mark>)
    ensures BlindMarks(a + b) == BlindMarks(a) + BlindMarks(b)
  {
  }

  lemma {:induction false} OperandsAppend(a: seq<Mark>, b: seq<Mark>)
    ensures OperandsIn(a + b) == OperandsIn(a) + OperandsIn(b)
    decreases |a|
  {
    if a == [] {
      assert a + b == b;
    } else {
      assert (a + b)[1..] == a[1..] + b;
      OperandsAppend(a[1..], b);
    }
  }

  lemma OneMark(m: Mark)
    ensures BlindMarks([m]) == [BlindMark(m)] && OperandsIn([m]) == if m.It? && m.item.Operand? then [m.item.t] else []
  {
    assert [m][1..] == [];
  }

  lemma MarksBefore(a: seq<Mark>, m: Mark)
    requires !(m.It? && m.item.Operand?)
    ensures BlindMarks(a + [m]) == BlindMarks(a) + [m] && OperandsIn(a + [m]) == OperandsIn(a)
  {
    MarksAppend(a, [m]);
    OperandsAppend(a, [m]);
    OneMark(m);
  }

  lemma MarksAround(a: seq<Mark>, m: Mark, b: seq<Mark>)
    requires !(m.It? && m.item.Operand?)
    ensures BlindMarks(a + [m] + b) == BlindMarks(a) + [m] + BlindMarks(b)
    ensures OperandsIn(a + [m] + b) == OperandsIn(a) + OperandsIn(b)
  {
    MarksBefore(a, m);
    MarksAppend(a + [m], b);
    OperandsAppend(a + [m], b);
  }

  lemma {:induction false} ReadingParts(t: Tree)
    ensures BlindMarks(Reading(t)) == Text(Blind(t)) && OperandsIn(Reading(t)) == Operands(t)
    decreases t
  {
    if t.IsBin() {
      var l, r := t.kids[0], t.kids[1];
      ReadingParts(l);
      ReadingParts(r);
      if t.tag.kind == AccessOperation {
        MarksAround(Reading(l), Open, Reading(r));
        MarksBefore(Reading(l) + [Open] + Reading(r), Close);
      } else {
        MarksAround(Reading(l), It(Operator(t.tag.kind)), Reading(r));
      }
    } else {
      OneMark(It(Operand(Settle(t))));
    }
  }

  /** Marks are determined by operators, brackets and the order of the operands. */
  lemma {:induction false} SameMarks(a: seq<Mark>, b: seq<Mark>)
    requires BlindMarks(a) == BlindMarks(b) && OperandsIn(a) == OperandsIn(b)
    ensures a == b
    decreases |a|
  {
    if a != [] {
      assert BlindMarks(a)[0] == BlindMarks(b)[0] && |BlindMarks(a)| == |BlindMarks(b)|;
      assert BlindMarks(a)[1..] == BlindMarks(a[1..]) && BlindMarks(b)[1..] == BlindMarks(b[1..]);
      FirstOperand(a, b);
      SameMarks(a[1..], b[1..]);
      assert a == [a[0]] + a[1..] && b == [b[0]] + b[1..];
    }
  }

  lemma FirstOperand(a: seq<Mark>, b: seq<Mark>)
    requires a != [] && b != [] && BlindMark(a[0]) == BlindMark(b[0]) && OperandsIn(a) == OperandsIn(b)
    ensures a[0] == b[0] && OperandsIn(a[1..]) == OperandsIn(b[1..])
  {
    var first := a[0].It? && a[0].item.Operand?;
    if first {
      assert OperandsIn(a)[0] == a[0].item.t && OperandsIn(b)[0] == b[0].item.t;
      assert OperandsIn(a)[1..] == OperandsIn(a[1..]) && OperandsIn(b)[1..] == OperandsIn(b[1..]);
    } else {
      assert !(b[0].It? && b[0].item.Operand?);
      assert [] + OperandsIn(a[1..]) == OperandsIn(a[1..]) && [] + OperandsIn(b[1..]) == OperandsIn(b[1..]);
    }
  }

  /** The repair keeps what is read if and only if it does so above operands that all look the same. */
  lemma ReadingBlind(t: Tree)
    ensures Reading(Fix(t)) == Reading(t) <==> Text(Fix(Blind(t))) == Text(Blind(t))
  {
    ReadingParts(t);
    ReadingParts(Fix(t));
    FixOperands(t);
    FixBlind(t);
    if Text(Fix(Blind(t))) == Text(Blind(t)) {
      SameMarks(Reading(Fix(t)), Reading(t));
    }
  }

  // ---------------------------------------------------------- whole expressions

  function BlindSuffix(s: Suffix): Suffix {
    match s
    case Infix(k, operand) => Infix(k, Blind(operand))
    case Bracket(index) => Bracket(Blind(index))
  }

  function BlindAll(rest: seq<Suffix>): (r: seq<Suffix>)
    ensures |r| == |rest|
  {
    if rest == [] then [] else [BlindSuffix(rest[0])] + BlindAll(rest[1..])
  }

  /** What the parser builds, whatever is inside of operands. */
  predicate AnyChain(rest: seq<Suffix>) {
    rest != [] ==> AnyLink(rest[0]) && AnyChain(rest[1..])
  }

  predicate AnyLink(s: Suffix) {
    match s
    case Infix(k, operand) => InTable(k) && k != AccessOperation && !operand.IsBin()
    case Bracket(index) => Parsed(Blind(index))
  }

  lemma {:induction false} BlindChain(rest: seq<Suffix>)
    requires AnyChain(rest)
    ensures Chain(BlindAll(rest))
    decreases |rest|
  {
    if rest != [] {
      BlindChain(rest[1..]);
      var all := BlindAll(rest);
      forall i | 0 <= i < |all|
        ensures Link(all[i])
      {
        if i > 0 {
          assert all[i] == BlindAll(rest[1..])[i - 1];
        }
      }
    }
  }

  lemma {:induction false} BuildBlind(leaf: Tree, rest: seq<Suffix>)
    requires AnyChain(rest)
    ensures Build(Blind(leaf), BlindAll(rest)) == Blind(Build(leaf, rest))
    decreases |rest|
  {
    if rest != [] {
      assert BlindAll(rest)[1..] == BlindAll(rest[1..]);
      if rest[0].Infix? {
        BuildBlind(rest[0].operand, rest[1..]);
        BlindOfTwo(Plain(rest[0].kind), leaf, Build(rest[0].operand, rest[1..]));
      } else {
        BuildBlind(Node(Plain(AccessOperation), [leaf, rest[0].index]), rest[1..]);
        BlindOfTwo(Plain(AccessOperation), leaf, rest[0].index);
      }
    }
  }

  lemma {:induction false} TightBlind(t: Tree)
    ensures Tight(Blind(t)) == Tight(t)
    decreases t
  {
    if t.IsBin() {
      TightBlind(t.kids[0]);
      TightBlind(t.kids[1]);
    }
  }

  lemma {:induction false} SoundBlind(afterBracket: bool, rest: seq<Suffix>)
    ensures Sound(afterBracket, BlindAll(rest)) == Sound(afterBracket, rest)
    decreases |rest|
  {
    if rest != [] {
      assert BlindAll(rest)[1..] == BlindAll(rest[1..]);
      if rest[0].Infix? {
        SoundBlind(false, rest[1..]);
      } else {
        TightBlind(rest[0].index);
        SoundBlind(true, rest[1..]);
      }
    }
  }

  /**
   Every expression that the parser builds is read after the repair as it was
   before, order and brackets, if and only if it is sound.
   */
  lemma ExpressionKept(leaf: Tree, rest: seq<Suffix>)
    requires !leaf.IsBin() && AnyChain(rest)
    ensures var t := Build(leaf, rest);
            (Reading(Fix(t)) == Reading(t) <==> Sound(false, rest)) && Operands(Fix(t)) == Operands(t)
  {
    ReadingBlind(Build(leaf, rest));
    FixOperands(Build(leaf, rest));
    BuildBlind(leaf, rest);
    BlindChain(rest);
    SoundBlind(false, rest);
    BuiltAndRepaired(Blind(leaf), BlindAll(rest));
  }
}
