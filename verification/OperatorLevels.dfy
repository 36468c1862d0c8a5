/**
 The language's operators, written out from the tightest to the loosest, and
 what the repair does with any two of them.
 */
module OperatorLevels {
  import opened Precedence
  import opened BracketAccess

  /** Operators of one set are equally tight. */
  function Levels(): seq<set<Kind>> {
    [ {OperatorOverload}, {MemberAccess}, {AccessOperation}, {ParenTerm}, {AddressOf}, {Times, Divide}, {Plus, Minus},
      {CompareEqual, CompareNot, CompareLess, CompareLessEqual, CompareGreater, CompareGreaterEqual}, {Range}, {Pipe} ]
  }

  /** An operand that the repair leaves alone. */
  predicate Plainly(t: Tree) {
    !t.IsBin() && Canonical(t)
  }

  function Two(k: Kind, l: Tree, r: Tree): Tree {
    Node(Plain(k), [l, r])
  }

  lemma LevelNumber(i: nat, k: Kind)
    requires i < 10 && k in Levels()[i]
    ensures InTable(k) && Tightness(k) == [100, 90, 80, 70, 50, 40, 30, 20, 15, 10][i]
  {
  }

  lemma Descending(i: nat, j: nat)
    requires i < j < 10
    ensures var numbers := [100, 90, 80, 70, 50, 40, 30, 20, 15, 10]; numbers[i] > numbers[j]
  {
  }

  /** Every operator is on one level, and nothing else is. */
  lemma EveryOperator(k: Kind)
    ensures InTable(k) <==> exists i | 0 <= i < 10 :: k in Levels()[i]
    ensures forall i, j | 0 <= i < j < 10 && k in Levels()[i] :: k !in Levels()[j]
  {
    forall i, j | 0 <= i < j < 10 && k in Levels()[i]
      ensures k !in Levels()[j]
    {
      LevelNumber(i, k);
      Descending(i, j);
      if k in Levels()[j] {
        LevelNumber(j, k);
      }
    }
    forall i | 0 <= i < 10 && k in Levels()[i]
      ensures InTable(k)
    {
      LevelNumber(i, k);
    }
    if InTable(k) {
      var i := LevelOf(k);
    }
  }

  lemma LevelOf(k: Kind) returns (i: nat)
    requires InTable(k)
    ensures i < 10 && k in Levels()[i]
  {
    i := match k
      case OperatorOverload => 0
      case MemberAccess => 1
      case AccessOperation => 2
      case ParenTerm => 3
      case AddressOf => 4
      case Times => 5
      case Divide => 5
      case Plus => 6
      case Minus => 6
      case CompareEqual => 7
      case CompareNot => 7
      case CompareLess => 7
      case CompareLessEqual => 7
      case CompareGreater => 7
      case CompareGreaterEqual => 7
      case Range => 8
      case Pipe => 9;
  }

  /** `a k b m c` with a tighter `k` becomes `(a k b) m c`; with the looser one first, `a m (b k c)` stays. */
  lemma TighterFirst(i: nat, j: nat, k: Kind, m: Kind, a: Tree, b: Tree, c: Tree)
    requires i < j < 10 && k in Levels()[i] && m in Levels()[j] && Plainly(a) && Plainly(b) && Plainly(c)
    ensures Fix(Two(k, a, Two(m, b, c))) == Two(m, Two(k, a, b), c)
    ensures Fix(Two(m, a, Two(k, b, c))) == Two(m, a, Two(k, b, c))
  {
    LevelNumber(i, k);
    LevelNumber(j, m);
    Descending(i, j);
    Rises(k, m, a, b, c);
    Stays(m, k, a, b, c);
  }

  lemma PairCanonical(k: Kind, l: Tree, r: Tree)
    requires InTable(k) && Plainly(l) && Plainly(r)
    ensures Canonical(Two(k, l, r)) && Fix(Two(k, l, r)) == Two(k, l, r)
  {
    assert Two(k, l, r).kids == [l, r];
    CanonicalUnchanged(Two(k, l, r));
  }

  lemma Rises(k: Kind, m: Kind, a: Tree, b: Tree, c: Tree)
    requires InTable(k) && InTable(m) && Tightness(k) > Tightness(m) && Plainly(a) && Plainly(b) && Plainly(c)
    ensures Fix(Two(k, a, Two(m, b, c))) == Two(m, Two(k, a, b), c)
  {
    PairCanonical(m, b, c);
    PairCanonical(k, a, b);
    FixPair(Plain(k), a, Two(m, b, c));
  }

  lemma Stays(m: Kind, k: Kind, a: Tree, b: Tree, c: Tree)
    requires InTable(k) && InTable(m) && FitsRight(Two(k, b, c), m) && Plainly(a) && Plainly(b) && Plainly(c)
    ensures Fix(Two(m, a, Two(k, b, c))) == Two(m, a, Two(k, b, c))
  {
    PairCanonical(k, b, c);
    var t := Two(m, a, Two(k, b, c));
    assert t.kids == [a, Two(k, b, c)];
    CanonicalUnchanged(t);
  }

  /** On one level, member accesses, bracket accesses and pipes nest to the left, everything else to the right. */
  lemma OneLevel(i: nat, k: Kind, m: Kind, a: Tree, b: Tree, c: Tree)
    requires i < 10 && k in Levels()[i] && m in Levels()[i] && Plainly(a) && Plainly(b) && Plainly(c)
    ensures Fix(Two(k, a, Two(m, b, c)))
         == if k in {MemberAccess, AccessOperation, Pipe} then Two(m, Two(k, a, b), c) else Two(k, a, Two(m, b, c))
  {
    LevelNumber(i, k);
    LevelNumber(i, m);
    PairCanonical(m, b, c);
    PairCanonical(k, a, b);
    if k in {MemberAccess, AccessOperation, Pipe} {
      SameTightness(k, m);
      FixPair(Plain(k), a, Two(m, b, c));
    } else {
      Stays(k, m, a, b, c);
    }
  }

  /** As the parser nests it, `a * b + c` becomes `(a * b) + c`, and `a + b * c` stays `a + (b * c)`; likewise for any two levels. */
  lemma WrittenOut(i: nat, j: nat, k: Kind, m: Kind, a: Tree, b: Tree, c: Tree)
    requires i < j < 10 && k in Levels()[i] && m in Levels()[j] && Plainly(a) && Plainly(b) && Plainly(c)
    ensures Fix(Build(a, [Infix(k, b), Infix(m, c)])) == Two(m, Two(k, a, b), c)
    ensures Fix(Build(a, [Infix(m, b), Infix(k, c)])) == Two(m, a, Two(k, b, c))
  {
    TighterFirst(i, j, k, m, a, b, c);
    BuildTwo(a, k, b, m, c);
    BuildTwo(a, m, b, k, c);
  }

  lemma BuildTwo(a: Tree, k: Kind, b: Tree, m: Kind, c: Tree)
    ensures Build(a, [Infix(k, b), Infix(m, c)]) == Two(k, a, Two(m, b, c))
  {
    assert [Infix(k, b), Infix(m, c)][1..] == [Infix(m, c)] && [Infix(m, c)][1..] == [];
    assert Build(c, []) == c;
    assert Build(b, [Infix(m, c)]) == Two(m, b, c);
  }
}
