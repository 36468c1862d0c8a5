/**
 The trees that the parser builds, bracket accesses included, and what the
 repair makes of them.  To the repair a bracket access is one more infix
 operator, whose right operand nothing protects.
 */
module BracketAccess {
  import opened Precedence
  import opened RepairTwice

  // ------------------------------------------------------- what the parser builds

  /** What follows an operand: an operator with its next operand, or a bracket. */
  datatype Suffix = Infix(kind: Kind, operand: Tree) | Bracket(index: Tree)

  /**
   An operator takes everything after it as its right operand.  A bracket takes
   its contents, and the access becomes the left operand of what follows.
   */
  function Build(leaf: Tree, rest: seq<Suffix>): Tree
    decreases |rest|
  {
    if rest == [] then leaf
    else if rest[0].Infix? then Node(Plain(rest[0].kind), [leaf, Build(rest[0].operand, rest[1..])])
    else Build(Node(Plain(AccessOperation), [leaf, rest[0].index]), rest[1..])
  }

  /** An operand followed by brackets; what is inside of an operand, such as a parenthesised term, leans. */
  predicate Primary(t: Tree) {
    if t.IsBin() then t.tag.kind == AccessOperation && Primary(t.kids[0]) && Parsed(t.kids[1]) else Leaning(t)
  }

  /** The shape of everything that the parser builds: left operands are operands with brackets. */
  predicate Parsed(t: Tree) {
    if t.IsBin() then Primary(t.kids[0]) && Parsed(t.kids[1]) else Leaning(t)
  }

  /** Operands are names, literals, calls and parenthesised terms; an index has been built likewise. */
  predicate Chain(rest: seq<Suffix>) {
    forall i | 0 <= i < |rest| :: Link(rest[i])
  }

  predicate Link(s: Suffix) {
    match s
    case Infix(k, operand) => InTable(k) && k != AccessOperation && !operand.IsBin() && Leaning(operand)
    case Bracket(index) => Parsed(index)
  }

  lemma {:induction false} BuildParsed(leaf: Tree, rest: seq<Suffix>)
    requires Primary(leaf) && Chain(rest)
    ensures Parsed(Build(leaf, rest))
    decreases |rest|
  {
    if rest != [] {
      assert Link(rest[0]);
      if rest[0].Infix? {
        BuildParsed(rest[0].operand, rest[1..]);
      } else {
        BuildParsed(Node(Plain(AccessOperation), [leaf, rest[0].index]), rest[1..]);
      }
    }
  }

  /** Operands and operators as they are written, without the closing brackets. */
  function Items(rest: seq<Suffix>): seq<Item> {
    if rest == [] then []
    else if rest[0].Infix? then [Operator(rest[0].kind), Operand(Fix(rest[0].operand))] + Items(rest[1..])
    else [Operator(AccessOperation)] + Flat(rest[0].index) + Items(rest[1..])
  }

  lemma {:induction false} BuildFlat(leaf: Tree, rest: seq<Suffix>)
    requires Chain(rest)
    ensures Flat(Build(leaf, rest)) == Flat(leaf) + Items(rest)
    decreases |rest|
  {
    if rest != [] {
      assert Link(rest[0]);
      if rest[0].Infix? {
        BuildFlat(rest[0].operand, rest[1..]);
        Regroup(Flat(leaf), [Operator(rest[0].kind)], [Operand(Fix(rest[0].operand))], Items(rest[1..]));
      } else {
        BuildFlat(Node(Plain(AccessOperation), [leaf, rest[0].index]), rest[1..]);
        Regroup(Flat(leaf), [Operator(AccessOperation)], Flat(rest[0].index), Items(rest[1..]));
      }
    }
  }

  // ------------------------------------------------------------- written text

  /** An item of the text, or a bracket. */
  datatype Mark = It(item: Item) | Open | Close

  /** A tree as it is written, with the insides of its operands repaired. */
  function Text(t: Tree): seq<Mark> {
    if !t.IsBin() then [It(Operand(Fix(t)))]
    else if t.tag.kind == AccessOperation then Text(t.kids[0]) + [Open] + Text(t.kids[1]) + [Close]
    else Text(t.kids[0]) + [It(Operator(t.tag.kind))] + Text(t.kids[1])
  }

  /** All operators bind tighter than a bracket access: only member accesses do. */
  predicate Tight(t: Tree) {
    t.IsBin() ==> t.Prec() > Tightness(AccessOperation) && Tight(t.kids[0]) && Tight(t.kids[1])
  }

  /** Every index is tight. */
  predicate Held(t: Tree) {
    t.IsBin() ==> Held(t.kids[0]) && if t.tag.kind == AccessOperation then Tight(t.kids[1]) else Held(t.kids[1])
  }

  /** Puts closing brackets where a looser operator, another bracket or the end follows. */
  function Delimit(items: seq<Item>, open: bool): seq<Mark> {
    if items == [] then if open then [Close] else []
    else if items[0].Operand? then [It(items[0])] + Delimit(items[1..], open)
    else if items[0].kind == AccessOperation then (if open then [Close] else []) + [Open] + Delimit(items[1..], true)
    else if open && Tightness(items[0].kind) <= Tightness(AccessOperation) then [Close, It(items[0])] + Delimit(items[1..], false)
    else [It(items[0])] + Delimit(items[1..], open)
  }

  lemma DelimitFirst(item: Item, rest: seq<Item>, open: bool)
    ensures Delimit([item] + rest, open)
         == if item.Operand? then [It(item)] + Delimit(rest, open)
            else if item.kind == AccessOperation then (if open then [Close] else []) + [Open] + Delimit(rest, true)
            else if open && Tightness(item.kind) <= Tightness(AccessOperation) then [Close, It(item)] + Delimit(rest, false)
            else [It(item)] + Delimit(rest, open)
  {
    assert ([item] + rest)[1..] == rest;
  }

  /** Nothing closes within a tight tree. */
  lemma {:induction false} DelimitTight(t: Tree, rest: seq<Item>, open: bool)
    requires Tight(t)
    ensures Delimit(Flat(t) + rest, open) == Text(t) + Delimit(rest, open)
    decreases t
  {
    if t.IsBin() {
      var l, o, r := t.kids[0], Operator(t.tag.kind), t.kids[1];
      Nested(Flat(l), o, Flat(r), rest);
      DelimitTight(l, [o] + (Flat(r) + rest), open);
      DelimitFirst(o, Flat(r) + rest, open);
      DelimitTight(r, rest, open);
      Nested(Text(l), It(o), Text(r), Delimit(rest, open));
    } else {
      DelimitFirst(Operand(Fix(t)), rest, open);
    }
  }

  lemma Nested<T>(a: seq<T>, x: T, b: seq<T>, c: seq<T>)
    ensures (a + [x] + b) + c == a + ([x] + (b + c))
  {
  }

  /** The text ends with a closing bracket. */
  predicate EndsOpen(t: Tree) {
    t.IsBin() && (t.tag.kind == AccessOperation || EndsOpen(t.kids[1]))
  }

  /** The text without that bracket. */
  function Core(t: Tree): seq<Mark> {
    if !t.IsBin() then Text(t)
    else if t.tag.kind == AccessOperation then Text(t.kids[0]) + [Open] + Text(t.kids[1])
    else Text(t.kids[0]) + [It(Operator(t.tag.kind))] + Core(t.kids[1])
  }

  function Closing(open: bool): seq<Mark> {
    if open then [Close] else []
  }

  lemma {:induction false} TextCore(t: Tree)
    ensures Text(t) == Core(t) + Closing(EndsOpen(t))
    decreases t
  {
    if t.IsBin() && t.tag.kind != AccessOperation {
      TextCore(t.kids[1]);
      Nested(Text(t.kids[0]), It(Operator(t.tag.kind)), Core(t.kids[1]), Closing(EndsOpen(t.kids[1])));
    }
  }

  /** A tree with an access at its end is, once repaired, no tighter than an access. */
  lemma {:induction false} OpenEnd(t: Tree) returns (i: nat)
    requires EndsOpen(t)
    ensures i < |Flat(t)| && i % 2 == 1 && Flat(t)[i] == Operator(AccessOperation)
    decreases t
  {
    FlatOdd(t.kids[0]);
    if t.tag.kind == AccessOperation {
      i := |Flat(t.kids[0])|;
    } else {
      i := OpenEnd(t.kids[1]);
      i := |Flat(t.kids[0])| + 1 + i;
    }
  }

  lemma {:induction false} FlatOdd(t: Tree)
    ensures |Flat(t)| % 2 == 1
    decreases t
  {
    if t.IsBin() {
      FlatOdd(t.kids[0]);
      FlatOdd(t.kids[1]);
    }
  }

  lemma OpenLeft(l: Tree, k: Kind)
    requires Leaning(l) && FitsLeft(Fix(l), k) && EndsOpen(l)
    ensures Tightness(k) <= Tightness(AccessOperation)
  {
    Repair(l);
    var i := OpenEnd(l);
    RootIsLoosest(Fix(l), i);
  }

  /** A left operand's bracket closes before an operator that an access may have. */
  lemma AfterLeft(k: Kind, rest: seq<Item>, open: bool)
    requires open ==> Tightness(k) <= Tightness(AccessOperation)
    ensures Delimit([Operator(k)] + rest, open)
         == Closing(open) + if k == AccessOperation then [Open] + Delimit(rest, true) else [It(Operator(k))] + Delimit(rest, false)
  {
    DelimitFirst(Operator(k), rest, open);
    var mark := if k == AccessOperation then [Open] else [It(Operator(k))];
    assert [] + (mark + Delimit(rest, k == AccessOperation)) == mark + Delimit(rest, k == AccessOperation);
  }

  lemma Closed<T>(a: seq<T>, b: seq<T>, c: seq<T>, d: seq<T>, e: seq<T>)
    ensures a + (b + (c + (d + e))) == (a + b) + c + d + e
  {
  }

  /** Where indices are tight, the closing brackets are where they must be. */
  lemma {:induction false} DelimitFlat(t: Tree, rest: seq<Item>)
    requires Leaning(t) && Held(t)
    ensures Delimit(Flat(t) + rest, false) == Core(t) + Delimit(rest, EndsOpen(t))
    decreases t
  {
    if t.IsBin() {
      var l, k, r := t.kids[0], t.tag.kind, t.kids[1];
      Nested(Flat(l), Operator(k), Flat(r), rest);
      DelimitFlat(l, [Operator(k)] + (Flat(r) + rest));
      if EndsOpen(l) {
        OpenLeft(l, k);
      }
      AfterLeft(k, Flat(r) + rest, EndsOpen(l));
      TextCore(l);
      if k == AccessOperation {
        DelimitTight(r, rest, true);
        Closed(Core(l), Closing(EndsOpen(l)), [Open], Text(r), Delimit(rest, true));
      } else {
        DelimitFlat(r, rest);
        Closed(Core(l), Closing(EndsOpen(l)), [It(Operator(k))], Core(r), Delimit(rest, EndsOpen(r)));
      }
    } else {
      DelimitFirst(Operand(Fix(t)), rest, false);
    }
  }

  lemma DelimitAll(t: Tree)
    requires Leaning(t) && Held(t)
    ensures Delimit(Flat(t), false) == Text(t)
  {
    DelimitFlat(t, []);
    TextCore(t);
    assert Flat(t) + [] == Flat(t);
  }

  // ------------------------------------------------- when the brackets are held

  /** No bracket and no operator as loose as an access stands within a bracket. */
  predicate Shallow(marks: seq<Mark>, open: bool) {
    if marks == [] then true
    else
      match marks[0]
      case Open => !open && Shallow(marks[1..], true)
      case Close => Shallow(marks[1..], false)
      case It(item) =>
        && (open && item.Operator? ==> Tightness(item.kind) > Tightness(AccessOperation))
        && Shallow(marks[1..], open)
  }

  lemma ShallowFirst(m: Mark, rest: seq<Mark>, open: bool)
    ensures Shallow([m] + rest, open)
       <==> match m
            case Open => !open && Shallow(rest, true)
            case Close => Shallow(rest, false)
            case It(item) => (open && item.Operator? ==> Tightness(item.kind) > Tightness(AccessOperation)) && Shallow(rest, open)
  {
    assert ([m] + rest)[1..] == rest;
  }

  lemma {:induction false} DelimitShallow(items: seq<Item>, open: bool)
    ensures Shallow(Delimit(items, open), open)
    decreases |items|
  {
    if items == [] {
      if open {
        assert [Close][1..] == [];
      }
    } else {
      var item, rest := items[0], items[1..];
      if item.Operand? {
        DelimitShallow(rest, open);
        ShallowFirst(It(item), Delimit(rest, open), open);
      } else if item.kind == AccessOperation {
        DelimitShallow(rest, true);
        ShallowFirst(Open, Delimit(rest, true), false);
        if open {
          ShallowFirst(Close, [Open] + Delimit(rest, true), true);
          assert [Close] + [Open] + Delimit(rest, true) == [Close] + ([Open] + Delimit(rest, true));
        } else {
          assert [] + [Open] + Delimit(rest, true) == [Open] + Delimit(rest, true);
        }
      } else if open && Tightness(item.kind) <= Tightness(AccessOperation) {
        DelimitShallow(rest, false);
        ShallowFirst(It(item), Delimit(rest, false), false);
        ShallowFirst(Close, [It(item)] + Delimit(rest, false), true);
        assert [Close, It(item)] + Delimit(rest, false) == [Close] + ([It(item)] + Delimit(rest, false));
      } else {
        DelimitShallow(rest, open);
        ShallowFirst(It(item), Delimit(rest, open), open);
      }
    }
  }

  /** Within a bracket. */
  lemma {:induction false} ShallowInside(t: Tree, rest: seq<Mark>)
    ensures Shallow(Text(t) + rest, true) <==> Tight(t) && Shallow(rest, true)
    decreases t
  {
    if !t.IsBin() {
      ShallowFirst(It(Operand(Fix(t))), rest, true);
    } else {
      var l, r := t.kids[0], t.kids[1];
      if t.tag.kind == AccessOperation {
        var more := Text(r) + [Close] + rest;
        ShallowInside(l, [Open] + more);
        ShallowFirst(Open, more, true);
        assert Text(t) + rest == Text(l) + ([Open] + more);
      } else {
        var o := It(Operator(t.tag.kind));
        Nested(Text(l), o, Text(r), rest);
        ShallowInside(l, [o] + (Text(r) + rest));
        ShallowFirst(o, Text(r) + rest, true);
        ShallowInside(r, rest);
      }
    }
  }

  lemma {:induction false} ShallowText(t: Tree, rest: seq<Mark>)
    ensures Shallow(Text(t) + rest, false) <==> Held(t) && Shallow(rest, false)
    decreases t
  {
    if !t.IsBin() {
      ShallowFirst(It(Operand(Fix(t))), rest, false);
    } else {
      var l, r := t.kids[0], t.kids[1];
      if t.tag.kind == AccessOperation {
        var more := [Close] + rest;
        assert Text(t) + rest == Text(l) + ([Open] + (Text(r) + more));
        ShallowText(l, [Open] + (Text(r) + more));
        ShallowFirst(Open, Text(r) + more, false);
        ShallowInside(r, more);
        ShallowFirst(Close, rest, true);
      } else {
        var o := It(Operator(t.tag.kind));
        Nested(Text(l), o, Text(r), rest);
        ShallowText(l, [o] + (Text(r) + rest));
        ShallowFirst(o, Text(r) + rest, false);
        ShallowText(r, rest);
      }
    }
  }

  lemma {:induction false} CanonicalHeld(t: Tree)
    requires Canonical(t)
    ensures Held(t) && Flat(t) == InOrder(t)
    ensures t.IsBin() && t.Prec() > Tightness(AccessOperation) ==> Tight(t)
    decreases t
  {
    if t.IsBin() {
      CanonicalHeld(t.kids[0]);
      CanonicalHeld(t.kids[1]);
    } else {
      CanonicalUnchanged(t);
    }
  }

  /**
   With left operands that fit, the repair of a whole tree keeps its text,
   brackets included, if and only if every index is a single operand or made
   of member accesses.
   */
  lemma TextKept(t: Tree)
    requires Leaning(t)
    ensures Text(Fix(t)) == Text(t) <==> Held(t)
  {
    Repair(t);
    var r := Fix(t);
    CanonicalText(r);
    DelimitShallow(InOrder(r), false);
    ShallowText(t, []);
    assert Text(t) + [] == Text(t);
    if Held(t) {
      DelimitAll(t);
    }
  }

  // -------------------------------------------- what the repaired text looks like

  /** No operator tighter than an access right after a bracket, and none looser than one within. */
  predicate Regular(marks: seq<Mark>, depth: nat, closed: bool) {
    if marks == [] then true
    else
      match marks[0]
      case Open => Regular(marks[1..], depth + 1, false)
      case Close => Regular(marks[1..], if depth > 0 then depth - 1 else 0, true)
      case It(item) =>
        && (item.Operator? && closed ==> Tightness(item.kind) <= Tightness(AccessOperation))
        && (item.Operator? && depth > 0 ==> Tightness(item.kind) >= Tightness(AccessOperation))
        && Regular(marks[1..], depth, false)
  }

  lemma RegularFirst(m: Mark, rest: seq<Mark>, depth: nat, closed: bool)
    ensures Regular([m] + rest, depth, closed)
       <==> match m
            case Open => Regular(rest, depth + 1, false)
            case Close => Regular(rest, if depth > 0 then depth - 1 else 0, true)
            case It(item) =>
              && (item.Operator? && closed ==> Tightness(item.kind) <= Tightness(AccessOperation))
              && (item.Operator? && depth > 0 ==> Tightness(item.kind) >= Tightness(AccessOperation))
              && Regular(rest, depth, false)
  {
    assert ([m] + rest)[1..] == rest;
  }

  lemma {:induction false} OpenIsLoose(t: Tree)
    requires NoLooser(t) && EndsOpen(t)
    ensures t.Prec() <= Tightness(AccessOperation)
    decreases t
  {
    if t.tag.kind != AccessOperation {
      OpenIsLoose(t.kids[1]);
    }
  }

  /** The text of a tree without looser operands is regular. */
  lemma {:induction false} NoLooserRegular(t: Tree, rest: seq<Mark>, depth: nat)
    requires NoLooser(t) && Regular(rest, depth, EndsOpen(t))
    requires depth > 0 ==> Low(t) >= Tightness(AccessOperation)
    ensures Regular(Text(t) + rest, depth, false)
    decreases t
  {
    if !t.IsBin() {
      RegularFirst(It(Operand(Fix(t))), rest, depth, false);
    } else {
      var l, k, r := t.kids[0], t.tag.kind, t.kids[1];
      if EndsOpen(l) {
        OpenIsLoose(l);
      }
      if k == AccessOperation {
        RegularFirst(Close, rest, depth + 1, EndsOpen(r));
        NoLooserRegular(r, [Close] + rest, depth + 1);
        RegularFirst(Open, Text(r) + ([Close] + rest), depth, EndsOpen(l));
        NoLooserRegular(l, [Open] + (Text(r) + ([Close] + rest)), depth);
        TextOfAccess(t, rest);
      } else {
        NoLooserRegular(r, rest, depth);
        RegularFirst(It(Operator(k)), Text(r) + rest, depth, EndsOpen(l));
        NoLooserRegular(l, [It(Operator(k))] + (Text(r) + rest), depth);
        Nested(Text(l), It(Operator(k)), Text(r), rest);
      }
    }
  }

  lemma TextOfAccess(t: Tree, rest: seq<Mark>)
    requires t.IsBin() && t.tag.kind == AccessOperation
    ensures Text(t) + rest == Text(t.kids[0]) + ([Open] + (Text(t.kids[1]) + ([Close] + rest)))
  {
    assert Text(t) == Text(t.kids[0]) + [Open] + Text(t.kids[1]) + [Close];
  }

  /** Where the text of what the parser built is regular, left operands fit. */
  lemma {:induction false} RegularLeans(t: Tree, rest: seq<Mark>, depth: nat)
    requires Parsed(t) && Regular(Text(t) + rest, depth, false)
    ensures Leaning(t) && Regular(rest, depth, EndsOpen(t))
    ensures depth > 0 || Primary(t) ==> Loosest(t) >= Tightness(AccessOperation)
    decreases t
  {
    if !t.IsBin() {
      RegularFirst(It(Operand(Fix(t))), rest, depth, false);
    } else {
      var l, k, r := t.kids[0], t.tag.kind, t.kids[1];
      if k == AccessOperation {
        TextOfAccess(t, rest);
        RegularLeans(l, [Open] + (Text(r) + ([Close] + rest)), depth);
        RegularFirst(Open, Text(r) + ([Close] + rest), depth, EndsOpen(l));
        RegularLeans(r, [Close] + rest, depth + 1);
        RegularFirst(Close, rest, depth + 1, EndsOpen(r));
      } else {
        Nested(Text(l), It(Operator(k)), Text(r), rest);
        RegularLeans(l, [It(Operator(k))] + (Text(r) + rest), depth);
        RegularFirst(It(Operator(k)), Text(r) + rest, depth, EndsOpen(l));
        RegularLeans(r, rest, depth);
      }
      LeftFits(l, k);
      assert t.kids == [l, r];
    }
  }

  lemma LeftFits(l: Tree, k: Kind)
    requires Primary(l) && Loosest(l) >= Tightness(AccessOperation) && InTable(k)
    requires EndsOpen(l) ==> Tightness(k) <= Tightness(AccessOperation)
    ensures FitsLeft(Fix(l), k)
  {
    FixNoLooser(l);
  }

  /**
   The repair of anything that the parser builds keeps the text if and only if
   left operands fit and indices are tight.
   */
  lemma ParsedKept(t: Tree)
    requires Parsed(t)
    ensures Text(Fix(t)) == Text(t) <==> Leaning(t) && Held(t)
  {
    if Text(Fix(t)) == Text(t) {
      FixNoLooser(t);
      NoLooserRegular(Fix(t), [], 0);
      assert Text(t) + [] == Text(t);
      RegularLeans(t, [], 0);
    }
    if Leaning(t) {
      TextKept(t);
    }
  }

  // ---------------------------------------------------------- whole expressions

  /** Every index is tight, and no operator tighter than an access comes right after a bracket. */
  predicate Sound(afterBracket: bool, rest: seq<Suffix>)
    decreases |rest|
  {
    if rest == [] then true
    else if rest[0].Infix? then !(afterBracket && Tightness(rest[0].kind) > Tightness(AccessOperation)) && Sound(false, rest[1..])
    else Tight(rest[0].index) && Sound(true, rest[1..])
  }

  /** An operand, or an operand followed by brackets with tight contents. */
  predicate Postfix(leaf: Tree) {
    Leaning(leaf) && Held(leaf) && (leaf.IsBin() ==> leaf.tag.kind == AccessOperation && Postfix(leaf.kids[0]))
  }

  lemma {:induction false} PostfixStays(leaf: Tree)
    requires Postfix(leaf)
    ensures leaf.IsBin() ==> Fix(leaf).IsBin() && Fix(leaf).tag == leaf.tag
    ensures !leaf.IsBin() ==> !Fix(leaf).IsBin()
    decreases leaf
  {
    if leaf.IsBin() {
      var l, r := leaf.kids[0], leaf.kids[1];
      assert leaf.kids == [l, r];
      PostfixStays(l);
      TightStays(r);
      FixAllPair(l, r);
      assert FixTop(Node(leaf.tag, [Fix(l), Fix(r)])) == Node(leaf.tag, [Fix(l), Fix(r)]);
    } else {
      OpaqueStays(leaf);
    }
  }

  lemma OpaqueStays(t: Tree)
    requires !t.IsBin()
    ensures Fix(t) == Node(t.tag, FixAll(t.kids)) && !Fix(t).IsBin()
  {
  }

  lemma TightStays(t: Tree)
    requires Leaning(t) && Tight(t)
    ensures Fix(t).IsBin() ==> Fix(t).Prec() > Tightness(AccessOperation)
  {
    if t.IsBin() {
      Repair(t);
      var r := Fix(t);
      var i := |InOrder(r.kids[0])|;
      InOrderAlternates(r.kids[0]);
      assert InOrder(r)[i] == Operator(r.tag.kind);
      TightItems(t, i);
    } else {
      OpaqueStays(t);
    }
  }

  lemma {:induction false} TightItems(t: Tree, i: nat)
    requires Tight(t) && i < |Flat(t)| && Flat(t)[i].Operator?
    ensures Tightness(Flat(t)[i].kind) > Tightness(AccessOperation)
    decreases t
  {
    if t.IsBin() {
      var n := |Flat(t.kids[0])|;
      if i < n {
        TightItems(t.kids[0], i);
      } else if i > n {
        TightItems(t.kids[1], i - n - 1);
      }
    }
  }

  lemma {:induction false} TightLeans(t: Tree)
    requires Parsed(t) && Tight(t)
    ensures Leaning(t)
    decreases t
  {
    if t.IsBin() {
      TightLeans(t.kids[1]);
      OpaqueStays(t.kids[0]);
      assert t.kids == [t.kids[0], t.kids[1]];
    }
  }

  lemma {:induction false} BuildHeld(leaf: Tree, rest: seq<Suffix>)
    requires Chain(rest)
    ensures Held(Build(leaf, rest)) ==> Held(leaf)
    decreases |rest|
  {
    if rest != [] {
      assert Link(rest[0]);
      if rest[0].Bracket? {
        BuildHeld(Node(Plain(AccessOperation), [leaf, rest[0].index]), rest[1..]);
      }
    }
  }

  /** The parser's tree leans, with tight indices, if and only if the expression is sound. */
  lemma {:induction false} BuildSound(leaf: Tree, rest: seq<Suffix>)
    requires Postfix(leaf) && Chain(rest)
    ensures Leaning(Build(leaf, rest)) && Held(Build(leaf, rest)) <==> Sound(leaf.IsBin(), rest)
    decreases |rest|
  {
    if rest != [] {
      assert Link(rest[0]);
      PostfixStays(leaf);
      if rest[0].Infix? {
        var r := Build(rest[0].operand, rest[1..]);
        var t := Node(Plain(rest[0].kind), [leaf, r]);
        assert Leaning(t) <==> Leaning(r) && FitsLeft(Fix(leaf), rest[0].kind) by {
          assert leaf in t.kids && r in t.kids;
        }
        BuildSound(rest[0].operand, rest[1..]);
      } else {
        var access := Node(Plain(AccessOperation), [leaf, rest[0].index]);
        if Tight(rest[0].index) {
          TightLeans(rest[0].index);
          assert Leaning(access);
          BuildSound(access, rest[1..]);
        } else {
          BuildHeld(access, rest[1..]);
        }
      }
    }
  }

  /**
   What the parser builds is repaired to a tree with the same text, brackets
   included, if and only if the expression is sound; and then to the tree that
   splits it at its loosest operator.
   */
  lemma BuiltAndRepaired(leaf: Tree, rest: seq<Suffix>)
    requires !leaf.IsBin() && Leaning(leaf) && Chain(rest)
    ensures var t, items := Build(leaf, rest), [Operand(Fix(leaf))] + Items(rest);
            && (Text(Fix(t)) == Text(t) <==> Sound(false, rest))
            && (Sound(false, rest) ==> Canonical(Fix(t)) && Alternates(items) && Erase(Fix(t)) == Parse(items))
  {
    var t := Build(leaf, rest);
    BuildSound(leaf, rest);
    BuildParsed(leaf, rest);
    ParsedKept(t);
    if Sound(false, rest) {
      BuildFlat(leaf, rest);
      Repair(t);
      RepairIsParse(t);
    }
  }

  /** Without brackets every expression is sound. */
  lemma {:induction false} InfixSound(rest: seq<Suffix>)
    requires Chain(rest) && forall i | 0 <= i < |rest| :: rest[i].Infix?
    ensures Sound(false, rest)
    decreases |rest|
  {
    if rest != [] {
      InfixSound(rest[1..]);
    }
  }

  // --------------------------------------------------------- what goes wrong

  /** The repair leaves a bracket access as it is if and only if the index is no operator as loose as an access. */
  lemma IndexKept(tag: Tag, left: Tree, index: Tree)
    requires tag.kind == AccessOperation && Canonical(left) && Canonical(index) && FitsLeft(left, AccessOperation)
    ensures Fix(Node(tag, [left, index])) == Node(tag, [left, index]) <==> Tight(index)
  {
    FixPair(tag, left, index);
    CanonicalHeld(index);
    var u := Node(tag, [left, index]);
    if index.IsBin() && index.Prec() <= Tightness(AccessOperation) {
      RepairTop(tag, left, index);
      assert FitsRight(index, AccessOperation) <==> Canonical(u) by {
        assert left in u.kids && index in u.kids;
      }
      assert !Canonical(u);
    } else {
      assert Rotated(u) == u;
    }
  }

  /** `a[i + 1]` becomes `a[i] + 1`. */
  lemma SumLeavesBracket(a: Tree, i: Tree, one: Tree)
    requires !a.IsBin() && !i.IsBin() && !one.IsBin() && Canonical(a) && Canonical(i) && Canonical(one)
    ensures Fix(Node(Plain(AccessOperation), [a, Node(Plain(Plus), [i, one])]))
         == Node(Plain(Plus), [Node(Plain(AccessOperation), [a, i]), one])
  {
    var sum := Node(Plain(Plus), [i, one]);
    FixPair(Plain(AccessOperation), a, sum);
    FixPair(Plain(AccessOperation), a, i);
  }

  /** The text without its closing brackets. */
  function Bare(marks: seq<Mark>): seq<Item> {
    if marks == [] then []
    else
      (match marks[0]
       case Open => [Operator(AccessOperation)]
       case Close => []
       case It(item) => [item]) + Bare(marks[1..])
  }

  lemma {:induction false} BareAppend(a: seq<Mark>, b: seq<Mark>)
    ensures Bare(a + b) == Bare(a) + Bare(b)
    decreases |a|
  {
    if a == [] {
      assert a + b == b;
    } else {
      assert (a + b)[1..] == a[1..] + b;
      BareAppend(a[1..], b);
    }
  }

  lemma BareParts(a: seq<Mark>, m: Mark, b: seq<Mark>, c: seq<Mark>)
    ensures Bare(a + [m] + b + c) == Bare(a) + Bare([m]) + Bare(b) + Bare(c)
  {
    BareAppend(a, [m]);
    BareAppend(a + [m], b);
    BareAppend(a + [m] + b, c);
  }

  lemma BareOne(m: Mark)
    ensures Bare([m]) == match m case Open => [Operator(AccessOperation)] case Close => [] case It(item) => [item]
  {
    assert [m][1..] == [];
  }

  lemma {:induction false} BareText(t: Tree)
    ensures Bare(Text(t)) == Flat(t)
    decreases t
  {
    if t.IsBin() {
      var l, r := t.kids[0], t.kids[1];
      BareText(l);
      BareText(r);
      if t.tag.kind == AccessOperation {
        BareOne(Open);
        BareOne(Close);
        BareParts(Text(l), Open, Text(r), [Close]);
      } else {
        BareOne(It(Operator(t.tag.kind)));
        BareParts(Text(l), It(Operator(t.tag.kind)), Text(r), []);
        assert Text(l) + [It(Operator(t.tag.kind))] + Text(r) + [] == Text(t);
      }
    } else {
      BareOne(It(Operand(Fix(t))));
    }
  }

  /** A member access on a tight tree: its text comes first, then the operator. */
  lemma MemberText(tag: Tag, i: Tree, right: Tree)
    requires tag.kind == MemberAccess && Canonical(i) && Canonical(right) && Tight(i)
    ensures var x := Text(Fix(Node(tag, [i, right])));
            |x| > |Text(i)| && x[|Text(i)|] == It(Operator(MemberAccess))
  {
    var x, o := Fix(Node(tag, [i, right])), Operator(MemberAccess);
    MemberItems(tag, i, right);
    CanonicalText(x);
    DelimitTight(i, [o] + InOrder(right), false);
    DelimitFirst(o, InOrder(right), false);
    HeadAfter(Text(x), Text(i), It(o), Delimit(InOrder(right), false));
  }

  lemma MemberItems(tag: Tag, i: Tree, right: Tree)
    requires tag.kind == MemberAccess && Canonical(i) && Canonical(right) && Tight(i)
    ensures var x := Fix(Node(tag, [i, right]));
            Canonical(x) && InOrder(x) == Flat(i) + ([Operator(MemberAccess)] + InOrder(right))
  {
    RepairTop(tag, i, right);
    CanonicalHeld(i);
    Nested(InOrder(i), Operator(MemberAccess), InOrder(right), []);
    assert InOrder(i) + [Operator(MemberAccess)] + InOrder(right) + [] == InOrder(i) + [Operator(MemberAccess)] + InOrder(right);
    assert InOrder(right) + [] == InOrder(right);
  }

  lemma HeadAfter<T>(x: seq<T>, a: seq<T>, m: T, rest: seq<T>)
    requires x == a + ([m] + rest)
    ensures |x| > |a| && x[|a|] == m
  {
  }

  lemma CanonicalText(t: Tree)
    requires Canonical(t)
    ensures Text(t) == Delimit(InOrder(t), false)
  {
    CanonicalHeld(t);
    CanonicalLeans(t);
    DelimitAll(t);
  }

  /** The member access moves into the bracket. */
  lemma MovedIn(tag: Tag, access: Tree, right: Tree)
    requires tag.kind == MemberAccess && access.IsBin() && access.tag.kind == AccessOperation
    requires Canonical(access) && Canonical(right)
    ensures Text(Node(access.tag, [access.kids[0], Fix(Node(tag, [access.kids[1], right]))])) != Text(Node(tag, [access, right]))
  {
    var a, i := access.kids[0], access.kids[1];
    CanonicalHeld(i);
    MemberText(tag, i, right);
    AccessText(access.tag, a, Fix(Node(tag, [i, right])));
    AccessText(access.tag, a, i);
    OperatorText(tag, access, right);
    assert access == Node(access.tag, [a, i]);
    DifferAt(Text(a) + [Open], Text(i), Close, [It(Operator(MemberAccess))] + Text(right), Text(Fix(Node(tag, [i, right]))), [Close]);
  }

  lemma AccessText(tag: Tag, l: Tree, r: Tree)
    requires tag.kind == AccessOperation
    ensures Text(Node(tag, [l, r])) == Text(l) + [Open] + Text(r) + [Close]
  {
  }

  lemma OperatorText(tag: Tag, l: Tree, r: Tree)
    requires InTable(tag.kind) && tag.kind != AccessOperation
    ensures Text(Node(tag, [l, r])) == Text(l) + ([It(Operator(tag.kind))] + Text(r))
  {
    assert Text(l) + [It(Operator(tag.kind))] + Text(r) == Text(l) + ([It(Operator(tag.kind))] + Text(r));
  }

  lemma DifferAt<T>(a: seq<T>, i: seq<T>, m: T, rest: seq<T>, x: seq<T>, y: seq<T>)
    requires |x| > |i| && x[|i|] != m
    ensures a + x + y != a + i + [m] + rest
  {
    var n := |a| + |i|;
    assert (a + x + y)[n] == x[|i|];
    assert (a + i + [m] + rest)[n] == m;
  }

  /** The member access is lost. */
  lemma MovedOut(tag: Tag, access: Tree, right: Tree)
    requires tag.kind == MemberAccess && access.IsBin() && access.tag.kind == AccessOperation
    requires Canonical(access) && Canonical(right) && right.IsBin() && right.Prec() < Tightness(AccessOperation)
    ensures var t := Node(tag, [access, right]);
            && Text(Fix(t)) != Text(t)
            && Fix(t) == Node(right.tag, [Fix(Node(access.tag, [access, right.kids[0]])), right.kids[1]])
  {
    var t := Node(tag, [access, right]);
    FixPair(tag, access, right);
    OrderKept(tag, access, right);
    RepairTop(access.tag, access, right.kids[0]);
    var newLeft := Fix(Node(access.tag, [access, right.kids[0]]));
    assert Rotated(t) == Node(right.tag, [newLeft, right.kids[1]]);
    CanonicalHeld(newLeft);
    CanonicalHeld(right.kids[1]);
    CanonicalHeld(access);
    CanonicalHeld(right);
    BareText(t);
    BareText(Fix(t));
  }

  /**
   A member access on a bracket access is never kept.  When nothing looser
   follows, the member access moves into the bracket; otherwise it is lost.
   */
  lemma MemberOfAccess(tag: Tag, access: Tree, right: Tree)
    requires tag.kind == MemberAccess && access.IsBin() && access.tag.kind == AccessOperation
    requires Canonical(access) && Canonical(right)
    ensures var t := Node(tag, [access, right]);
            && Text(Fix(t)) != Text(t)
            && Fix(t) == if right.IsBin() && right.Prec() < Tightness(AccessOperation)
                         then Node(right.tag, [Fix(Node(access.tag, [access, right.kids[0]])), right.kids[1]])
                         else Node(access.tag, [access.kids[0], Fix(Node(tag, [access.kids[1], right]))])
  {
    if right.IsBin() && right.Prec() < Tightness(AccessOperation) {
      MovedOut(tag, access, right);
    } else {
      FixPair(tag, access, right);
      RotatedOnce(tag, access, right);
      MovedIn(tag, access, right);
    }
  }

  lemma BuildAccess(a: Tree, i: Tree, k: Kind, rest: seq<Suffix>, x: Tree)
    ensures Build(a, [Bracket(i), Infix(k, x)] + rest) == Node(Plain(k), [Node(Plain(AccessOperation), [a, i]), Build(x, rest)])
  {
    var all := [Bracket(i), Infix(k, x)] + rest;
    assert all[1..] == [Infix(k, x)] + rest && all[1..][1..] == rest;
  }

  /** `a[i].x` becomes `a[i.x]`. */
  lemma MemberInBracket(a: Tree, i: Tree, x: Tree)
    requires !a.IsBin() && !i.IsBin() && !x.IsBin() && Canonical(a) && Canonical(i) && Canonical(x)
    ensures Fix(Build(a, [Bracket(i), Infix(MemberAccess, x)]))
         == Node(Plain(AccessOperation), [a, Node(Plain(MemberAccess), [i, x])])
  {
    var access := Node(Plain(AccessOperation), [a, i]);
    BuildAccess(a, i, MemberAccess, [], x);
    assert [Bracket(i), Infix(MemberAccess, x)] + [] == [Bracket(i), Infix(MemberAccess, x)];
    MemberOfAccess(Plain(MemberAccess), access, x);
    FixPair(Plain(MemberAccess), i, x);
  }

  /** `a[i].x + y` becomes `a[i][x] + y`. */
  lemma MemberLost(a: Tree, i: Tree, x: Tree, y: Tree)
    requires !a.IsBin() && !i.IsBin() && !x.IsBin() && !y.IsBin()
    requires Canonical(a) && Canonical(i) && Canonical(x) && Canonical(y)
    ensures Fix(Build(a, [Bracket(i), Infix(MemberAccess, x), Infix(Plus, y)]))
         == Node(Plain(Plus), [Node(Plain(AccessOperation), [Node(Plain(AccessOperation), [a, i]), x]), y])
  {
    var access, sum := Node(Plain(AccessOperation), [a, i]), Node(Plain(Plus), [x, y]);
    BuildAccess(a, i, MemberAccess, [Infix(Plus, y)], x);
    assert [Bracket(i), Infix(MemberAccess, x)] + [Infix(Plus, y)] == [Bracket(i), Infix(MemberAccess, x), Infix(Plus, y)];
    assert Build(x, [Infix(Plus, y)]) == sum by {
      assert [Infix(Plus, y)][1..] == [];
    }
    MemberOfAccess(Plain(MemberAccess), access, sum);
    FixPair(Plain(AccessOperation), access, x);
  }

  /** An access on the right is as loose as an access and looser than a member access: it moves to the root. */
  lemma AccessRises(k: Kind, l: Tree, b: Tree, c: Tree)
    requires (k == MemberAccess || k == AccessOperation) && !l.IsBin() && !c.IsBin()
    requires Canonical(l) && Canonical(b) && Canonical(c) && FitsLeft(b, AccessOperation)
    ensures var access := Plain(AccessOperation);
            && Canonical(Node(access, [b, c]))
            && Fix(Node(Plain(k), [l, Node(access, [b, c])])) == Node(access, [Fix(Node(Plain(k), [l, b])), c])
  {
    var access := Node(Plain(AccessOperation), [b, c]);
    assert Canonical(access) by {
      assert access.kids == [b, c];
    }
    FixPair(Plain(k), l, access);
  }

  lemma BuildTwoAccesses(a: Tree, i: Tree, b: Tree, c: Tree)
    ensures Build(a, [Bracket(i), Infix(MemberAccess, b), Bracket(c)])
         == Node(Plain(MemberAccess), [Node(Plain(AccessOperation), [a, i]), Node(Plain(AccessOperation), [b, c])])
  {
    BuildAccess(a, i, MemberAccess, [Bracket(c)], b);
    assert [Bracket(i), Infix(MemberAccess, b)] + [Bracket(c)] == [Bracket(i), Infix(MemberAccess, b), Bracket(c)];
    assert [Bracket(c)][1..] == [];
  }

  lemma MemberStays(i: Tree, b: Tree)
    requires !i.IsBin() && !b.IsBin() && Canonical(i) && Canonical(b)
    ensures var member := Node(Plain(MemberAccess), [i, b]); Canonical(member) && Fix(member) == member
  {
    var member := Node(Plain(MemberAccess), [i, b]);
    assert member.kids == [i, b];
    CanonicalUnchanged(member);
  }

  lemma AccessOfAccess(a: Tree, m: Tree, c: Tree)
    requires !a.IsBin() && !c.IsBin() && Canonical(a) && Canonical(m) && Canonical(c) && Tight(m)
    ensures var access := Plain(AccessOperation);
            Fix(Node(access, [a, Node(access, [m, c])])) == Node(access, [Node(access, [a, m]), c])
  {
    var access := Plain(AccessOperation);
    AccessRises(AccessOperation, a, m, c);
    IndexKept(access, a, m);
  }

  /** Once is not enough: `a[i].b[c]` becomes `a[i.b[c]]`, which would become `a[i.b][c]`. */
  lemma OnceIsNotEnough(a: Tree, i: Tree, b: Tree, c: Tree)
    requires !a.IsBin() && !i.IsBin() && !b.IsBin() && !c.IsBin()
    requires Canonical(a) && Canonical(i) && Canonical(b) && Canonical(c)
    ensures var access, member := Plain(AccessOperation), Node(Plain(MemberAccess), [i, b]);
            var t := Build(a, [Bracket(i), Infix(MemberAccess, b), Bracket(c)]);
            Fix(t) == Node(access, [a, Node(access, [member, c])]) && Fix(Fix(t)) == Node(access, [Node(access, [a, member]), c])
  {
    var access, member := Plain(AccessOperation), Node(Plain(MemberAccess), [i, b]);
    BuildTwoAccesses(a, i, b, c);
    MemberStays(i, b);
    AccessRises(MemberAccess, i, b, c);
    MemberOfAccess(Plain(MemberAccess), Node(access, [a, i]), Node(access, [b, c]));
    AccessOfAccess(a, member, c);
  }
}
