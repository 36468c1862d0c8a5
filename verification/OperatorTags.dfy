/**
 Tokens and code generators of operators through the repair of a whole tree.
 A left-associative rotation labels both nodes with the outer operator.
 */
module OperatorTags {
  import opened Precedence

  /** Up to the first looser operator, operators that nest to the left with `op` get its tag. */
  function Spread(op: Tag, tags: seq<Tag>): seq<Tag> {
    if tags == [] || Tightness(tags[0].kind) < Tightness(op.kind) then tags
    else [Relabelled(op, tags[0])] + Spread(op, tags[1..])
  }

  function Relabelled(op: Tag, tag: Tag): Tag {
    if LeftAssoc(op.kind) && tag.kind == op.kind then op else tag
  }

  /** The tags from left to right, after those on the right have been spread over. */
  function Labels(t: Tree): seq<Tag> {
    if t.IsBin() then Labels(t.kids[0]) + [t.tag] + Spread(t.tag, Labels(t.kids[1])) else []
  }

  predicate Stops(op: Tag, tags: seq<Tag>) {
    tags != [] && (Tightness(tags[0].kind) < Tightness(op.kind) || Stops(op, tags[1..]))
  }

  lemma {:induction false} SpreadAppend(op: Tag, a: seq<Tag>, b: seq<Tag>)
    ensures Spread(op, a + b) == Spread(op, a) + if Stops(op, a) then b else Spread(op, b)
    decreases |a|
  {
    if a == [] {
      assert a + b == b;
    } else {
      assert (a + b)[1..] == a[1..] + b;
      SpreadAppend(op, a[1..], b);
    }
  }

  lemma SpreadParts(op: Tag, a: seq<Tag>, m: Tag, b: seq<Tag>)
    ensures Spread(op, a + [m] + b)
         == if Stops(op, a) || Tightness(m.kind) < Tightness(op.kind) then Spread(op, a) + [m] + b
            else Spread(op, a) + [Relabelled(op, m)] + Spread(op, b)
  {
    SpreadAppend(op, a + [m], b);
    SpreadAppend(op, a, [m]);
    SpreadAppend(op, [m], []);
    StopsAppend(op, a, [m]);
    assert [m][1..] == [] && [m] + [] == [m];
  }

  lemma {:induction false} StopsAppend(op: Tag, a: seq<Tag>, b: seq<Tag>)
    ensures Stops(op, a + b) <==> Stops(op, a) || Stops(op, b)
    decreases |a|
  {
    if a == [] {
      assert a + b == b;
    } else {
      assert (a + b)[1..] == a[1..] + b;
      StopsAppend(op, a[1..], b);
    }
  }

  /** Below a tighter operator there is nothing to spread over. */
  lemma {:induction false} TighterUntouched(op: Tag, t: Tree)
    requires Canonical(t)
    requires t.IsBin() ==> t.Prec() > Tightness(op.kind) || (t.Prec() == Tightness(op.kind) && !LeftAssoc(op.kind))
    ensures Spread(op, Tags(t)) == Tags(t)
    decreases t
  {
    if t.IsBin() {
      var l, r := t.kids[0], t.kids[1];
      TighterUntouched(op, l);
      TighterUntouched(op, r);
      SpreadParts(op, Tags(l), t.tag, Tags(r));
    }
  }

  /** The tags of one repaired root. */
  lemma {:induction false} RootTags(op: Tag, left: Tree, right: Tree)
    requires InTable(op.kind) && Canonical(left) && Canonical(right) && FitsLeft(left, op.kind)
    ensures Tags(Fix(Node(op, [left, right]))) == Tags(left) + [op] + Spread(op, Tags(right))
    decreases right
  {
    FixPair(op, left, right);
    var u := Node(op, [left, right]);
    if right.IsBin() && (right.Prec() < Tightness(op.kind) || (LeftAssoc(op.kind) && right.tag.kind == op.kind)) {
      var b, c := right.kids[0], right.kids[1];
      RootTags(op, left, b);
      var newLeft := Fix(Node(op, [left, b]));
      var top := if right.Prec() < Tightness(op.kind) then right.tag else op;
      assert Rotated(u) == Node(top, [newLeft, c]);
      SpreadParts(op, Tags(b), right.tag, Tags(c));
      SpreadRoot(op, right);
      Regroup(Tags(left) + [op], Spread(op, Tags(b)), [top], Tags(c));
    } else {
      assert Rotated(u) == u;
      if right.IsBin() && right.Prec() == Tightness(op.kind) {
        SameTightness(op.kind, right.tag.kind);
      }
      TighterUntouched(op, right);
    }
  }

  /** At a looser operator, or the same one nesting to the left, spreading goes through the left operand alone. */
  lemma SpreadRoot(op: Tag, t: Tree)
    requires Canonical(t) && t.IsBin()
    requires t.Prec() < Tightness(op.kind) || (LeftAssoc(op.kind) && t.tag.kind == op.kind)
    ensures Spread(op, Tags(t)) == Spread(op, Tags(t.kids[0])) + [Relabelled(op, t.tag)] + Tags(t.kids[1])
  {
    var b, c := t.kids[0], t.kids[1];
    SpreadParts(op, Tags(b), t.tag, Tags(c));
    if t.tag.kind == op.kind {
      TighterUntouched(op, c);
      NoStop(op, b);
    }
  }

  lemma {:induction false} NoStop(op: Tag, t: Tree)
    requires Canonical(t) && (t.IsBin() ==> t.Prec() >= Tightness(op.kind))
    ensures !Stops(op, Tags(t))
    decreases t
  {
    if t.IsBin() {
      NoStop(op, t.kids[0]);
      NoStop(op, t.kids[1]);
      StopsAppend(op, Tags(t.kids[0]), [t.tag]);
      StopsAppend(op, Tags(t.kids[0]) + [t.tag], Tags(t.kids[1]));
      assert [t.tag][1..] == [];
    }
  }

  /** Whole trees: after the repair, the operators carry these tags. */
  lemma {:induction false} TagsRepaired(t: Tree)
    requires Leaning(t)
    ensures Tags(Fix(t)) == Labels(t)
    decreases t
  {
    if t.IsBin() {
      var l, r := t.kids[0], t.kids[1];
      Repair(l);
      Repair(r);
      TagsRepaired(l);
      TagsRepaired(r);
      FixOfTwo(t);
      FixOfTwo(Node(t.tag, [Fix(l), Fix(r)]));
      CanonicalUnchanged(Fix(l));
      CanonicalUnchanged(Fix(r));
      RootTags(t.tag, Fix(l), Fix(r));
    }
  }

  // ------------------------------------------------------ when the tags stay

  /**
   Of two operators that nest to the left, one in the right operand of the
   other and nothing looser between them, both have the same tag.
   */
  predicate Uniform(t: Tree) {
    t.IsBin() ==> Uniform(t.kids[0]) && Uniform(t.kids[1]) && Spread(t.tag, Tags(t.kids[1])) == Tags(t.kids[1])
  }

  lemma {:induction false} SpreadTwice(op: Tag, tags: seq<Tag>)
    ensures |Spread(op, tags)| == |tags| && Spread(op, Spread(op, tags)) == Spread(op, tags)
    decreases |tags|
  {
    if tags != [] && Tightness(tags[0].kind) >= Tightness(op.kind) {
      SpreadTwice(op, tags[1..]);
      assert Spread(op, tags)[1..] == Spread(op, tags[1..]);
    }
  }

  /** Spreading an operator of another kind does not undo what was spread. */
  lemma {:induction false} SpreadOther(op: Tag, other: Tag, tags: seq<Tag>)
    requires Spread(op, tags) == tags && (LeftAssoc(op.kind) && other.kind == op.kind ==> other == op)
    ensures Spread(op, Spread(other, tags)) == Spread(other, tags)
    decreases |tags|
  {
    if tags != [] && Tightness(tags[0].kind) >= Tightness(other.kind) {
      var first, rest := Relabelled(other, tags[0]), tags[1..];
      assert Spread(other, tags)[1..] == Spread(other, rest);
      if Tightness(first.kind) >= Tightness(op.kind) {
        assert Spread(op, tags)[1..] == Spread(op, rest);
        SpreadOther(op, other, rest);
      }
    }
  }

  lemma {:induction false} SameStops(op: Tag, t: Tree)
    ensures Stops(op, Labels(t)) == Stops(op, Tags(t)) && |Labels(t)| == |Tags(t)|
    decreases t
  {
    if t.IsBin() {
      var l, r := t.kids[0], t.kids[1];
      SameStops(op, l);
      SameStops(op, r);
      SpreadStops(op, t.tag, Labels(r));
      StopsAppend(op, Tags(l), [t.tag]);
      StopsAppend(op, Tags(l) + [t.tag], Tags(r));
      StopsAppend(op, Labels(l), [t.tag]);
      StopsAppend(op, Labels(l) + [t.tag], Spread(t.tag, Labels(r)));
    }
  }

  lemma {:induction false} SpreadStops(op: Tag, other: Tag, tags: seq<Tag>)
    ensures Stops(op, Spread(other, tags)) == Stops(op, tags) && |Spread(other, tags)| == |tags|
    decreases |tags|
  {
    if tags != [] && Tightness(tags[0].kind) >= Tightness(other.kind) {
      SpreadStops(op, other, tags[1..]);
      assert Spread(other, tags)[1..] == Spread(other, tags[1..]);
    }
  }

  /** Where the original tags agree with `op`, the new ones do. */
  lemma {:induction false} LabelsAgree(op: Tag, t: Tree)
    requires Spread(op, Tags(t)) == Tags(t)
    ensures Spread(op, Labels(t)) == Labels(t)
    decreases t
  {
    if t.IsBin() {
      var l, m, r := t.kids[0], t.tag, t.kids[1];
      SpreadTwice(op, Tags(l));
      SpreadTwice(op, Tags(r));
      SpreadParts(op, Tags(l), m, Tags(r));
      SameThree(Tags(l), m, Tags(r), Spread(op, Tags(l)), if Stops(op, Tags(l)) || Tightness(m.kind) < Tightness(op.kind) then m else Relabelled(op, m),
                if Stops(op, Tags(l)) || Tightness(m.kind) < Tightness(op.kind) then Tags(r) else Spread(op, Tags(r)));
      LabelsAgree(op, l);
      SameStops(op, l);
      SpreadParts(op, Labels(l), m, Spread(m, Labels(r)));
      if !Stops(op, Tags(l)) && Tightness(m.kind) >= Tightness(op.kind) {
        LabelsAgree(op, r);
        SpreadOther(op, m, Labels(r));
      }
    }
  }

  lemma SameThree<T>(a: seq<T>, x: T, b: seq<T>, c: seq<T>, y: T, d: seq<T>)
    requires |a| == |c| && |b| == |d|
    ensures a + [x] + b == c + [y] + d <==> a == c && x == y && b == d
  {
    var s, t := a + [x] + b, c + [y] + d;
    assert s[..|a|] == a && t[..|a|] == c && s[|a|] == x && t[|a|] == y && s[|a| + 1..] == b && t[|a| + 1..] == d;
  }

  lemma {:induction false} LabelsSame(t: Tree)
    ensures Labels(t) == Tags(t) <==> Uniform(t)
    decreases t
  {
    if t.IsBin() {
      var l, r := t.kids[0], t.kids[1];
      LabelsSame(l);
      LabelsSame(r);
      SameStops(t.tag, l);
      SameStops(t.tag, r);
      SpreadTwice(t.tag, Labels(r));
      SameThree(Labels(l), t.tag, Spread(t.tag, Labels(r)), Tags(l), t.tag, Tags(r));
      if Labels(t) == Tags(t) {
        LabelsAgree(t.tag, r);
      }
    }
  }

  /** The repair of a whole tree keeps every operator's tag if and only if the tree is uniform. */
  lemma TagsStay(t: Tree)
    requires Leaning(t)
    ensures Tags(Fix(t)) == Tags(t) <==> Uniform(t)
  {
    TagsRepaired(t);
    LabelsSame(t);
  }

  // ---------------------------------------- one root, whatever its left operand is

  function TagWeight(tags: seq<Tag>): nat {
    if tags == [] then 0 else Tightness(tags[0].kind) + TagWeight(tags[1..])
  }

  lemma {:induction false} TagWeightAppend(a: seq<Tag>, b: seq<Tag>)
    ensures TagWeight(a + b) == TagWeight(a) + TagWeight(b)
    decreases |a|
  {
    if a == [] {
      assert a + b == b;
    } else {
      assert (a + b)[1..] == a[1..] + b;
      TagWeightAppend(a[1..], b);
    }
  }

  lemma TagWeightAround(a: seq<Tag>, m: Tag, b: seq<Tag>)
    ensures TagWeight(a + [m] + b) == TagWeight(a) + Tightness(m.kind) + TagWeight(b)
  {
    TagWeightAppend(a + [m], b);
    TagWeightAppend(a, [m]);
    assert [m][1..] == [];
  }

  lemma {:induction false} WeightOfTags(t: Tree)
    ensures Weight(InOrder(t)) == TagWeight(Tags(t))
    decreases t
  {
    if t.IsBin() {
      var l, r := t.kids[0], t.kids[1];
      assert t.kids == [l, r] && t == Node(t.tag, [l, r]);
      WeightOfTags(l);
      WeightOfTags(r);
      WeightOfBin(t.tag, l, r);
      TagWeightAround(Tags(l), t.tag, Tags(r));
    } else {
      assert InOrder(t)[1..] == [];
    }
  }

  /** At the end of the right edge of `left` that is looser than `op`, the new operand merges tags. */
  predicate MergesBelow(op: Tag, left: Tree, right: Tree)
    decreases left
  {
    if left.IsBin() && left.Prec() < Tightness(op.kind) then MergesBelow(op, left.kids[1], right) else Merges(op, right)
  }

  /** With any repaired operands: the tags stay if and only if no operator is lost and none is merged. */
  lemma {:induction false} TagsAtRoot(op: Tag, left: Tree, right: Tree)
    requires InTable(op.kind) && Canonical(left) && Canonical(right)
    ensures Tags(Fix(Node(op, [left, right]))) == Tags(left) + [op] + Tags(right)
       <==> !Clash(op.kind, left, right) && !MergesBelow(op, left, right)
    decreases left
  {
    if Clash(op.kind, left, right) {
      ClashShows(op, left, right);
    } else if left.IsBin() && left.Prec() < Tightness(op.kind) {
      var a, b := left.kids[0], left.kids[1];
      TagsAtRoot(op, b, right);
      FixPair(op, left, right);
      TopRotated(Node(op, [left, right]));
      RotatedOnce(op, left, right);
      MovedRight(Tags(a), left.tag, Tags(b), op, Tags(right), Tags(Fix(Node(op, [b, right]))));
    } else {
      TagsKept(op, left, right);
    }
  }

  /** A clash lowers the sum of the operators' precedences. */
  lemma {:induction false} ClashShows(op: Tag, left: Tree, right: Tree)
    requires InTable(op.kind) && Canonical(left) && Canonical(right) && Clash(op.kind, left, right)
    ensures TagWeight(Tags(Fix(Node(op, [left, right])))) < TagWeight(Tags(left) + [op] + Tags(right))
  {
    var u := Node(op, [left, right]);
    OrderKept(op, left, right);
    WeightOfTags(Fix(u));
    WeightOfTags(u);
    assert Tags(u) == Tags(left) + [op] + Tags(right);
    assert InOrder(u) == InOrder(left) + [Operator(op.kind)] + InOrder(right);
  }

  // ------------------------------------------------------------ what goes wrong

  /** `a . b . c`: the second dot gets the token of the first. */
  lemma SecondDotLost(p: Tag, q: Tag, a: Tree, b: Tree, c: Tree)
    requires p.kind == MemberAccess && q.kind == MemberAccess
    requires !a.IsBin() && !b.IsBin() && !c.IsBin() && Canonical(a) && Canonical(b) && Canonical(c)
    ensures var t := Node(p, [a, Node(q, [b, c])]);
            Fix(t) == Node(p, [Node(p, [a, b]), c]) && (Tags(Fix(t)) == Tags(t) <==> p == q)
  {
    FixPair(q, b, c);
    FixPair(p, a, b);
    var right := Node(q, [b, c]);
    assert Canonical(right) by {
      assert right.kids == [b, c];
    }
    FixPair(p, a, right);
    assert Tags(a) == Tags(b) == Tags(c) == [];
    assert Tags(right) == [q] && Tags(Node(p, [a, right])) == [p, q] && Tags(Node(p, [Node(p, [a, b]), c])) == [p, p];
    assert [p, q][1] == q && [p, p][1] == p;
  }
}
