/** The repair on the parser's own nodes: pointers are redirected and nodes relabelled in place. */
module SyntaxTree {
  import opened Precedence
  import opened RepairTwice

  class ASTNode {
    var nodeType: Kind
    var token: string
    var codegen: string
    var childNodes: seq<ASTNode>

    ghost var Repr: set<ASTNode>  // this node, everything below it, and nodes that rotations left behind
    ghost var model: Tree         // the tree below this node, as a value

    ghost predicate Valid()
      reads this, Repr
      decreases Repr
    {
      && this in Repr
      && (forall i | 0 <= i < |childNodes| ::
            && childNodes[i] in Repr && childNodes[i].Repr <= Repr
            && this !in childNodes[i].Repr && childNodes[i].Valid())
      && (forall i, j | 0 <= i < j < |childNodes| :: childNodes[i].Repr !! childNodes[j].Repr)
      && model.tag == Tag(nodeType, token, codegen)
      && |model.kids| == |childNodes|
      && (forall i | 0 <= i < |childNodes| :: model.kids[i] == childNodes[i].model)
    }

    /** A new node with another node's type, token and code generator, above two existing subtrees. */
    constructor Copy(node: ASTNode, left: ASTNode, right: ASTNode)
      requires left.Valid() && right.Valid() && left.Repr !! right.Repr
      ensures Valid() && fresh(this) && Repr == {this} + left.Repr + right.Repr
      ensures childNodes == [left, right]
      ensures model == Node(Tag(node.nodeType, node.token, node.codegen), [left.model, right.model])
    {
      nodeType, token, codegen := node.nodeType, node.token, node.codegen;
      childNodes := [left, right];
      Repr := {this} + left.Repr + right.Repr;
      model := Node(Tag(node.nodeType, node.token, node.codegen), [left.model, right.model]);
    }
  }

  /** Whoever still holds a pointer to one of these nodes finds there what was there before. */
  twostate predicate Untouched(nodes: set<ASTNode>)
    reads nodes
  {
    unchanged(nodes)
  }

  twostate predicate SameLabel(o: ASTNode)
    reads o
  {
    o.nodeType == old(o.nodeType) && o.token == old(o.token) && o.codegen == old(o.codegen) && o.childNodes == old(o.childNodes)
  }

  /** A node that was repaired once more, on its own: it grew by new nodes only. */
  twostate predicate Repaired(o: ASTNode)
    reads o, o.Repr
  {
    o.Valid() && o.model == Fix(old(o.model)) && fresh(o.Repr - old(o.Repr))
  }

  ghost predicate AllStay(ts: seq<Tree>) {
    forall t | t in ts :: Stable(t)
  }

  /**
   Repairs the tree below `node` in place.  A tree with nothing to rotate is
   not written to at all, and such operands are not written to either, although
   rotations may have left several pointers to them.  Whoever has a pointer to
   an operand without looser ones finds it repaired, wherever it is by now.
   */
  method FixPrecedence(node: ASTNode)
    requires node.Valid()
    modifies node.Repr
    ensures node.Valid() && node.model == Fix(old(node.model))
    ensures fresh(node.Repr - old(node.Repr))
    ensures Stable(old(node.model)) ==> Untouched(old(node.Repr))
    ensures AllStay(old(node.model.kids)) ==> Untouched(old(node.Repr) - {node})
    ensures |old(node.childNodes)| == 2 && NoLooser(old(node.model.kids[0])) && NoLooser(old(node.model.kids[1])) ==>
              var l, r := old(node.childNodes[0]), old(node.childNodes[1]);
              Repaired(l) && Repaired(r) && l.Repr !! r.Repr && node !in l.Repr && node !in r.Repr
    decreases Size(node.model), 6
  {
    ghost var t := node.model;
    FixChildren(node);
    AllStayUnchanged(t);
    if InTable(node.nodeType) {
      if |node.childNodes| != 2 {
        return;
      }
      FixBoth(node, t);
    }
  }

  /** The repair of the root, after that of its two operands. */
  method FixBoth(node: ASTNode, ghost t: Tree)
    requires node.Valid() && node.model.IsBin() && |t.kids| == 2 && t.tag == node.model.tag
    requires node.model == Node(t.tag, [Fix(t.kids[0]), Fix(t.kids[1])])
    modifies node, node.childNodes[0].Repr, node.childNodes[1].Repr
    ensures node.Valid() && node.model == Fix(t) && fresh(node.Repr - old(node.Repr))
    ensures Stable(t) ==> Untouched({node})
    ensures NoLooser(t.kids[0]) && NoLooser(t.kids[1]) ==>
              var l, r := old(node.childNodes[0]), old(node.childNodes[1]);
              Untouched(old(l.Repr) + old(r.Repr)) && l.Valid() && r.Valid()
    ensures AllStay(t.kids) ==> Untouched(old(node.childNodes[0].Repr) + old(node.childNodes[1].Repr))
    decreases Size(t), 5
  {
    var l, r := t.kids[0], t.kids[1];
    FixOfTwo(t);
    FixNoLooser(l);
    FixNoLooser(r);
    if AllStay(t.kids) {
      StableNoLooser(l);
      StableNoLooser(r);
    }
    if NoLooser(l) && NoLooser(r) {
      FixStable(l);
      FixStable(r);
    }
    if Stable(t) {
      StableUnchanged(l);
      StableUnchanged(r);
      assert t.kids == [l, r];
    }
    SizeOfBoth(t);
    SizeOfTwo(t.tag, Fix(l), Fix(r));
    FixRoot(node);
  }

  /** Repairs every subtree of `node`, leaving the node itself as it is. */
  method FixChildren(node: ASTNode)
    requires node.Valid()
    modifies node.Repr
    ensures node.Valid() && node.model == Node(old(node.model).tag, FixAll(old(node.model).kids))
    ensures node.childNodes == old(node.childNodes) && fresh(node.Repr - old(node.Repr))
    ensures forall k | 0 <= k < |node.childNodes| :: Repaired(node.childNodes[k])
    ensures AllStay(old(node.model.kids)) ==> Untouched(old(node.Repr))
    decreases Size(node.model), 3
  {
    ghost var t := node.model;
    var kids := node.childNodes;
    FixEach(node, kids, t);
    AllStayUnchanged(t);
    Assemble(node, kids, t);
  }

  /** All subtrees are repaired: only what is said about the node itself changes. */
  ghost method Assemble(node: ASTNode, kids: seq<ASTNode>, t: Tree)
    requires node.childNodes == kids && node in node.Repr && Apart(node, kids)
    requires t.tag == Tag(node.nodeType, node.token, node.codegen)
    requires |t.kids| == |kids| && forall k | 0 <= k < |kids| :: kids[k].model == Fix(t.kids[k])
    modifies node`model
    ensures node.Valid() && node.model == Node(t.tag, FixAll(t.kids))
  {
    FixAllEach(t.kids);
    node.model := Node(t.tag, FixAll(t.kids));
  }

  /** Repairs the subtrees one after the other. */
  method FixEach(node: ASTNode, kids: seq<ASTNode>, ghost t: Tree)
    requires node.childNodes == kids && node in node.Repr && Apart(node, kids)
    requires |t.kids| == |kids| && forall k | 0 <= k < |kids| :: kids[k].model == t.kids[k]
    modifies node`Repr, node.Repr - {node}
    ensures Apart(node, kids) && fresh(node.Repr - old(node.Repr)) && old(node.Repr) <= node.Repr
    ensures forall k | 0 <= k < |kids| :: kids[k].model == Fix(t.kids[k])
    ensures forall k | 0 <= k < |kids| :: fresh(kids[k].Repr - old(kids[k].Repr))
    ensures AllStay(t.kids) ==> node.Repr == old(node.Repr) && Untouched(old(node.Repr) - {node})
    decreases Size(t), 2
  {
    for i := 0 to |kids|
      invariant node.childNodes == kids && node in node.Repr
      invariant Apart(node, kids) == true
      invariant forall k | 0 <= k < i :: kids[k].model == Fix(t.kids[k])
      invariant forall k | i <= k < |kids| :: kids[k].model == t.kids[k] && kids[k].Repr == old(kids[k].Repr)
      invariant fresh(node.Repr - old(node.Repr)) && old(node.Repr) <= node.Repr
      invariant forall k | 0 <= k < i :: fresh(kids[k].Repr - old(kids[k].Repr))
      invariant AllStay(t.kids) ==> node.Repr == old(node.Repr) && Untouched(old(node.Repr) - {node})
    {
      KidIsSmaller(t, i);
      StayAt(t, i);
      FixChild(node, kids, i);
    }
  }

  lemma AllStayUnchanged(t: Tree)
    ensures AllStay(t.kids) ==> Node(t.tag, FixAll(t.kids)) == t
  {
    if AllStay(t.kids) {
      AllStableUnchanged(t.kids);
    }
  }

  lemma StayAt(t: Tree, i: nat)
    requires i < |t.kids|
    ensures AllStay(t.kids) ==> Stable(t.kids[i])
  {
    assert t.kids[i] in t.kids;
  }

  /** Repairs one subtree; its siblings are not affected. */
  method FixChild(node: ASTNode, kids: seq<ASTNode>, i: nat)
    requires i < |kids| && node.childNodes == kids && node in node.Repr && Apart(node, kids)
    modifies node`Repr, kids[i].Repr
    ensures Apart(node, kids) && fresh(node.Repr - old(node.Repr)) && old(node.Repr) <= node.Repr
    ensures kids[i].model == Fix(old(kids[i].model))
    ensures forall k | 0 <= k < |kids| && k != i :: kids[k].model == old(kids[k].model) && kids[k].Repr == old(kids[k].Repr)
    ensures fresh(kids[i].Repr - old(kids[i].Repr))
    ensures Stable(old(kids[i].model)) ==> node.Repr == old(node.Repr) && Untouched(old(kids[i].Repr))
    decreases Size(kids[i].model), 7
  {
    forall k | 0 <= k < |kids| && k != i
      ensures kids[k].Repr !! kids[i].Repr && kids[k] in kids[k].Repr && node !in kids[k].Repr
    {
    }
    FixPrecedence(kids[i]);
    forall k | 0 <= k < |kids| && k != i
      ensures kids[k].Repr !! kids[i].Repr && kids[k].Valid() && kids[k].Repr == old(kids[k].Repr)
    {
    }
    node.Repr := node.Repr + kids[i].Repr;
  }

  /** The subtrees are well formed, below the node and share nothing. */
  ghost predicate Apart(node: ASTNode, kids: seq<ASTNode>)
    reads node, node.Repr
    requires node.childNodes == kids
  {
    && (forall k | 0 <= k < |kids| :: kids[k] in node.Repr && kids[k].Repr <= node.Repr && node !in kids[k].Repr && kids[k].Valid())
    && (forall j, k | 0 <= j < k < |kids| :: kids[j].Repr !! kids[k].Repr)
  }

  lemma {:induction false} KidIsSmaller(t: Tree, i: nat)
    requires i < |t.kids|
    ensures Size(t.kids[i]) < Size(t)
  {
    PartIsSmaller(t.kids, i);
  }

  lemma {:induction false} PartIsSmaller(ts: seq<Tree>, i: nat)
    requires i < |ts|
    ensures Size(ts[i]) <= SizeAll(ts)
  {
    if i > 0 {
      PartIsSmaller(ts[1..], i - 1);
    }
  }

  lemma {:induction false} FixAllEach(ts: seq<Tree>)
    ensures forall i | 0 <= i < |ts| :: FixAll(ts)[i] == Fix(ts[i])
  {
    if ts != [] {
      FixAllEach(ts[1..]);
    }
  }

  /** A root and its two operands from the start, which it may be above or not. */
  ghost predicate Beside(node: ASTNode, left: ASTNode, right: ASTNode)
    reads node, left, right, node.Repr, left.Repr, right.Repr
  {
    && node.Valid() && left.Valid() && right.Valid()
    && left.Repr !! right.Repr && node !in left.Repr && node !in right.Repr
    && Tidy(Shown(node, left, right))
  }

  ghost function Shown(node: ASTNode, left: ASTNode, right: ASTNode): View
    reads node, left, right
  {
    View(node.model, left.model, right.model)
  }

  /** What a rotation leaves behind: the three nodes are apart, and any further nodes are new. */
  twostate predicate Apart3(node: ASTNode, left: ASTNode, right: ASTNode)
    reads node, left, right, node.Repr, left.Repr, right.Repr
  {
    && node.Valid() && left.Valid() && right.Valid()
    && left.Repr !! right.Repr && node !in left.Repr && node !in right.Repr
    && fresh(node.Repr - old(node.Repr) - old(left.Repr) - old(right.Repr))
    && fresh(left.Repr - old(left.Repr)) && fresh(right.Repr - old(right.Repr))
  }

  /**
   The rotations at the root, whose operands are repaired.  The two children
   are read once; a rotation repairs them once more when the new operand
   shares them, and the next one finds them so.
   */
  method FixRoot(node: ASTNode)
    requires node.Valid() && node.model.IsBin()
    requires NoLooser(node.model.kids[0]) && NoLooser(node.model.kids[1])
    modifies node, node.childNodes[0].Repr, node.childNodes[1].Repr
    ensures node.Valid() && node.model == FixTop(old(node.model))
    ensures fresh(node.Repr - old(node.Repr))
    ensures Stable(old(node.model.kids[0])) && Stable(old(node.model.kids[1])) ==>
              Untouched(old(node.childNodes[0].Repr) + old(node.childNodes[1].Repr))
    ensures Stable(old(node.model)) ==> Untouched({node})
    decreases Size(node.model), 4
  {
    var left, right := node.childNodes[0], node.childNodes[1];
    ghost var u := node.model;
    assert node.childNodes == [left, right] && u.kids == [left.model, right.model];
    SizeOfTwo(u.tag, left.model, right.model);
    ghost var v := Shown(node, left, right);
    assert FixTop(u) == LooserRight(LooserLeft(SameOperator(v)));
    RotateSame(node, left, right);
    SameNoLooser(v);
    RotateLooser(node, left, right);
  }

  method RotateLooser(node: ASTNode, left: ASTNode, right: ASTNode)
    requires Beside(node, left, right)
    modifies node, left.Repr, right.Repr
    ensures Apart3(node, left, right) && node.model == LooserRight(LooserLeft(old(Shown(node, left, right))))
    ensures Stable(old(left.model)) && Stable(old(right.model)) ==> Untouched(old(left.Repr) + old(right.Repr))
    ensures Low(old(left.model)) >= Tightness(old(node.nodeType)) && Low(old(right.model)) >= Tightness(old(node.nodeType)) ==> Untouched({node})
    decreases Size(left.model) + Size(right.model) + 1, 3
  {
    ghost var v := Shown(node, left, right);
    RotateLooserLeft(node, left, right);
    LeftNoLooser(v);
    RotateLooserRight(node, left, right);
  }

  method RotateSame(node: ASTNode, left: ASTNode, right: ASTNode)
    requires Beside(node, left, right)
    modifies node, left.Repr, right.Repr
    ensures Apart3(node, left, right) && Shown(node, left, right) == SameOperator(old(Shown(node, left, right)))
    ensures Stable(old(left.model)) && Stable(old(right.model)) ==> Untouched(old(left.Repr) + old(right.Repr))
    ensures Stable(old(node.model)) && old(node.model.kids) == [old(left.model), old(right.model)] ==> Untouched({node})
    decreases Size(left.model) + Size(right.model) + 1, 2
  {
    if LeftAssoc(node.nodeType) {
      if right.nodeType == node.nodeType && |right.childNodes| == 2 {
        RotateLeftInPlace(node, left, right, node);
      }
    }
  }

  method RotateLooserLeft(node: ASTNode, left: ASTNode, right: ASTNode)
    requires Beside(node, left, right)
    modifies node, left.Repr, right.Repr
    ensures Apart3(node, left, right) && Shown(node, left, right) == LooserLeft(old(Shown(node, left, right)))
    ensures Stable(old(left.model)) && Stable(old(right.model)) ==> Untouched(old(left.Repr) + old(right.Repr))
    ensures Low(old(left.model)) >= Tightness(old(node.nodeType)) ==> Untouched({node})
    decreases Size(left.model) + Size(right.model) + 1, 2
  {
    if |left.childNodes| == 2 && InTable(left.nodeType) {
      if Tightness(node.nodeType) > Tightness(left.nodeType) {
        RotateRightInPlace(node, left, right);
      }
    }
  }

  method RotateLooserRight(node: ASTNode, left: ASTNode, right: ASTNode)
    requires Beside(node, left, right)
    modifies node, left.Repr, right.Repr
    ensures Apart3(node, left, right) && node.model == LooserRight(old(Shown(node, left, right)))
    ensures Stable(old(left.model)) && Stable(old(right.model)) ==> Untouched(old(left.Repr) + old(right.Repr))
    ensures Low(old(right.model)) >= Tightness(old(node.nodeType)) ==> Untouched({node})
    decreases Size(left.model) + Size(right.model) + 1, 2
  {
    if |right.childNodes| == 2 && InTable(right.nodeType) {
      if Tightness(node.nodeType) > Tightness(right.nodeType) {
        RotateLeftInPlace(node, left, right, right);
      }
    }
  }

  /** `left op (B top C)` becomes `(left op B) top C`; the right child itself is left behind. */
  method RotateLeftInPlace(node: ASTNode, left: ASTNode, right: ASTNode, top: ASTNode)
    requires Beside(node, left, right)
    requires |right.childNodes| == 2 && (top == node || top == right)
    modifies node, left.Repr, right.Repr
    ensures Apart3(node, left, right)
    ensures Stable(old(left.model)) && Stable(old(right.model)) ==> Untouched(old(left.Repr) + old(right.Repr))
    ensures node.model == RotateLeft(old(node.model.tag), old(top.model.tag), old(left.model), old(right.model))
    ensures left.model == Fix(old(left.model))
    ensures right.model == Node(old(right.model.tag), [Fix(old(right.model.kids[0])), old(right.model.kids[1])])
    decreases Size(left.model) + Size(right.model) + 1, 1
  {
    var b, c := right.childNodes[0], right.childNodes[1];
    TwoKids(right);
    SizeOfBoth(right.model);
    KidsNoLooser(right.model);
    var newLeft := ShareRight(node, left, right, b, c);
    AboveValid(right, b, c);
    Relink(node, top, newLeft, c);
  }

  /** `(A top B) op right` becomes `A top (B op right)`; the left child itself is left behind. */
  method RotateRightInPlace(node: ASTNode, left: ASTNode, right: ASTNode)
    requires Beside(node, left, right)
    requires |left.childNodes| == 2
    modifies node, left.Repr, right.Repr
    ensures Apart3(node, left, right)
    ensures Stable(old(left.model)) && Stable(old(right.model)) ==> Untouched(old(left.Repr) + old(right.Repr))
    ensures node.model == RotateRight(old(node.model.tag), old(left.model), old(right.model))
    ensures right.model == Fix(old(right.model))
    ensures left.model == Node(old(left.model.tag), [old(left.model.kids[0]), Fix(old(left.model.kids[1]))])
    decreases Size(left.model) + Size(right.model) + 1, 1
  {
    var a, b := left.childNodes[0], left.childNodes[1];
    TwoKids(left);
    SizeOfBoth(left.model);
    KidsNoLooser(left.model);
    var newRight := ShareLeft(node, left, a, b, right);
    AboveValid(left, a, b);
    Relink(node, left, a, newRight);
  }

  /** The new left operand shares `left` and the first operand of `right`. */
  method ShareRight(node: ASTNode, left: ASTNode, right: ASTNode, b: ASTNode, c: ASTNode) returns (operand: ASTNode)
    requires Above(right, b, c) && left.Valid() && left.Repr !! right.Repr && node !in left.Repr && node !in right.Repr
    requires NoLooser(left.model) && NoLooser(b.model)
    modifies left.Repr, right.Repr
    ensures left.Valid() && Above(right, b, c) && left.Repr !! right.Repr && SameLabel(right)
    ensures fresh(left.Repr - old(left.Repr)) && fresh(right.Repr - old(right.Repr))
    ensures operand.Valid() && operand.Repr !! c.Repr && right !in operand.Repr
    ensures fresh(operand.Repr - old(left.Repr) - old(right.Repr))
    ensures operand.model == Fix(Node(Tag(node.nodeType, node.token, node.codegen), [old(left.model), old(b.model)]))
    ensures left.model == Fix(old(left.model)) && b.model == Fix(old(b.model)) && c.model == old(c.model)
    ensures Stable(old(left.model)) && Stable(old(b.model)) ==> Untouched(old(left.Repr) + old(right.Repr))
    decreases Size(left.model) + Size(b.model) + 1, 8
  {
    operand := NewOperand(node, left, b);
    assert right !in b.Repr && right !in operand.Repr;
    Reshow(right, b, b, c);
  }

  /** The new right operand shares the second operand of `left`, and `right`. */
  method ShareLeft(node: ASTNode, left: ASTNode, a: ASTNode, b: ASTNode, right: ASTNode) returns (operand: ASTNode)
    requires Above(left, a, b) && right.Valid() && left.Repr !! right.Repr && node !in left.Repr && node !in right.Repr
    requires NoLooser(b.model) && NoLooser(right.model)
    modifies left.Repr, right.Repr
    ensures Above(left, a, b) && right.Valid() && left.Repr !! right.Repr && SameLabel(left)
    ensures fresh(left.Repr - old(left.Repr)) && fresh(right.Repr - old(right.Repr))
    ensures operand.Valid() && operand.Repr !! a.Repr && left !in operand.Repr
    ensures fresh(operand.Repr - old(left.Repr) - old(right.Repr))
    ensures operand.model == Fix(Node(Tag(node.nodeType, node.token, node.codegen), [old(b.model), old(right.model)]))
    ensures right.model == Fix(old(right.model)) && b.model == Fix(old(b.model)) && a.model == old(a.model)
    ensures Stable(old(b.model)) && Stable(old(right.model)) ==> Untouched(old(left.Repr) + old(right.Repr))
    decreases Size(b.model) + Size(right.model) + 1, 8
  {
    operand := NewOperand(node, b, right);
    assert left !in b.Repr && left !in operand.Repr;
    Reshow(left, b, a, b);
  }

  /** A node right above two subtrees. */
  ghost predicate Above(o: ASTNode, l: ASTNode, r: ASTNode)
    reads o, l, r, l.Repr, r.Repr
  {
    && o.childNodes == [l, r] && l.Valid() && r.Valid() && l.Repr !! r.Repr
    && o in o.Repr && l in l.Repr && r in r.Repr && o !in l.Repr && o !in r.Repr
    && l.Repr <= o.Repr && r.Repr <= o.Repr && o.model == Node(Tag(o.nodeType, o.token, o.codegen), [l.model, r.model])
  }

  lemma TwoKids(o: ASTNode)
    requires o.Valid() && |o.childNodes| == 2
    ensures Above(o, o.childNodes[0], o.childNodes[1])
  {
    assert o.model.kids == [o.childNodes[0].model, o.childNodes[1].model];
  }

  lemma AboveValid(o: ASTNode, l: ASTNode, r: ASTNode)
    requires Above(o, l, r)
    ensures o.Valid()
  {
  }

  /** An operand of `o`, one of `l` and `r`, was repaired: only what is said about `o` changes. */
  ghost method Reshow(o: ASTNode, part: ASTNode, l: ASTNode, r: ASTNode)
    requires o in o.Repr && o.childNodes == [l, r] && (part == l || part == r)
    requires l.Valid() && r.Valid() && l.Repr !! r.Repr && o !in l.Repr && o !in r.Repr && l.Repr + r.Repr <= o.Repr + part.Repr
    requires o.model.tag == Tag(o.nodeType, o.token, o.codegen)
    modifies o`Repr, o`model
    ensures Above(o, l, r) && o.Repr == old(o.Repr) + part.Repr
    ensures part.Repr <= old(o.Repr) && old(o.model.kids) == [l.model, r.model] ==> Untouched({o})
  {
    if !(part.Repr <= o.Repr && o.model.kids == [l.model, r.model]) {
      o.Repr := o.Repr + part.Repr;
      o.model := Node(o.model.tag, [l.model, r.model]);
    }
  }

  /** The new, repaired operand `left op right` with the operator of `node`; what it shares is repaired with it. */
  method NewOperand(node: ASTNode, left: ASTNode, right: ASTNode) returns (operand: ASTNode)
    requires left.Valid() && right.Valid() && left.Repr !! right.Repr && node !in left.Repr && node !in right.Repr
    requires NoLooser(left.model) && NoLooser(right.model)
    modifies left.Repr, right.Repr
    ensures operand.Valid() && fresh(operand.Repr - old(left.Repr) - old(right.Repr))
    ensures operand.model == Fix(Node(Tag(node.nodeType, node.token, node.codegen), [old(left.model), old(right.model)]))
    ensures Repaired(left) && Repaired(right) && left.Repr !! right.Repr
    ensures Stable(old(left.model)) && Stable(old(right.model)) ==> Untouched(old(left.Repr) + old(right.Repr))
    decreases Size(left.model) + Size(right.model) + 1, 7
  {
    operand := new ASTNode.Copy(node, left, right);
    SizeOfTwo(operand.model.tag, left.model, right.model);
    FixPrecedence(operand);
  }

  /** Gives the node another node's label and two new operands. */
  method Relink(node: ASTNode, top: ASTNode, left: ASTNode, right: ASTNode)
    requires node in node.Repr && left.Valid() && right.Valid() && left.Repr !! right.Repr
    requires node !in left.Repr && node !in right.Repr
    modifies node
    ensures node.Valid() && node.Repr == old(node.Repr) + left.Repr + right.Repr
    ensures node.model == Node(Tag(old(top.nodeType), old(top.token), old(top.codegen)), [left.model, right.model])
  {
    node.nodeType, node.codegen, node.token := top.nodeType, top.codegen, top.token;
    node.childNodes := [left, right];
    node.Repr := node.Repr + left.Repr + right.Repr;
    node.model := Node(Tag(node.nodeType, node.token, node.codegen), [left.model, right.model]);
  }
}
