/**
 Overload resolution in terms of the types themselves, which are numbered as in
 their enumeration: 2 to 15 are integers (3 to 7 signed, 9 to 13 unsigned, from
 128 bits down to 8), 16 to 18 floating-point types.
 */
module OverloadChoice {
  import opened Wrappers
  import opened Overloads

  function Gap(a: nat, b: nat): nat {
    if a <= b then b - a else a - b
  }

  /** Types that are taken for each other, sizes apart: only where they were inferred. */
  predicate Taken(a: nat, b: nat, inferred: bool) {
    a == b || (inferred && Gap(a, b) == 9 && (a <= 4 || b <= 4))
  }

  lemma TakenIsSame(a: nat, b: nat, inferred: bool)
    ensures SameType(a, b, inferred) <==> Taken(a, b, inferred)
  {
  }

  /** What an argument of type `t` costs for a parameter of type `p`. */
  lemma Costs(p: nat, t: nat, inferred: bool)
    ensures Taken(p, t, inferred) ==> Penalty(p, t, inferred) == 0
    ensures !Taken(p, t, inferred) && 2 <= p <= 15 && 2 <= t <= 15 ==> Penalty(p, t, inferred) == Gap(p, t)
    ensures !Taken(p, t, inferred) && 16 <= p <= 18 && 16 <= t <= 18 ==> Penalty(p, t, inferred) == Gap(p, t)
    ensures !Taken(p, t, inferred) && 2 <= p <= 15 && !(2 <= t <= 15) ==> Penalty(p, t, inferred) == 13
    ensures !Taken(p, t, inferred) && 16 <= p <= 18 && !(16 <= t <= 18) ==> Penalty(p, t, inferred) == 2
    ensures !(2 <= p <= 18) ==> Penalty(p, t, inferred) == 0
  {
    TakenIsSame(p, t, inferred);
  }

  /** A parameter that has to be of its type refuses any other, if it is a number. */
  lemma Refusals(a: Argument, t: nat, inferred: bool)
    ensures Refuses(a, t, inferred) <==> a.mustBeExactType && 2 <= a.baseType <= 18 && !Taken(a.baseType, t, inferred)
  {
    TakenIsSame(a.baseType, t, inferred);
  }

  /** The costs of several arguments add up. */
  lemma {:induction false} CostsAdd(f: FunctionID, args: seq<nat>, inferred: bool, g: FunctionID, n: nat)
    requires |args| == |f.arguments| && n <= |args|
    requires g.arguments == f.arguments[..n]
    ensures Distance(f, args, inferred, n) == Distance(g, args[..n], inferred, n)
    ensures n < |args| ==>
              Distance(f, args, inferred, n + 1) == Distance(f, args, inferred, n) + Penalty(f.arguments[n].baseType, args[n], inferred)
    ensures Distance(f, args, inferred, 0) == 0
    decreases n
  {
    if n > 0 {
      var h := FunctionID("", f.arguments[..n - 1], false);
      CostsAdd(f, args, inferred, h, n - 1);
      assert g.arguments[..n - 1] == h.arguments && args[..n][..n - 1] == args[..n - 1];
      CostsAdd(g, args[..n], inferred, h, n - 1);
    }
  }

  // ------------------------------------------------------------ one argument

  /** A candidate with the name and one parameter of type `p` that refuses nothing. */
  predicate Takes(f: FunctionID, name: string, member: bool, p: nat) {
    f.name == name && f.isMemberFunction == member && |f.arguments| == 1 && f.arguments[0].baseType == p && !f.arguments[0].mustBeExactType
  }

  lemma OneDistance(f: FunctionID, c: Call, member: bool, p: nat, t: nat)
    requires Takes(f, c.name, member, p) && c.args == [t]
    ensures Passes(f, Some(member)) && IsViable(f, c) && DistanceOf(f, c) == Penalty(p, t, c.wereTypesInferred)
    ensures TierOf(f, c) == Matches
  {
    assert Distance(f, c.args, c.wereTypesInferred, 0) == 0;
    Refusals(f.arguments[0], t, c.wereTypesInferred);
  }

  /** For an argument of a floating-point type, no integer parameter wins over a floating-point one. */
  lemma FloatPreferred(fns: seq<FunctionID>, name: string, t: nat, inferred: bool, member: bool, r: Option<nat>, i: nat, p: nat, q: nat)
    requires 16 <= t <= 18 && LookedUp(fns, Call(name, [t], inferred), Some(member), 999, r)
    requires i < |fns| && Takes(fns[i], name, member, p) && 16 <= p <= 18
    ensures r.Some? && r.value < |fns| && (Takes(fns[r.value], name, member, q) ==> !(2 <= q <= 15))
  {
    var c := Call(name, [t], inferred);
    OneDistance(fns[i], c, member, p, t);
    Resolution(fns, c, Some(member), r);
    assert Any(fns, c, Some(member), Matches);
    Costs(p, t, inferred);
    if Takes(fns[r.value], name, member, q) {
      OneDistance(fns[r.value], c, member, q, t);
      Costs(q, t, inferred);
    }
  }

  /** Of integer parameters, the one fewest places away wins, and the first of those. */
  lemma NearestInteger(fns: seq<FunctionID>, name: string, t: nat, member: bool, r: Option<nat>, i: nat, p: nat, q: nat)
    requires 2 <= t <= 15 && LookedUp(fns, Call(name, [t], false), Some(member), 999, r)
    requires i < |fns| && Takes(fns[i], name, member, p) && 2 <= p <= 15
    ensures r.Some? && r.value < |fns|
    ensures Takes(fns[r.value], name, member, q) && 2 <= q <= 15 ==> Gap(q, t) < Gap(p, t) || (Gap(q, t) == Gap(p, t) && r.value <= i)
  {
    var c := Call(name, [t], false);
    OneDistance(fns[i], c, member, p, t);
    Resolution(fns, c, Some(member), r);
    assert Any(fns, c, Some(member), Matches);
    Costs(p, t, false);
    if Takes(fns[r.value], name, member, q) && 2 <= q <= 15 {
      OneDistance(fns[r.value], c, member, q, t);
      Costs(q, t, false);
    }
  }

  /** A function found by the lookup is a member exactly when one was asked for, and has the name. */
  lemma FoundAsAsked(fns: seq<FunctionID>, c: Call, member: bool, r: Option<nat>)
    requires |c.args| <= 38 && LookedUp(fns, c, Some(member), 999, r) && r.Some?
    ensures r.value < |fns| && fns[r.value].isMemberFunction == member && fns[r.value].name == c.name
  {
    Resolution(fns, c, Some(member), r);
  }

  /** `f(int32)` and `f(double)`, in this order, called with a `float`: the second one. */
  lemma DoubleForFloat(fns: seq<FunctionID>, inferred: bool, r: Option<nat>)
    requires fns == [FunctionID("f", [Argument(5, false)], false), FunctionID("f", [Argument(16, false)], false)]
    requires LookedUp(fns, Call("f", [17], inferred), Some(false), 999, r)
    ensures r == Some(1)
  {
    FloatPreferred(fns, "f", 17, inferred, false, r, 1, 16, 5);
  }
}
