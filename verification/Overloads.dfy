/** Choosing a function for a call by scoring the types of its arguments. */
module Overloads {
  import opened Wrappers

  // The types that matter, in the order of their enumeration.
  const Integer_Node: nat := 2
  const SInt128_Type: nat := 3
  const SInt8_Type: nat := 7
  const Begin_Unsigned_Integers: nat := 8
  const UInt128_Type: nat := 9
  const UInt8_Type: nat := 13
  const Boolean_Node: nat := 15
  const Double_Type: nat := 16
  const Half_Type: nat := 18

  datatype Argument = Argument(baseType: nat, mustBeExactType: bool)

  datatype FunctionID = FunctionID(name: string, arguments: seq<Argument>, isMemberFunction: bool)

  predicate IsInteger(t: nat) {
    Integer_Node <= t <= Boolean_Node
  }

  predicate IsFloat(t: nat) {
    Double_Type <= t <= Half_Type
  }

  /** `compareASTNodeTypes` */
  predicate SameType(a: nat, b: nat, wereTypesInferred: bool) {
    || a == b
    || (wereTypesInferred &&
        if a < Begin_Unsigned_Integers && Begin_Unsigned_Integers < b <= UInt8_Type then a == b - (Begin_Unsigned_Integers + 1)
        else b < Begin_Unsigned_Integers && Begin_Unsigned_Integers < a <= UInt8_Type && b == a - (Begin_Unsigned_Integers + 1))
  }

  /** A signed type is never taken for its unsigned counterpart: the offset between them is not the one that is compared. */
  lemma SignsStayApart(signed: nat)
    requires SInt128_Type <= signed <= SInt8_Type
    ensures !SameType(signed, signed - SInt128_Type + UInt128_Type, true)
  {
  }

  /** Types nine places apart in the enumeration, the first five with those from the 128-bit unsigned one on. */
  predicate Paired(a: nat, b: nat) {
    (a <= 4 && b == a + 9) || (b <= 4 && a == b + 9)
  }

  /** What inferred types are taken for: for one, a signed 64-bit type for the unsigned 8-bit one. */
  lemma TakenForAnother(a: nat, b: nat)
    ensures SameType(a, b, true) <==> a == b || Paired(a, b)
    ensures Paired(SInt128_Type + 1, UInt8_Type)
  {
  }

  // ------------------------------------------------------------------- scores

  /** What one argument adds to the score. */
  function Penalty(t1: nat, t2: nat, wereTypesInferred: bool): (p: nat)
    ensures p <= 13
  {
    if SameType(t1, t2, wereTypesInferred) then 0
    else if IsInteger(t1) then if !IsInteger(t2) then Boolean_Node - Integer_Node else if t1 <= t2 then t2 - t1 else t1 - t2
    else if IsFloat(t1) then if !IsFloat(t2) then Half_Type - Double_Type else if t1 <= t2 then t2 - t1 else t1 - t2
    else 0
  }

  function Distance(f: FunctionID, args: seq<nat>, wereTypesInferred: bool, n: nat): nat
    requires n <= |args| == |f.arguments|
  {
    if n == 0 then 0
    else Distance(f, args, wereTypesInferred, n - 1) + Penalty(f.arguments[n - 1].baseType, args[n - 1], wereTypesInferred)
  }

  /** An argument that has to be of exactly its numeric type is not. */
  predicate Refuses(a: Argument, t: nat, wereTypesInferred: bool) {
    a.mustBeExactType && (IsInteger(a.baseType) || IsFloat(a.baseType)) && !SameType(a.baseType, t, wereTypesInferred)
  }

  predicate Fits(f: FunctionID, name: string, args: seq<nat>) {
    f.name == name && |f.arguments| == |args|
  }

  predicate Refused(f: FunctionID, name: string, args: seq<nat>, wereTypesInferred: bool) {
    Fits(f, name, args) && exists i | 0 <= i < |args| :: Refuses(f.arguments[i], args[i], wereTypesInferred)
  }

  predicate Viable(f: FunctionID, name: string, args: seq<nat>, wereTypesInferred: bool) {
    Fits(f, name, args) && forall i | 0 <= i < |args| :: !Refuses(f.arguments[i], args[i], wereTypesInferred)
  }

  /** The score, in 16 bits. */
  function Score(f: FunctionID, name: string, args: seq<nat>, wereTypesInferred: bool): nat {
    if f.name != name then 1000
    else if |f.arguments| != |args| then 999
    else if Refused(f, name, args, wereTypesInferred) then 500
    else Distance(f, args, wereTypesInferred, |args|) % 0x1_0000
  }

  /** `compareMatch` */
  method CompareMatch(f: FunctionID, name: string, args: seq<nat>, wereTypesInferred: bool) returns (score: nat)
    ensures score == Score(f, name, args, wereTypesInferred)
  {
    if name != f.name {
      return 1000;
    }
    if |f.arguments| != |args| {
      return 1000 - 1;
    }
    var differences := 0;
    for i := 0 to |args|
      invariant differences == Distance(f, args, wereTypesInferred, i) % 0x1_0000
      invariant forall k | 0 <= k < i :: !Refuses(f.arguments[k], args[k], wereTypesInferred)
    {
      var t1, t2 := f.arguments[i].baseType, args[i];
      if SameType(t1, t2, wereTypesInferred) {
        continue;
      }
      if IsInteger(t1) || IsFloat(t1) {
        if f.arguments[i].mustBeExactType {
          assert Refuses(f.arguments[i], args[i], wereTypesInferred);
          return 500;
        }
        AddModulo(Distance(f, args, wereTypesInferred, i), Penalty(t1, t2, wereTypesInferred));
        differences := (differences + Penalty(t1, t2, wereTypesInferred)) % 0x1_0000;
      }
    }
    return differences;
  }

  lemma AddModulo(a: nat, b: nat)
    ensures (a % 0x1_0000 + b) % 0x1_0000 == (a + b) % 0x1_0000
  {
  }

  lemma {:induction false} DistanceBound(f: FunctionID, args: seq<nat>, wereTypesInferred: bool, n: nat)
    requires n <= |args| == |f.arguments|
    ensures Distance(f, args, wereTypesInferred, n) <= 13 * n
    decreases n
  {
    if n > 0 {
      DistanceBound(f, args, wereTypesInferred, n - 1);
    }
  }

  // ----------------------------------------------------------- when a score is zero

  /** An argument that adds nothing: the same type, a pair of inferred ones, or anything for a parameter that is no number. */
  predicate Costless(t1: nat, t2: nat, wereTypesInferred: bool) {
    t1 == t2 || (wereTypesInferred && Paired(t1, t2)) || !(IsInteger(t1) || IsFloat(t1))
  }

  predicate AllCostless(f: FunctionID, name: string, args: seq<nat>, wereTypesInferred: bool) {
    Fits(f, name, args) && forall i | 0 <= i < |args| :: Costless(f.arguments[i].baseType, args[i], wereTypesInferred)
  }

  lemma PenaltyZero(t1: nat, t2: nat, wereTypesInferred: bool)
    ensures Penalty(t1, t2, wereTypesInferred) == 0 <==> Costless(t1, t2, wereTypesInferred)
  {
    TakenForAnother(t1, t2);
  }

  lemma {:induction false} DistanceZero(f: FunctionID, args: seq<nat>, wereTypesInferred: bool, n: nat)
    requires n <= |args| == |f.arguments|
    ensures Distance(f, args, wereTypesInferred, n) == 0
       <==> forall i | 0 <= i < n :: Costless(f.arguments[i].baseType, args[i], wereTypesInferred)
    decreases n
  {
    if n > 0 {
      DistanceZero(f, args, wereTypesInferred, n - 1);
      PenaltyZero(f.arguments[n - 1].baseType, args[n - 1], wereTypesInferred);
    }
  }

  lemma CostlessNotRefused(a: Argument, t: nat, wereTypesInferred: bool)
    requires Costless(a.baseType, t, wereTypesInferred)
    ensures !Refuses(a, t, wereTypesInferred)
  {
    TakenForAnother(a.baseType, t);
  }

  /** A score is zero if and only if every argument is costless, unless so many arguments wrap it around. */
  lemma ScoreZero(f: FunctionID, name: string, args: seq<nat>, wereTypesInferred: bool)
    ensures AllCostless(f, name, args, wereTypesInferred) ==> Score(f, name, args, wereTypesInferred) == 0
    ensures |args| <= 5041 && Score(f, name, args, wereTypesInferred) == 0 ==> AllCostless(f, name, args, wereTypesInferred)
  {
    if Fits(f, name, args) {
      DistanceZero(f, args, wereTypesInferred, |args|);
      DistanceBound(f, args, wereTypesInferred, |args|);
      forall i | 0 <= i < |args| && Costless(f.arguments[i].baseType, args[i], wereTypesInferred)
        ensures !Refuses(f.arguments[i], args[i], wereTypesInferred)
      {
        CostlessNotRefused(f.arguments[i], args[i], wereTypesInferred);
      }
    }
  }

  /** A function of `n` integer arguments whose distance from booleans and one 32-bit type is 65536. */
  lemma {:induction false} AllTheWayRound(n: nat) returns (f: FunctionID, args: seq<nat>)
    requires n >= 5042
    ensures |args| == n && Score(f, "f", args, false) == 0 && !AllCostless(f, "f", args, false)
  {
    f := FunctionID("f", seq(n, i => Argument(Integer_Node, false)), false);
    args := seq(n, i => if i < 5041 then Boolean_Node else if i == 5041 then SInt128_Type + 2 else Integer_Node);
    var m := 0;
    while m < n
      invariant m <= n && Distance(f, args, false, m) == if m <= 5041 then 13 * m else 0x1_0000
    {
      assert Penalty(Integer_Node, args[m], false) == if m < 5041 then 13 else if m == 5041 then 3 else 0;
      m := m + 1;
    }
    assert Viable(f, "f", args, false);
    assert !Costless(f.arguments[0].baseType, args[0], false);
  }

  ghost predicate ZeroIsCostless(f: FunctionID, name: string, args: seq<nat>, wereTypesInferred: bool) {
    Score(f, name, args, wereTypesInferred) == 0 ==> AllCostless(f, name, args, wereTypesInferred)
  }

  /** That only holds for up to 5041 arguments. */
  lemma ZeroApart(n: nat)
    ensures (forall f, name, args, inferred | |args| == n :: ZeroIsCostless(f, name, args, inferred)) <==> n <= 5041
  {
    if n <= 5041 {
      forall f, name, args, inferred | |args| == n
        ensures ZeroIsCostless(f, name, args, inferred)
      {
        ScoreZero(f, name, args, inferred);
      }
    } else {
      var f, args := AllTheWayRound(n);
      assert !ZeroIsCostless(f, "f", args, false);
    }
  }

  /** A function of `n` integer arguments whose distance from booleans and unsigned types is 500. */
  lemma {:induction false} FarAway(n: nat) returns (f: FunctionID, args: seq<nat>)
    requires n >= 39
    ensures |args| == n && Viable(f, "f", args, false) && Distance(f, args, false, n) == 500
  {
    f := FunctionID("f", seq(n, i => Argument(Integer_Node, false)), false);
    args := seq(n, i => if i < 38 then Boolean_Node else if i == 38 then Begin_Unsigned_Integers else Integer_Node);
    var m := 0;
    while m < n
      invariant m <= n && Distance(f, args, false, m) == if m <= 38 then 13 * m else 500
    {
      assert Penalty(Integer_Node, args[m], false) == if m < 38 then 13 else if m == 38 then 6 else 0;
      m := m + 1;
    }
  }

  ghost predicate Apart(f: FunctionID, name: string, args: seq<nat>) {
    Viable(f, name, args, false) ==> Score(f, name, args, false) < 500
  }

  /** Scores of viable functions stay below those of refusals for up to 38 arguments, and no more. */
  lemma TiersApart(n: nat)
    ensures (forall f, name, args | |args| == n :: Apart(f, name, args)) <==> n <= 38
  {
    if n <= 38 {
      forall f, name, args | |args| == n
        ensures Apart(f, name, args)
      {
        if Viable(f, name, args, false) {
          DistanceBound(f, args, false, n);
        }
      }
    } else {
      var f, args := FarAway(n);
      assert !Apart(f, "f", args);
    }
  }

  // ------------------------------------------------------------------- lookup

  /** A call: name, argument types, and what is known about them. */
  datatype Call = Call(name: string, args: seq<nat>, wereTypesInferred: bool)

  predicate Passes(f: FunctionID, member: Option<bool>) {
    member.None? || member.value == f.isMemberFunction
  }

  function ScoreOf(f: FunctionID, c: Call): nat {
    Score(f, c.name, c.args, c.wereTypesInferred)
  }

  predicate IsViable(f: FunctionID, c: Call) {
    Viable(f, c.name, c.args, c.wereTypesInferred)
  }

  predicate IsRefused(f: FunctionID, c: Call) {
    Refused(f, c.name, c.args, c.wereTypesInferred)
  }

  function DistanceOf(f: FunctionID, c: Call): nat
    requires IsViable(f, c)
  {
    Distance(f, c.args, c.wereTypesInferred, |c.args|)
  }

  /** The first of the least scores among the first `n` functions. */
  ghost predicate Least(fns: seq<FunctionID>, c: Call, member: Option<bool>, n: nat, best: nat, bestScore: nat)
    requires n <= |fns|
  {
    && (forall i | 0 <= i < n && Passes(fns[i], member) :: bestScore <= ScoreOf(fns[i], c))
    && bestScore <= 1000
    && (bestScore < 1000 ==> best < n && Passes(fns[best], member) && ScoreOf(fns[best], c) == bestScore)
    && (bestScore < 1000 ==> forall i | 0 <= i < best && Passes(fns[i], member) :: bestScore < ScoreOf(fns[i], c))
  }

  /** The loop of the lookups. */
  method FindBest(fns: seq<FunctionID>, c: Call, member: Option<bool>) returns (best: nat, bestScore: nat)
    ensures Least(fns, c, member, |fns|, best, bestScore)
  {
    best, bestScore := 0, 1000;
    for i := 0 to |fns|
      invariant Least(fns, c, member, i, best, bestScore)
    {
      var score := CompareMatch(fns[i], c.name, c.args, c.wereTypesInferred);
      if !Passes(fns[i], member) {
        continue;
      }
      if score < bestScore {
        best, bestScore := i, score;
      }
    }
  }

  /** `getFunctionFromID`: the best function, unless it refuses. */
  method GetFunctionFromID(fns: seq<FunctionID>, c: Call, isMemberFunction: bool) returns (r: Option<nat>)
    ensures LookedUp(fns, c, Some(isMemberFunction), 999, r)
  {
    var best, bestScore := FindBest(fns, c, Some(isMemberFunction));
    if bestScore == 500 {
      return None;
    }
    r := if bestScore < 1000 then Some(best) else None;
  }

  /** `getExactFunctionFromID`: the best function, if it scores zero. */
  method GetExactFunctionFromID(fns: seq<FunctionID>, c: Call) returns (r: Option<nat>)
    ensures LookedUp(fns, c, None, 0, r)
  {
    var best, bestScore := FindBest(fns, c, None);
    if bestScore == 500 {
      return None;
    }
    r := if bestScore == 0 then Some(best) else None;
  }

  /** The first of the least scores, if that is at most `limit` and no refusal. */
  ghost predicate LookedUp(fns: seq<FunctionID>, c: Call, member: Option<bool>, limit: nat, r: Option<nat>) {
    exists best: nat, bestScore: nat ::
      Least(fns, c, member, |fns|, best, bestScore) && r == if bestScore != 500 && bestScore <= limit then Some(best) else None
  }

  datatype Tier = Matches | Refusal | WrongArity | WrongName

  function TierOf(f: FunctionID, c: Call): Tier {
    if f.name != c.name then WrongName
    else if |f.arguments| != |c.args| then WrongArity
    else if IsRefused(f, c) then Refusal
    else Matches
  }

  lemma TierScore(f: FunctionID, c: Call)
    requires |c.args| <= 38
    ensures match TierOf(f, c)
            case Matches => IsViable(f, c) && ScoreOf(f, c) == DistanceOf(f, c) < 500
            case Refusal => ScoreOf(f, c) == 500
            case WrongArity => ScoreOf(f, c) == 999
            case WrongName => ScoreOf(f, c) == 1000
  {
    if TierOf(f, c).Matches? {
      DistanceBound(f, c.args, c.wereTypesInferred, |c.args|);
    }
  }

  /** Some function that passes the filter is of the given tier. */
  ghost predicate Any(fns: seq<FunctionID>, c: Call, member: Option<bool>, tier: Tier) {
    exists i :: 0 <= i < |fns| && Passes(fns[i], member) && TierOf(fns[i], c) == tier
  }

  /** `k` is the nearest match, and the first such. */
  ghost predicate Nearest(fns: seq<FunctionID>, c: Call, member: Option<bool>, k: nat) {
    && k < |fns| && Passes(fns[k], member) && IsViable(fns[k], c)
    && forall i | 0 <= i < |fns| && Passes(fns[i], member) && IsViable(fns[i], c) ::
         if i < k then DistanceOf(fns[k], c) < DistanceOf(fns[i], c) else DistanceOf(fns[k], c) <= DistanceOf(fns[i], c)
  }

  /**
   A call with up to 38 arguments resolves to the first of the nearest
   matches; when there is none, it fails if a function refuses or none has
   the name, but resolves to the first function with the name when only the
   number of arguments is wrong.
   */
  lemma Resolution(fns: seq<FunctionID>, c: Call, member: Option<bool>, r: Option<nat>)
    requires |c.args| <= 38 && LookedUp(fns, c, member, 999, r)
    ensures Any(fns, c, member, Matches) ==> r.Some? && Nearest(fns, c, member, r.value)
    ensures !Any(fns, c, member, Matches) && (Any(fns, c, member, Refusal) || !Any(fns, c, member, WrongArity)) ==> r == None
    ensures !Any(fns, c, member, Matches) && !Any(fns, c, member, Refusal) && Any(fns, c, member, WrongArity) ==>
              && r.Some? && r.value < |fns| && Passes(fns[r.value], member) && TierOf(fns[r.value], c) == WrongArity
              && forall i | 0 <= i < r.value && Passes(fns[i], member) :: TierOf(fns[i], c) == WrongName
  {
    forall i | 0 <= i < |fns|
      ensures ScoreOf(fns[i], c) < 500 <==> TierOf(fns[i], c) == Matches
      ensures ScoreOf(fns[i], c) == 500 <==> TierOf(fns[i], c) == Refusal
      ensures ScoreOf(fns[i], c) == 999 <==> TierOf(fns[i], c) == WrongArity
      ensures ScoreOf(fns[i], c) == 1000 <==> TierOf(fns[i], c) == WrongName
      ensures IsViable(fns[i], c) <==> TierOf(fns[i], c) == Matches
      ensures IsViable(fns[i], c) ==> ScoreOf(fns[i], c) == DistanceOf(fns[i], c)
    {
      TierScore(fns[i], c);
    }
    var best: nat, bestScore: nat :| Least(fns, c, member, |fns|, best, bestScore)
      && r == if bestScore != 500 && bestScore <= 999 then Some(best) else None;
    if Any(fns, c, member, WrongArity) {
      var i :| 0 <= i < |fns| && Passes(fns[i], member) && TierOf(fns[i], c) == WrongArity;
      assert bestScore <= 999 && ScoreOf(fns[best], c) == bestScore;
    }
  }

  /**
   The exact lookup succeeds if and only if some function scores zero, and
   finds the first; which is one whose arguments are all costless.
   */
  lemma ExactResolution(fns: seq<FunctionID>, c: Call, r: Option<nat>)
    requires LookedUp(fns, c, None, 0, r)
    ensures r.Some? <==> exists i :: 0 <= i < |fns| && ScoreOf(fns[i], c) == 0
    ensures r.Some? ==> r.value < |fns| && ScoreOf(fns[r.value], c) == 0 && forall i | 0 <= i < r.value :: ScoreOf(fns[i], c) != 0
    ensures |c.args| <= 5041 ==>
              && (r.Some? <==> exists i :: 0 <= i < |fns| && AllCostless(fns[i], c.name, c.args, c.wereTypesInferred))
              && (r.Some? ==> AllCostless(fns[r.value], c.name, c.args, c.wereTypesInferred))
  {
    forall i | 0 <= i < |fns|
      ensures ScoreOf(fns[i], c) == 0 <== AllCostless(fns[i], c.name, c.args, c.wereTypesInferred)
      ensures |c.args| <= 5041 && ScoreOf(fns[i], c) == 0 ==> AllCostless(fns[i], c.name, c.args, c.wereTypesInferred)
    {
      ScoreZero(fns[i], c.name, c.args, c.wereTypesInferred);
    }
    forall i | 0 <= i < |fns|
      ensures Passes(fns[i], None)
    {
    }
  }
}
