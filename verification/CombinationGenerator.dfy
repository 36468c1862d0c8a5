/**
 The odometer: one position per variable, the last variable turning fastest.
 It visits every combination of choices once, in lexicographic order.
 */
module CombinationGenerator {
  // ------------------------------------------------------- mixed-radix numbers

  ghost predicate Digits(sizes: seq<nat>, ds: seq<nat>) {
    |ds| == |sizes| && forall i | 0 <= i < |sizes| :: ds[i] < sizes[i]
  }

  /** The number of combinations. */
  function Product(sizes: seq<nat>): nat {
    if sizes == [] then 1 else Product(sizes[..|sizes| - 1]) * sizes[|sizes| - 1]
  }

  /** The number that the digits stand for; the last digit counts ones. */
  function Value(sizes: seq<nat>, ds: seq<nat>): nat
    requires |ds| == |sizes|
  {
    var n := |sizes| - 1;
    if n < 0 then 0 else Value(sizes[..n], ds[..n]) * sizes[n] + ds[n]
  }

  /** The digits of a number. */
  function Expand(sizes: seq<nat>, k: nat): (ds: seq<nat>)
    requires forall i | 0 <= i < |sizes| :: sizes[i] > 0
    ensures |ds| == |sizes|
  {
    var n := |sizes| - 1;
    if n < 0 then [] else Expand(sizes[..n], k / sizes[n]) + [k % sizes[n]]
  }

  lemma MulLess(a: nat, b: nat, m: nat, d: nat)
    requires a < b && d < m
    ensures a * m + d < b * m
  {
    assert (a + 1) * m <= b * m;
  }

  lemma {:induction false} ValueInRange(sizes: seq<nat>, ds: seq<nat>)
    requires Digits(sizes, ds)
    ensures Value(sizes, ds) < Product(sizes)
  {
    var n := |sizes| - 1;
    if n >= 0 {
      ValueInRange(sizes[..n], ds[..n]);
      MulLess(Value(sizes[..n], ds[..n]), Product(sizes[..n]), sizes[n], ds[n]);
    }
  }

  lemma DivMod(a: nat, m: nat, d: nat)
    requires d < m
    ensures (a * m + d) / m == a && (a * m + d) % m == d
  {
    var q := (a * m + d) / m;
    assert a * m + d == q * m + (a * m + d) % m;
    if q < a {
      MulLess(q, a, m, (a * m + d) % m);
    } else if q > a {
      MulLess(a, q, m, d);
    }
  }

  lemma DivLess(k: nat, p: nat, m: nat)
    requires m > 0 && k < p * m
    ensures k / m < p
  {
    assert (k / m) * m <= k;
    if k / m >= p {
      MulAtMost(p, k / m, m);
    }
  }

  lemma MulAtMost(a: nat, b: nat, m: nat)
    requires a <= b
    ensures a * m <= b * m
  {
  }

  /** Digits and numbers below the product correspond one to one. */
  lemma {:induction false} ValueExpand(sizes: seq<nat>, k: nat)
    requires (forall i | 0 <= i < |sizes| :: sizes[i] > 0) && k < Product(sizes)
    ensures Digits(sizes, Expand(sizes, k)) && Value(sizes, Expand(sizes, k)) == k
  {
    var n := |sizes| - 1;
    if n >= 0 {
      DivLess(k, Product(sizes[..n]), sizes[n]);
      ValueExpand(sizes[..n], k / sizes[n]);
      var ds := Expand(sizes, k);
      assert ds[..n] == Expand(sizes[..n], k / sizes[n]);
      forall i | 0 <= i < |sizes|
        ensures ds[i] < sizes[i]
      {
        if i < n {
          assert ds[i] == ds[..n][i] && sizes[i] == sizes[..n][i];
        }
      }
    }
  }

  lemma {:induction false} ExpandValue(sizes: seq<nat>, ds: seq<nat>)
    requires Digits(sizes, ds)
    ensures (forall i | 0 <= i < |sizes| :: sizes[i] > 0) && Expand(sizes, Value(sizes, ds)) == ds
  {
    var n := |sizes| - 1;
    if n >= 0 {
      ExpandValue(sizes[..n], ds[..n]);
      DivMod(Value(sizes[..n], ds[..n]), sizes[n], ds[n]);
      assert ds == ds[..n] + [ds[n]];
    }
  }

  /** Lexicographic order, the first variable deciding first. */
  ghost predicate Before(a: seq<nat>, b: seq<nat>)
    requires |a| == |b|
  {
    exists i :: 0 <= i < |a| && a[i] < b[i] && a[..i] == b[..i]
  }

  lemma {:induction false} BeforeIsLess(sizes: seq<nat>, a: seq<nat>, b: seq<nat>)
    requires Digits(sizes, a) && Digits(sizes, b)
    ensures Before(a, b) <==> Value(sizes, a) < Value(sizes, b)
  {
    var n := |sizes| - 1;
    if n >= 0 {
      var x, y := Value(sizes[..n], a[..n]), Value(sizes[..n], b[..n]);
      BeforeIsLess(sizes[..n], a[..n], b[..n]);
      BeforeSplits(a, b, n);
      HigherDecides(x, y, sizes[n], a[n], b[n]);
      if x == y {
        ExpandValue(sizes[..n], a[..n]);
        ExpandValue(sizes[..n], b[..n]);
      }
    }
  }

  lemma HigherDecides(x: nat, y: nat, m: nat, d: nat, e: nat)
    requires d < m && e < m
    ensures x * m + d < y * m + e <==> x < y || (x == y && d < e)
  {
    if x < y {
      MulLess(x, y, m, d);
    } else if y < x {
      MulLess(y, x, m, e);
    }
  }

  lemma BeforeSplits(a: seq<nat>, b: seq<nat>, n: nat)
    requires |a| == |b| == n + 1
    ensures Before(a, b) <==> Before(a[..n], b[..n]) || (a[..n] == b[..n] && a[n] < b[n])
  {
    if Before(a, b) {
      var i :| 0 <= i < |a| && a[i] < b[i] && a[..i] == b[..i];
      if i < n {
        assert a[..n][i] < b[..n][i] && a[..n][..i] == a[..i] && b[..n][..i] == b[..i];
      }
    }
    if Before(a[..n], b[..n]) {
      var i :| 0 <= i < n && a[..n][i] < b[..n][i] && a[..n][..i] == b[..n][..i];
      assert a[i] < b[i] && a[..i] == a[..n][..i] && b[..i] == b[..n][..i];
    }
  }

  // -------------------------------------------------------------- incrementing

  /** One tick: the digits afterwards and whether all of them wrapped around. */
  function Tick(sizes: seq<nat>, ds: seq<nat>): (r: (seq<nat>, bool))
    requires |ds| == |sizes|
    ensures |r.0| == |sizes|
  {
    var n := |sizes| - 1;
    if n < 0 then ([], true)
    else if ds[n] + 1 != sizes[n] then (ds[..n] + [ds[n] + 1], false)
    else
      var (rest, wrapped) := Tick(sizes[..n], ds[..n]);
      (rest + [0], wrapped)
  }

  /** A tick adds one; it wraps exactly from the last combination to the first. */
  lemma {:induction false} TickAddsOne(sizes: seq<nat>, ds: seq<nat>)
    requires Digits(sizes, ds)
    ensures var (next, wrapped) := Tick(sizes, ds);
            && Digits(sizes, next)
            && (wrapped <==> Value(sizes, ds) + 1 == Product(sizes))
            && Value(sizes, next) == if wrapped then 0 else Value(sizes, ds) + 1
  {
    var n := |sizes| - 1;
    if n >= 0 {
      var m, x, p := sizes[n], Value(sizes[..n], ds[..n]), Product(sizes[..n]);
      TickAddsOne(sizes[..n], ds[..n]);
      ValueInRange(sizes[..n], ds[..n]);
      Carry(x, p, m, ds[n]);
      var next := Tick(sizes, ds).0;
      assert next[..n] == if ds[n] + 1 != m then ds[..n] else Tick(sizes[..n], ds[..n]).0;
    }
  }

  /** Adding one to the last digit `d` of `x * m + d`. */
  lemma Carry(x: nat, p: nat, m: nat, d: nat)
    requires x < p && d < m
    ensures d + 1 < m ==> x * m + d + 1 < p * m
    ensures d + 1 == m ==> x * m + d + 1 == (x + 1) * m && (x + 1 == p <==> (x + 1) * m == p * m)
  {
    if d + 1 < m {
      MulLess(x, p, m, d + 1);
    } else if x + 1 < p {
      MulLess(x + 1, p, m, 0);
    }
  }

  /** Where the carry stops: variables after `i` wrap to zero, those before it stay. */
  lemma {:induction false} TickStops(sizes: seq<nat>, ds: seq<nat>, i: nat)
    requires |ds| == |sizes| && i < |ds| && ds[i] + 1 != sizes[i]
    requires forall k | i < k < |ds| :: ds[k] + 1 == sizes[k]
    ensures !Tick(sizes, ds).1
    ensures forall k | 0 <= k < |ds| :: Tick(sizes, ds).0[k] == if k < i then ds[k] else if k == i then ds[i] + 1 else 0
  {
    var n := |sizes| - 1;
    if i < n {
      TickStops(sizes[..n], ds[..n], i);
    }
  }

  lemma TickStays(sizes: seq<nat>, ds: seq<nat>)
    requires Digits(sizes, ds)
    ensures Digits(sizes, Tick(sizes, ds).0)
  {
    TickAddsOne(sizes, ds);
  }

  lemma {:induction false} TickWraps(sizes: seq<nat>, ds: seq<nat>)
    requires |ds| == |sizes| && forall k | 0 <= k < |ds| :: ds[k] + 1 == sizes[k]
    ensures Tick(sizes, ds).1 && forall k | 0 <= k < |ds| :: Tick(sizes, ds).0[k] == 0
  {
    var n := |sizes| - 1;
    if n >= 0 {
      TickWraps(sizes[..n], ds[..n]);
    }
  }

  // ---------------------------------------------------------------- generator

  ghost function Sizes<T>(choices: seq<seq<T>>): (sizes: seq<nat>)
    ensures |sizes| == |choices| && forall i | 0 <= i < |choices| :: sizes[i] == |choices[i]|
  {
    seq(|choices|, i requires 0 <= i < |choices| => |choices[i]|)
  }

  /** The combination that the positions select. */
  ghost function Select<T>(choices: seq<seq<T>>, ds: seq<nat>): (c: seq<T>)
    requires Digits(Sizes(choices), ds)
    ensures |c| == |choices| && forall i | 0 <= i < |choices| :: c[i] == choices[i][ds[i]]
  {
    seq(|choices|, i requires 0 <= i < |choices| => choices[i][ds[i]])
  }

  /** All combinations in order. */
  ghost function All<T>(choices: seq<seq<T>>): (all: seq<seq<T>>)
    requires forall i | 0 <= i < |choices| :: choices[i] != []
    ensures |all| == Product(Sizes(choices))
  {
    var sizes := Sizes(choices);
    seq(Product(sizes), k requires 0 <= k < Product(sizes) => ValueExpand(sizes, k); Select(choices, Expand(sizes, k)))
  }

  /** A choice range with a position that wraps around at its end. */
  class WrappingIterator<T> {
    const range: seq<T>
    var position: nat

    ghost predicate Valid()
      reads this
    {
      position < |range|
    }

    constructor (range_: seq<T>)
      requires range_ != []
      ensures Valid() && range == range_ && position == 0
    {
      range := range_;
      position := 0;
    }

    method Advance() returns (wrapped: bool)
      requires Valid()
      modifies this
      ensures Valid() && (wrapped <==> old(position) + 1 == |range|)
      ensures position == if wrapped then 0 else old(position) + 1
    {
      position := position + 1;
      wrapped := position == |range|;
      if wrapped {
        position := 0;
      }
    }
  }

  /** The iterators stand at these positions of these ranges, and no two are the same object. */
  ghost predicate Standing<T>(state: seq<WrappingIterator<T>>, choices: seq<seq<T>>, ds: seq<nat>)
    reads state
  {
    && |state| == |choices| && Digits(Sizes(choices), ds)
    && (forall i | 0 <= i < |state| :: state[i].range == choices[i] && state[i].position == ds[i])
    && (forall i, j | 0 <= i < j < |state| :: state[i] != state[j])
  }

  /** `IncrementState`: from the least significant variable on, until one does not wrap. */
  method IncrementState<T>(state: seq<WrappingIterator<T>>, choices: seq<seq<T>>, ghost ds: seq<nat>) returns (wrapped: bool)
    requires Standing(state, choices, ds)
    modifies state
    ensures Standing(state, choices, Tick(Sizes(choices), ds).0)
    ensures wrapped == Tick(Sizes(choices), ds).1
  {
    ghost var sizes := Sizes(choices);
    TickStays(sizes, ds);
    for i := |state| downto 0
      invariant forall k | 0 <= k < i :: state[k].position == ds[k]
      invariant forall k | i <= k < |state| :: state[k].position == 0 && ds[k] + 1 == sizes[k]
    {
      var w := state[i].Advance();
      if !w {
        TickStops(sizes, ds, i);
        return false;
      }
    }
    TickWraps(sizes, ds);
    return true;
  }

  /**
   `performGeneration`.  `abort` stands for the callback, which sees all calls
   made so far and may stop the generation.
   */
  method PerformGeneration<T(0)>(choices: seq<seq<T>>, abort: seq<seq<T>> -> bool) returns (calls: seq<seq<T>>)
    requires forall i | 0 <= i < |choices| :: choices[i] != []
    ensures 0 < |calls| <= |All(choices)| && calls == All(choices)[..|calls|]
    ensures forall n | 0 < n < |calls| :: !abort(All(choices)[..n])
    ensures abort(calls) || calls == All(choices)
  {
    ghost var sizes, ds := Sizes(choices), seq(|choices|, _ => 0);
    FirstIsZero(sizes, ds);
    var state := InitialState(choices);
    calls := [];
    var done := false;
    while !done
      invariant fresh(set o | o in state)
      invariant !done ==> Standing(state, choices, ds) && |calls| == Value(sizes, ds) < Product(sizes)
      invariant |calls| <= |All(choices)| && calls == All(choices)[..|calls|]
      invariant forall n | 0 < n < |calls| :: !abort(All(choices)[..n])
      invariant !done && calls != [] ==> !abort(calls)
      invariant done ==> calls != [] && (abort(calls) || calls == All(choices))
      decreases Product(sizes) - |calls|, !done
    {
      var current := Gather(state, choices, ds);
      CallIs(choices, ds);
      calls := calls + [current];
      if abort(calls) {
        done := true;
      } else {
        TickAddsOne(sizes, ds);
        done := IncrementState(state, choices, ds);
        ds := Tick(sizes, ds).0;
        ValueInRange(sizes, ds);
      }
    }
  }

  /** One iterator per variable, each at its first choice. */
  method InitialState<T>(choices: seq<seq<T>>) returns (state: seq<WrappingIterator<T>>)
    requires forall i | 0 <= i < |choices| :: choices[i] != []
    ensures Standing(state, choices, seq(|choices|, _ => 0)) && fresh(set o | o in state)
  {
    state := [];
    for i := 0 to |choices|
      invariant |state| == i && fresh(set o | o in state)
      invariant forall k | 0 <= k < i :: state[k].range == choices[k] && state[k].position == 0
      invariant forall j, k | 0 <= j < k < i :: state[j] != state[k]
    {
      var v := new WrappingIterator(choices[i]);
      state := state + [v];
    }
  }

  /** Fills the buffer with the currently selected choices. */
  method Gather<T(0)>(state: seq<WrappingIterator<T>>, choices: seq<seq<T>>, ghost ds: seq<nat>) returns (c: seq<T>)
    requires Standing(state, choices, ds)
    ensures c == Select(choices, ds)
  {
    var current := new T[|state|];
    for i := 0 to |state|
      invariant forall k | 0 <= k < i :: current[k] == choices[k][ds[k]]
    {
      current[i] := state[i].range[state[i].position];
    }
    c := current[..];
  }

  lemma {:induction false} FirstIsZero(sizes: seq<nat>, ds: seq<nat>)
    requires (forall i | 0 <= i < |sizes| :: sizes[i] > 0) && ds == seq(|sizes|, _ => 0)
    ensures Digits(sizes, ds) && Value(sizes, ds) == 0 < Product(sizes)
  {
    var n := |sizes| - 1;
    if n >= 0 {
      FirstIsZero(sizes[..n], ds[..n]);
      MulLess(0, Product(sizes[..n]), sizes[n], 0);
    }
  }

  /** The call that the positions `ds` produce, and its place in the enumeration. */
  lemma CallIs<T>(choices: seq<seq<T>>, ds: seq<nat>)
    requires (forall i | 0 <= i < |choices| :: choices[i] != []) && Digits(Sizes(choices), ds)
    ensures Value(Sizes(choices), ds) < |All(choices)|
    ensures All(choices)[Value(Sizes(choices), ds)] == Select(choices, ds)
  {
    ValueInRange(Sizes(choices), ds);
    ExpandValue(Sizes(choices), ds);
  }

  /**
   The enumeration is complete and without repetition: every tuple of choice
   indices is selected exactly once, and earlier means lexicographically before.
   */
  lemma AllOnceInOrder<T>(choices: seq<seq<T>>, a: seq<nat>, b: seq<nat>)
    requires forall i | 0 <= i < |choices| :: choices[i] != []
    requires Digits(Sizes(choices), a) && Digits(Sizes(choices), b)
    ensures var sizes := Sizes(choices);
            && Value(sizes, a) < |All(choices)| && All(choices)[Value(sizes, a)] == Select(choices, a)
            && (Value(sizes, a) == Value(sizes, b) <==> a == b)
            && (Value(sizes, a) < Value(sizes, b) <==> Before(a, b))
    ensures forall k | 0 <= k < |All(choices)| ::
              Digits(Sizes(choices), Expand(Sizes(choices), k)) && Value(Sizes(choices), Expand(Sizes(choices), k)) == k
  {
    var sizes := Sizes(choices);
    CallIs(choices, a);
    ExpandValue(sizes, a);
    ExpandValue(sizes, b);
    BeforeIsLess(sizes, a, b);
    forall k | 0 <= k < |All(choices)|
      ensures Digits(sizes, Expand(sizes, k)) && Value(sizes, Expand(sizes, k)) == k
    {
      ValueExpand(sizes, k);
    }
  }

  /** `numCombinations` */
  method NumCombinations<T>(choices: seq<seq<T>>) returns (n: nat)
    ensures n == Product(Sizes(choices))
  {
    ghost var sizes := Sizes(choices);
    n := 1;
    for i := 0 to |choices|
      invariant n == Product(sizes[..i])
    {
      assert sizes[..i + 1][..i] == sizes[..i];
      n := n * |choices[i]|;
    }
    assert sizes[..|sizes|] == sizes;
  }
}
