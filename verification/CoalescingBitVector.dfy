/**
 A set of indices kept as coalesced closed intervals.  `Insert`, `Find`, `Erase`
 and `Overlaps` stand for the interval map underneath; the operations of the
 bit vector are built on them.
 */
module CoalescingBitVector {
  /** The largest value of the index type. */
  const MAX: nat := 0xFFFF_FFFF_FFFF_FFFF

  type Index = i: nat | i <= MAX

  datatype Interval = Interval(start: Index, stop: Index) {
    predicate Contains(x: nat) {
      start <= x <= stop
    }
  }

  ghost predicate Member(s: seq<Interval>, x: nat) {
    exists i :: 0 <= i < |s| && s[i].Contains(x)
  }

  /** Sorted and disjoint. */
  ghost predicate Sorted(s: seq<Interval>) {
    && (forall i | 0 <= i < |s| :: s[i].start <= s[i].stop)
    && (forall i, j | 0 <= i < j < |s| :: s[i].stop < s[j].start)
  }

  /** ... and coalesced: between two intervals something is missing. */
  ghost predicate Coalesced(s: seq<Interval>) {
    Sorted(s) && forall i, j | 0 <= i < j < |s| :: s[i].stop + 1 < s[j].start
  }

  /** A stretch of members lies within a single interval. */
  lemma {:induction false} RunInOne(s: seq<Interval>, i: nat, a: nat, b: nat)
    requires Coalesced(s) && i < |s| && s[i].Contains(a) && a <= b
    requires forall x | a <= x <= b :: Member(s, x)
    ensures s[i].Contains(b)
  {
    if b > s[i].stop {
      NextMissing(s, i);
    }
  }

  lemma NextMissing(s: seq<Interval>, i: nat)
    requires Coalesced(s) && i < |s|
    ensures !Member(s, s[i].stop + 1)
  {
  }

  /** Coalesced intervals are determined by their members. */
  lemma {:induction false} SameMembersSame(a: seq<Interval>, b: seq<Interval>)
    requires Coalesced(a) && Coalesced(b) && forall x: nat :: Member(a, x) <==> Member(b, x)
    ensures a == b
  {
    if a == [] || b == [] {
      if a != [] {
        assert a[0].Contains(a[0].start);
        assert Member(a, a[0].start);
      }
      if b != [] {
        assert b[0].Contains(b[0].start);
        assert Member(b, b[0].start);
      }
    } else {
      FirstStart(a, b);
      FirstStart(b, a);
      FirstStop(a, b);
      FirstStop(b, a);
      forall x: nat
        ensures Member(a[1..], x) <==> Member(b[1..], x)
      {
        TailMember(a, x);
        TailMember(b, x);
      }
      SameMembersSame(a[1..], b[1..]);
    }
  }

  lemma FirstStart(a: seq<Interval>, b: seq<Interval>)
    requires Sorted(a) && Sorted(b) && a != [] && b != [] && Member(b, a[0].start)
    ensures b[0].start <= a[0].start
  {
  }

  lemma FirstStop(a: seq<Interval>, b: seq<Interval>)
    requires Coalesced(a) && Coalesced(b) && a != [] && b != [] && a[0].start == b[0].start
    requires forall x: nat :: Member(a, x) ==> Member(b, x)
    ensures a[0].stop <= b[0].stop
  {
    forall x | a[0].start <= x <= a[0].stop
      ensures Member(b, x)
    {
      assert a[0].Contains(x);
      assert Member(a, x);
    }
    RunInOne(b, 0, a[0].start, a[0].stop);
  }

  lemma TailMember(s: seq<Interval>, x: nat)
    requires Sorted(s) && s != []
    ensures Member(s[1..], x) <==> Member(s, x) && x > s[0].stop
  {
    if Member(s[1..], x) {
      var i :| 0 <= i < |s| - 1 && s[1..][i].Contains(x);
      assert s[i + 1].Contains(x);
    }
    if Member(s, x) && x > s[0].stop {
      var i :| 0 <= i < |s| && s[i].Contains(x);
      assert s[1..][i - 1].Contains(x);
    }
  }

  // ----------------------------------------------------- the interval map

  /** Replaces the intervals from `lo` up to `hi` by `v`. */
  function Splice(s: seq<Interval>, lo: nat, hi: nat, v: seq<Interval>): seq<Interval>
    requires lo <= hi <= |s|
  {
    s[..lo] + v + s[hi..]
  }

  lemma SpliceMember(s: seq<Interval>, lo: nat, hi: nat, v: seq<Interval>, x: nat)
    requires lo <= hi <= |s|
    ensures Member(Splice(s, lo, hi, v), x) <==> Member(s[..lo], x) || Member(v, x) || Member(s[hi..], x)
  {
    AppendMember(s[..lo] + v, s[hi..], x);
    AppendMember(s[..lo], v, x);
  }

  lemma AppendMember(a: seq<Interval>, b: seq<Interval>, x: nat)
    ensures Member(a + b, x) <==> Member(a, x) || Member(b, x)
  {
    if Member(a + b, x) {
      var i :| 0 <= i < |a + b| && (a + b)[i].Contains(x);
      assert if i < |a| then a[i].Contains(x) else b[i - |a|].Contains(x);
    }
    if Member(a, x) {
      var i :| 0 <= i < |a| && a[i].Contains(x);
      assert (a + b)[i].Contains(x);
    }
    if Member(b, x) {
      var i :| 0 <= i < |b| && b[i].Contains(x);
      assert (a + b)[i + |a|].Contains(x);
    }
  }

  /** One interval between its neighbours. */
  lemma SpliceCoalesced(s: seq<Interval>, lo: nat, hi: nat, v: Interval)
    requires Coalesced(s) && lo <= hi <= |s| && v.start <= v.stop
    requires forall i | 0 <= i < lo :: s[i].stop + 1 < v.start
    requires forall i | hi <= i < |s| :: v.stop + 1 < s[i].start
    ensures Coalesced(Splice(s, lo, hi, [v]))
  {
    var r := Splice(s, lo, hi, [v]);
    forall i | 0 <= i < |r|
      ensures r[i] == if i < lo then s[i] else if i == lo then v else s[i - lo - 1 + hi]
    {
    }
    forall i, j | 0 <= i < j < |r|
      ensures r[i].stop + 1 < r[j].start
    {
      var _ := (r[i], r[j]);
    }
  }

  /** `find`: the first interval that ends at or after `x`. */
  method FindInterval(s: seq<Interval>, x: Index) returns (k: nat)
    requires Sorted(s)
    ensures k <= |s| && (forall i | 0 <= i < k :: s[i].stop < x) && (k < |s| ==> s[k].stop >= x)
    ensures Member(s, x) <==> k < |s| && s[k].Contains(x)
  {
    k := 0;
    while k < |s| && s[k].stop < x
      invariant k <= |s| && forall i | 0 <= i < k :: s[i].stop < x
    {
      k := k + 1;
    }
  }

  /** `insert`: adds an interval none of whose indices is present, coalescing with its neighbours. */
  method InsertInterval(s: seq<Interval>, a: Index, b: Index) returns (r: seq<Interval>)
    requires Coalesced(s) && a <= b && forall x | a <= x <= b :: !Member(s, x)
    ensures Coalesced(r)
    ensures forall x: nat :: Member(r, x) <==> Member(s, x) || a <= x <= b
  {
    var k := FindInterval(s, a);
    BeyondGap(s, k, a, b);
    var lo := if k > 0 && s[k - 1].stop + 1 == a then k - 1 else k;
    var hi := if k < |s| && s[k].start == b + 1 then k + 1 else k;
    var v := Interval(if lo < k then s[lo].start else a, if k < hi then s[k].stop else b);
    r := Splice(s, lo, hi, [v]);
    SpliceCoalesced(s, lo, hi, v);
    forall x: nat
      ensures Member(r, x) <==> Member(s, x) || a <= x <= b
    {
      CoalescedPiece(s, lo, k, hi, a, b, v, x);
    }
  }

  /** Nothing present means the next interval starts beyond the gap. */
  lemma BeyondGap(s: seq<Interval>, k: nat, a: nat, b: nat)
    requires Sorted(s) && k <= |s| && a <= b && (forall i | 0 <= i < k :: s[i].stop < a) && (k < |s| ==> s[k].stop >= a)
    requires forall x | a <= x <= b :: !Member(s, x)
    ensures k < |s| ==> b < s[k].start
  {
    if k < |s| {
      var x := if s[k].start >= a then s[k].start else a;
      assert s[k].Contains(x);
      assert Member(s, x);
    }
  }

  lemma CoalescedPiece(s: seq<Interval>, lo: nat, k: nat, hi: nat, a: Index, b: Index, v: Interval, x: nat)
    requires lo <= k <= hi <= |s| && k - 1 <= lo && hi <= k + 1 && a <= b && Sorted(s)
    requires lo < k ==> s[lo].stop + 1 == a
    requires k < hi ==> s[k].start == b + 1
    requires v == Interval(if lo < k then s[lo].start else a, if k < hi then s[k].stop else b)
    ensures Member(Splice(s, lo, hi, [v]), x) <==> Member(s, x) || a <= x <= b
  {
    SpliceMember(s, lo, hi, [v], x);
    SpliceMember(s, lo, hi, s[lo..hi], x);
    assert s == Splice(s, lo, hi, s[lo..hi]);
    OneMember(v, x);
    SliceMember(s, lo, k, hi, x);
  }

  /** At most the interval before `k` and the one at `k`. */
  lemma SliceMember(s: seq<Interval>, lo: nat, k: nat, hi: nat, x: nat)
    requires lo <= k <= hi <= |s| && k - 1 <= lo && hi <= k + 1
    ensures Member(s[lo..hi], x) <==> (lo < k && s[lo].Contains(x)) || (k < hi && s[k].Contains(x))
  {
    if lo < k {
      assert s[lo..hi][0] == s[lo];
    }
    if k < hi {
      assert s[lo..hi][k - lo] == s[k];
    }
  }

  /** All intersections of an interval of `a` with one of `b`, in order; the one that ends first moves on. */
  function Overlaps(a: seq<Interval>, b: seq<Interval>): seq<Interval>
    decreases |a| + |b|
  {
    if a == [] || b == [] then []
    else if a[0].stop < b[0].start then Overlaps(a[1..], b)
    else if b[0].stop < a[0].start then Overlaps(a, b[1..])
    else
      [Interval(if a[0].start < b[0].start then b[0].start else a[0].start, if a[0].stop < b[0].stop then a[0].stop else b[0].stop)]
      + if b[0].stop < a[0].stop then Overlaps(a, b[1..]) else Overlaps(a[1..], b)
  }

  lemma {:induction false} OverlapsExact(a: seq<Interval>, b: seq<Interval>, x: nat)
    requires Sorted(a) && Sorted(b)
    ensures Member(Overlaps(a, b), x) <==> Member(a, x) && Member(b, x)
    decreases |a| + |b|
  {
    if a != [] && b != [] {
      HeadMember(a, x);
      HeadMember(b, x);
      TailMember(a, x);
      TailMember(b, x);
      if a[0].stop < b[0].start {
        OverlapsExact(a[1..], b, x);
      } else if b[0].stop < a[0].start {
        OverlapsExact(a, b[1..], x);
      } else {
        var rest := if b[0].stop < a[0].stop then Overlaps(a, b[1..]) else Overlaps(a[1..], b);
        var o := Overlaps(a, b)[0];
        AppendMember([o], rest, x);
        assert Overlaps(a, b) == [o] + rest && [o][0] == o;
        if b[0].stop < a[0].stop {
          OverlapsExact(a, b[1..], x);
        } else {
          OverlapsExact(a[1..], b, x);
        }
      }
    }
  }

  lemma HeadMember(s: seq<Interval>, x: nat)
    requires Sorted(s) && s != []
    ensures Member(s, x) ==> x >= s[0].start
    ensures s[0].Contains(x) ==> Member(s, x)
    ensures Member(s, x) && x <= s[0].stop ==> s[0].Contains(x)
  {
  }

  lemma {:induction false} OverlapsSorted(a: seq<Interval>, b: seq<Interval>)
    requires Sorted(a) && Sorted(b)
    ensures Sorted(Overlaps(a, b))
    ensures forall k | 0 <= k < |Overlaps(a, b)| :: Overlaps(a, b)[k].start >= a[0].start && Overlaps(a, b)[k].start >= b[0].start
    decreases |a| + |b|
  {
    if a != [] && b != [] {
      if a[0].stop < b[0].start {
        OverlapsSorted(a[1..], b);
      } else if b[0].stop < a[0].start {
        OverlapsSorted(a, b[1..]);
      } else {
        var rest := if b[0].stop < a[0].stop then Overlaps(a, b[1..]) else Overlaps(a[1..], b);
        if b[0].stop < a[0].stop {
          OverlapsSorted(a, b[1..]);
        } else {
          OverlapsSorted(a[1..], b);
        }
        SortedCons(Overlaps(a, b)[0], rest);
      }
    }
  }

  lemma SortedCons(o: Interval, rest: seq<Interval>)
    requires o.start <= o.stop && Sorted(rest) && forall k | 0 <= k < |rest| :: o.stop < rest[k].start
    ensures var s := [o] + rest; Sorted(s) && forall k | 0 <= k < |s| :: s[k].start >= o.start
  {
    var s := [o] + rest;
    assert forall k | 0 < k < |s| :: s[k] == rest[k - 1];
  }

  // ------------------------------------------------- parts without an overlap

  predicate Touches(o: Interval, start: Index, stop: Index) {
    o.start <= stop && start <= o.stop
  }

  /** What lies from `next` up to an overlap. */
  function Gap(next: Index, o: Interval): seq<Interval> {
    if next < o.start then [Interval(next, o.start - 1)] else []
  }

  /**
   The parts of `[start, stop]` outside the overlaps, from `next` on.  The
   index after an overlap is computed in the index type and may wrap to zero.
   */
  function NonOverlapping(os: seq<Interval>, start: Index, stop: Index, next: Index): seq<Interval> {
    if os == [] then if next <= stop then [Interval(next, stop)] else []
    else if !Touches(os[0], start, stop) then NonOverlapping(os[1..], start, stop, next)
    else
      var covered := Gap(next, os[0]);
      var next' := (os[0].stop + 1) % (MAX + 1);
      if next' > stop then covered else covered + NonOverlapping(os[1..], start, stop, next')
  }

  /** `getNonOverlappingParts` */
  method GetNonOverlappingParts(start: Index, stop: Index, overlaps: seq<Interval>) returns (parts: seq<Interval>)
    ensures parts == NonOverlapping(overlaps, start, stop, start)
  {
    var nextUncoveredBit: Index := start;
    parts := [];
    for i := 0 to |overlaps|
      invariant parts + NonOverlapping(overlaps[i..], start, stop, nextUncoveredBit) == NonOverlapping(overlaps, start, stop, start)
    {
      var o := overlaps[i];
      assert overlaps[i..][0] == o && overlaps[i..][1..] == overlaps[i + 1..];
      if !Touches(o, start, stop) {
        continue;
      }
      ghost var before, next0 := parts, nextUncoveredBit;
      if nextUncoveredBit < o.start {
        parts := parts + [Interval(nextUncoveredBit, o.start - 1)];
      }
      nextUncoveredBit := (o.stop + 1) % (MAX + 1);
      if nextUncoveredBit > stop {
        break;
      }
      assert before + NonOverlapping(overlaps[i..], start, stop, next0) == parts + NonOverlapping(overlaps[i + 1..], start, stop, nextUncoveredBit);
    }
    if nextUncoveredBit <= stop {
      parts := parts + [Interval(nextUncoveredBit, stop)];
    }
  }

  /** Some overlap that touches `[start, stop]` ends at the largest index. */
  predicate Wraps(os: seq<Interval>, start: Index, stop: Index) {
    os != [] && (Wraps(os[1..], start, stop) || (Touches(os[0], start, stop) && os[0].stop == MAX))
  }

  /** The parts around the first overlap. */
  lemma PartsHead(os: seq<Interval>, start: Index, stop: Index, next: Index) returns (rest: seq<Interval>)
    requires os != [] && Touches(os[0], start, stop) && os[0].stop < MAX
    ensures rest == if os[0].stop < stop then NonOverlapping(os[1..], start, stop, os[0].stop + 1) else []
    ensures NonOverlapping(os, start, stop, next) == Gap(next, os[0]) + rest
  {
    rest := if os[0].stop < stop then NonOverlapping(os[1..], start, stop, os[0].stop + 1) else [];
  }

  lemma {:induction false} PartsExact(os: seq<Interval>, start: Index, stop: Index, next: Index, x: nat)
    requires Sorted(os) && start <= next && !Wraps(os, start, stop)
    requires forall k | 0 <= k < |os| && Touches(os[k], start, stop) :: next <= os[k].stop + 1 && (next == start || next <= os[k].start)
    ensures Member(NonOverlapping(os, start, stop, next), x) <==> next <= x <= stop && !Member(os, x)
    decreases |os|
  {
    var parts := NonOverlapping(os, start, stop, next);
    if os == [] {
      OneMember(Interval(next, stop), x);
    } else {
      HeadMember(os, x);
      TailMember(os, x);
      if !Touches(os[0], start, stop) {
        PartsExact(os[1..], start, stop, next, x);
      } else {
        var rest := PartsHead(os, start, stop, next);
        AppendMember(Gap(next, os[0]), rest, x);
        if next < os[0].start {
          OneMember(Interval(next, os[0].start - 1), x);
        }
        if os[0].stop < stop {
          PartsExact(os[1..], start, stop, os[0].stop + 1, x);
        }
      }
    }
  }

  lemma OneMember(i: Interval, x: nat)
    ensures Member([i], x) <==> i.Contains(x)
  {
    if i.Contains(x) {
      assert [i][0].Contains(x);
    }
  }

  /** When the next index wraps to zero, a part comes out that covers an overlap. */
  lemma {:induction false} PartsWrong(os: seq<Interval>, start: Index, stop: Index, next: Index) returns (x: nat)
    requires Sorted(os) && Wraps(os, start, stop)
    ensures Member(NonOverlapping(os, start, stop, next), x) && Member(os, x)
    decreases |os|
  {
    var head := Touches(os[0], start, stop);
    var covered := if head && next < os[0].start then [Interval(next, os[0].start - 1)] else [];
    assert |os| > 1 ==> os[0].stop < os[1].start <= MAX;
    if os[0].stop == MAX {
      assert |os| == 1;
      x := os[0].start;
      assert NonOverlapping(os, start, stop, next) == covered + [Interval(0, stop)];
      OneMember(Interval(0, stop), x);
      AppendMember(covered, [Interval(0, stop)], x);
      HeadMember(os, x);
    } else {
      var next' := if head then os[0].stop + 1 else next;
      WrapsLater(os, start, stop);
      x := PartsWrong(os[1..], start, stop, next');
      assert NonOverlapping(os, start, stop, next) == covered + NonOverlapping(os[1..], start, stop, next');
      AppendMember(covered, NonOverlapping(os[1..], start, stop, next'), x);
      TailMember(os, x);
    }
  }

  /** An overlap that reaches the largest index leaves room after every earlier one. */
  lemma {:induction false} WrapsLater(os: seq<Interval>, start: Index, stop: Index)
    requires Sorted(os) && Wraps(os, start, stop) && os[0].stop < MAX
    ensures os[0].stop + 1 <= stop
    decreases |os|
  {
    var k := WrapIndex(os, start, stop);
  }

  lemma {:induction false} WrapIndex(os: seq<Interval>, start: Index, stop: Index) returns (k: nat)
    requires Wraps(os, start, stop)
    ensures k < |os| && Touches(os[k], start, stop) && os[k].stop == MAX
    decreases |os|
  {
    if Touches(os[0], start, stop) && os[0].stop == MAX {
      k := 0;
    } else {
      k := WrapIndex(os[1..], start, stop);
      k := k + 1;
    }
  }

  /**
   `getNonOverlappingParts` returns exactly the indices of `[start, stop]` that
   are in no overlap, if and only if no overlap that touches the interval ends
   at the largest index.
   */
  lemma PartsRightUnlessWrapped(os: seq<Interval>, start: Index, stop: Index)
    requires Sorted(os)
    ensures (forall x: nat :: Member(NonOverlapping(os, start, stop, start), x) <==> start <= x <= stop && !Member(os, x))
       <==> !Wraps(os, start, stop)
  {
    if Wraps(os, start, stop) {
      var x := PartsWrong(os, start, stop, start);
    } else {
      forall x: nat
        ensures Member(NonOverlapping(os, start, stop, start), x) <==> start <= x <= stop && !Member(os, x)
      {
        PartsExact(os, start, stop, start, x);
      }
    }
  }

  lemma {:induction false} PartsSorted(os: seq<Interval>, start: Index, stop: Index, next: Index)
    requires Sorted(os) && start <= next && !Wraps(os, start, stop)
    requires forall k | 0 <= k < |os| && Touches(os[k], start, stop) :: next <= os[k].stop + 1 && (next == start || next <= os[k].start)
    ensures var parts := NonOverlapping(os, start, stop, next);
            Sorted(parts) && forall k | 0 <= k < |parts| :: next <= parts[k].start
    decreases |os|
  {
    if os != [] && !Touches(os[0], start, stop) {
      PartsSorted(os[1..], start, stop, next);
    } else if os != [] {
      var rest := PartsHead(os, start, stop, next);
      if os[0].stop < stop {
        PartsSorted(os[1..], start, stop, os[0].stop + 1);
      }
      HeadSorted(next, os[0], rest);
    }
  }

  lemma HeadSorted(next: Index, o: Interval, rest: seq<Interval>)
    requires o.start <= o.stop && next <= o.stop + 1 && Sorted(rest) && forall k | 0 <= k < |rest| :: o.stop < rest[k].start
    ensures Sorted(Gap(next, o) + rest) && forall k | 0 <= k < |Gap(next, o) + rest| :: next <= (Gap(next, o) + rest)[k].start
  {
    var parts, n := Gap(next, o) + rest, |Gap(next, o)|;
    forall k | 0 <= k < |parts|
      ensures parts[k] == if k < n then Interval(next, o.start - 1) else rest[k - n]
    {
    }
  }

  /** Only a member beyond everything can make the next index wrap. */
  lemma {:induction false} WrapsContainsMax(os: seq<Interval>, start: Index, stop: Index)
    requires Sorted(os) && Wraps(os, start, stop)
    ensures Member(os, MAX)
  {
    var k := WrapIndex(os, start, stop);
    assert os[k].Contains(MAX);
  }

  // ------------------------------------------------------------ the bit vector

  class BitVector {
    var intervals: seq<Interval>

    ghost predicate Valid()
      reads this
    {
      Coalesced(intervals)
    }

    ghost predicate Has(x: nat)
      reads this
    {
      Member(intervals, x)
    }

    constructor ()
      ensures Valid() && forall x: nat :: !Has(x)
    {
      intervals := [];
    }

    method Insert(a: Index, b: Index)
      requires Valid() && a <= b && forall x | a <= x <= b :: !Member(intervals, x)
      modifies this
      ensures Valid() && forall x: nat :: Has(x) <==> old(Has(x)) || a <= x <= b
    {
      intervals := InsertInterval(intervals, a, b);
    }

    method Test(x: Index) returns (present: bool)
      requires Valid()
      ensures present <==> Has(x)
    {
      var k := FindInterval(intervals, x);
      present := k < |intervals| && intervals[k].start <= x;
    }

    method Set(x: Index)
      requires Valid() && !Has(x)
      modifies this
      ensures Valid() && forall y: nat :: Has(y) <==> old(Has(y)) || y == x
    {
      Insert(x, x);
    }

    method TestAndSet(x: Index)
      requires Valid()
      modifies this
      ensures Valid() && forall y: nat :: Has(y) <==> old(Has(y)) || y == x
    {
      var present := Test(x);
      if !present {
        Set(x);
      }
    }

    /** Erases interval `k` and puts back what lies before `a` and after `b`. */
    method CutOut(k: nat, a: Index, b: Index)
      requires Valid() && k < |intervals| && intervals[k].start <= a <= b <= intervals[k].stop
      modifies this
      ensures Valid() && forall y: nat :: Has(y) <==> old(Has(y)) && !(a <= y <= b)
    {
      var o := intervals[k];
      ErasedMembers(intervals, k);
      intervals := intervals[..k] + intervals[k + 1..];
      if o.start < a {
        Insert(o.start, a - 1);
      }
      if b < o.stop {
        assert forall y: nat :: Member(intervals, y) <==> Has(y);
        Insert(b + 1, o.stop);
      }
    }

    method Reset(x: Index)
      requires Valid()
      modifies this
      ensures Valid() && forall y: nat :: Has(y) <==> old(Has(y)) && y != x
    {
      var k := FindInterval(intervals, x);
      if k == |intervals| || x < intervals[k].start {
        return;
      }
      CutOut(k, x, x);
    }

    /** `operator|=` */
    method Union(rhs: BitVector)
      requires Valid() && rhs.Valid()
      requires !(Has(MAX) && rhs.Has(MAX))
      modifies this
      ensures Valid() && forall y: nat :: Has(y) <==> old(Has(y)) || old(rhs.Has(y))
    {
      ghost var before := intervals;
      var other := rhs.intervals;
      var overlaps := Overlaps(intervals, other);
      OverlapsSorted(intervals, other);
      assert !Member(overlaps, MAX) by { OverlapsExact(before, other, MAX); }
      for i := 0 to |other|
        invariant Valid()
        invariant forall y: nat :: Has(y) <==> Member(before, y) || Member(other[..i], y)
      {
        var o := other[i];
        var parts := GetNonOverlappingParts(o.start, o.stop, overlaps);
        PartsAreNew(before, other, i, overlaps, parts);
        ghost var reached := intervals;
        InsertParts(parts);
        forall y: nat
          ensures Has(y) <==> Member(before, y) || Member(other[..i + 1], y)
        {
          PrefixMember(other, i, y);
        }
      }
      assert other[..|other|] == other;
    }

    /** Inserts the parts of one interval of the other set. */
    method InsertParts(parts: seq<Interval>)
      requires Valid() && Sorted(parts) && forall y: nat :: Member(parts, y) ==> !Has(y)
      modifies this
      ensures Valid() && forall y: nat :: Has(y) <==> old(Has(y)) || Member(parts, y)
    {
      ghost var before := intervals;
      for j := 0 to |parts|
        invariant Valid()
        invariant forall y: nat :: Has(y) <==> Member(before, y) || Member(parts[..j], y)
      {
        PartIsNew(parts, j, before, intervals);
        ghost var was := intervals;
        Insert(parts[j].start, parts[j].stop);
        forall y: nat
          ensures Has(y) <==> Member(before, y) || Member(parts[..j + 1], y)
        {
          PrefixMember(parts, j, y);
          assert Has(y) <==> Member(was, y) || parts[j].Contains(y);
        }
      }
      assert parts[..|parts|] == parts;
    }

    /** `operator&=` */
    method Intersect(rhs: BitVector)
      requires Valid() && rhs.Valid()
      modifies this
      ensures Valid() && forall y: nat :: Has(y) <==> old(Has(y)) && old(rhs.Has(y))
    {
      ghost var before, other := intervals, rhs.intervals;
      var overlaps := Overlaps(intervals, rhs.intervals);
      OverlapsSorted(before, other);
      intervals := [];
      for i := 0 to |overlaps|
        invariant Valid()
        invariant forall y: nat :: Has(y) <==> Member(overlaps[..i], y)
      {
        PartIsNew(overlaps, i, [], intervals);
        ghost var was := intervals;
        Insert(overlaps[i].start, overlaps[i].stop);
        forall y: nat
          ensures Has(y) <==> Member(overlaps[..i + 1], y)
        {
          PrefixMember(overlaps, i, y);
          assert Has(y) <==> Member(was, y) || overlaps[i].Contains(y);
        }
      }
      assert overlaps[..|overlaps|] == overlaps;
      forall y: nat
        ensures Has(y) <==> Member(before, y) && Member(other, y)
      {
        OverlapsExact(before, other, y);
      }
    }

    method IntersectWithComplement(rhs: BitVector)
      requires Valid() && rhs.Valid()
      modifies this
      ensures Valid() && forall y: nat :: Has(y) <==> old(Has(y)) && !old(rhs.Has(y))
    {
      ghost var before, other := intervals, rhs.intervals;
      var overlaps := Overlaps(intervals, rhs.intervals);
      OverlapsSorted(before, other);
      forall y: nat
        ensures Member(overlaps, y) <==> Member(before, y) && Member(other, y)
      {
        OverlapsExact(before, other, y);
      }
      if overlaps == [] {
        return;
      }
      for i := 0 to |overlaps|
        invariant Valid()
        invariant forall y: nat :: Has(y) <==> Member(before, y) && !Member(overlaps[..i], y)
      {
        var o := overlaps[i];
        OverlapPresent(before, overlaps, i, intervals);
        var k := FindInterval(intervals, o.start);
        RunInOne(intervals, k, o.start, o.stop);
        ghost var was := intervals;
        CutOut(k, o.start, o.stop);
        forall y: nat
          ensures Has(y) <==> Member(before, y) && !Member(overlaps[..i + 1], y)
        {
          PrefixMember(overlaps, i, y);
          assert Has(y) <==> Member(was, y) && !o.Contains(y);
        }
      }
      assert overlaps[..|overlaps|] == overlaps;
    }

    /** `operator==` */
    method Equals(rhs: BitVector) returns (same: bool)
      requires Valid() && rhs.Valid()
      ensures same <==> forall y: nat :: Has(y) <==> rhs.Has(y)
    {
      var i := 0;
      while i < |intervals| && i < |rhs.intervals| && intervals[i] == rhs.intervals[i]
        invariant i <= |intervals| && i <= |rhs.intervals| && intervals[..i] == rhs.intervals[..i]
      {
        i := i + 1;
      }
      same := i == |intervals| && i == |rhs.intervals|;
      if same {
        assert intervals == intervals[..i] && rhs.intervals == rhs.intervals[..i];
      } else if forall y: nat :: Has(y) <==> rhs.Has(y) {
        assert forall y: nat :: Has(y) <==> Member(intervals, y);
        assert forall y: nat :: rhs.Has(y) <==> Member(rhs.intervals, y);
        SameMembersSame(intervals, rhs.intervals);
        assert false;
      }
    }
  }

  lemma ErasedMembers(s: seq<Interval>, k: nat)
    requires Coalesced(s) && k < |s|
    ensures Coalesced(s[..k] + s[k + 1..])
    ensures forall x: nat :: Member(s[..k] + s[k + 1..], x) <==> Member(s, x) && !s[k].Contains(x)
  {
    var r := s[..k] + s[k + 1..];
    assert forall i | 0 <= i < |r| :: r[i] == s[if i < k then i else i + 1];
    forall x: nat
      ensures Member(r, x) <==> Member(s, x) && !s[k].Contains(x)
    {
      if Member(s, x) && !s[k].Contains(x) {
        var i :| 0 <= i < |s| && s[i].Contains(x);
        assert r[if i < k then i else i - 1].Contains(x);
      }
    }
  }

  lemma PrefixMember(s: seq<Interval>, j: nat, x: nat)
    requires j < |s|
    ensures Member(s[..j + 1], x) <==> Member(s[..j], x) || s[j].Contains(x)
  {
    assert s[..j + 1] == s[..j] + [s[j]];
    AppendMember(s[..j], [s[j]], x);
    OneMember(s[j], x);
  }

  lemma PrefixBelow(s: seq<Interval>, j: nat, x: nat)
    requires Sorted(s) && j < |s| && Member(s[..j], x)
    ensures x < s[j].start
  {
  }

  /** The `j`-th of several sorted parts, none of whose indices was present, is new after its predecessors. */
  lemma PartIsNew(parts: seq<Interval>, j: nat, reached: seq<Interval>, now: seq<Interval>)
    requires Sorted(parts) && j < |parts| && forall y: nat :: Member(parts, y) ==> !Member(reached, y)
    requires forall y: nat :: Member(now, y) <==> Member(reached, y) || Member(parts[..j], y)
    ensures parts[j].start <= parts[j].stop && forall x | parts[j].start <= x <= parts[j].stop :: !Member(now, x)
  {
    forall x | parts[j].start <= x <= parts[j].stop
      ensures !Member(now, x)
    {
      assert parts[j].Contains(x);
      if Member(parts[..j], x) {
        PrefixBelow(parts, j, x);
      }
    }
  }

  /** What `getNonOverlappingParts` leaves of interval `i` is new, and completes it. */
  lemma PartsAreNew(before: seq<Interval>, other: seq<Interval>, i: nat, overlaps: seq<Interval>, parts: seq<Interval>)
    requires Sorted(before) && Sorted(other) && i < |other| && overlaps == Overlaps(before, other) && Sorted(overlaps)
    requires !Member(overlaps, MAX)
    requires parts == NonOverlapping(overlaps, other[i].start, other[i].stop, other[i].start)
    ensures Sorted(parts)
    ensures forall y: nat :: Member(parts, y) <==> other[i].Contains(y) && !Member(before, y)
    ensures forall y: nat :: Member(parts, y) ==> !Member(other[..i], y)
  {
    var o := other[i];
    if Wraps(overlaps, o.start, o.stop) {
      WrapsContainsMax(overlaps, o.start, o.stop);
      assert false;
    }
    PartsSorted(overlaps, o.start, o.stop, o.start);
    forall y: nat
      ensures Member(parts, y) <==> o.Contains(y) && !Member(before, y)
      ensures Member(parts, y) ==> !Member(other[..i], y)
    {
      PartsExact(overlaps, o.start, o.stop, o.start, y);
      OverlapsExact(before, other, y);
      if Member(other[..i], y) {
        PrefixBelow(other, i, y);
      }
    }
  }

  ghost predicate PartsNew(before: seq<Interval>, other: seq<Interval>, i: nat)
    requires i < |other|
  {
    forall y: nat :: Member(NonOverlapping(Overlaps(before, other), other[i].start, other[i].stop, other[i].start), y) ==> !Member(before, y)
  }

  /** A union inserts only what is not yet present if and only if not both sets contain the largest index. */
  lemma InsertsNewUnlessMax(before: seq<Interval>, other: seq<Interval>)
    requires Sorted(before) && Sorted(other)
    ensures (forall i | 0 <= i < |other| :: PartsNew(before, other, i)) <==> !(Member(before, MAX) && Member(other, MAX))
  {
    var overlaps := Overlaps(before, other);
    OverlapsSorted(before, other);
    OverlapsExact(before, other, MAX);
    if Member(before, MAX) && Member(other, MAX) {
      var k :| 0 <= k < |overlaps| && overlaps[k].Contains(MAX);
      var i :| 0 <= i < |other| && other[i].Contains(MAX);
      OverlapsExact(before, other, overlaps[k].start);
      WrapAt(overlaps, other[i].start, other[i].stop, k);
      var x := PartsWrong(overlaps, other[i].start, other[i].stop, other[i].start);
      OverlapsExact(before, other, x);
      assert !PartsNew(before, other, i);
    } else {
      forall i | 0 <= i < |other|
        ensures PartsNew(before, other, i)
      {
        var parts := NonOverlapping(overlaps, other[i].start, other[i].stop, other[i].start);
        PartsAreNew(before, other, i, overlaps, parts);
      }
    }
  }

  lemma {:induction false} WrapAt(os: seq<Interval>, start: Index, stop: Index, k: nat)
    requires k < |os| && Touches(os[k], start, stop) && os[k].stop == MAX
    ensures Wraps(os, start, stop)
    decreases k
  {
    if k > 0 {
      WrapAt(os[1..], start, stop, k - 1);
    }
  }

  /** The next overlap is still present as a whole. */
  lemma OverlapPresent(before: seq<Interval>, overlaps: seq<Interval>, i: nat, now: seq<Interval>)
    requires Sorted(overlaps) && i < |overlaps| && forall y: nat :: Member(overlaps, y) ==> Member(before, y)
    requires forall y: nat :: Member(now, y) <==> Member(before, y) && !Member(overlaps[..i], y)
    ensures overlaps[i].start <= overlaps[i].stop && forall x | overlaps[i].start <= x <= overlaps[i].stop :: Member(now, x)
  {
    forall x | overlaps[i].start <= x <= overlaps[i].stop
      ensures Member(now, x)
    {
      assert overlaps[i].Contains(x);
      if Member(overlaps[..i], x) {
        PrefixBelow(overlaps, i, x);
      }
    }
  }
}
