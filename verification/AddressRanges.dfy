/** Sorted vectors of half-open address ranges: a set that merges ranges and a map that never overwrites. */
module AddressRanges {
  const ADDRESS_LIMIT := 0x1_0000_0000_0000_0000

  type Address = a: nat | a < ADDRESS_LIMIT

  datatype Range = Range(start: Address, end: Address) {
    predicate Empty() {
      start >= end
    }

    predicate Contains(a: Address) {
      start <= a < end
    }

    predicate Includes(r: Range) {
      start <= r.start && r.end <= end
    }

    /** The order of (start, end) pairs. */
    predicate Less(r: Range) {
      start < r.start || (start == r.start && end < r.end)
    }
  }

  function Max(a: Address, b: Address): Address {
    if a >= b then a else b
  }

  ghost predicate Covered(rs: seq<Range>, a: Address) {
    exists i :: 0 <= i < |rs| && rs[i].Contains(a)
  }

  /** Non-empty, sorted, and never even touching. */
  ghost predicate Normal(rs: seq<Range>) {
    && (forall i | 0 <= i < |rs| :: !rs[i].Empty())
    && (forall i, j | 0 <= i < j < |rs| :: rs[i].end < rs[j].start)
  }

  /** The first range that starts after `start`: all ranges before it start no later. */
  method PartitionPoint(rs: seq<Range>, start: Address) returns (p: nat)
    requires forall i, j | 0 <= i < j < |rs| :: rs[i].start <= rs[j].start
    ensures p <= |rs|
    ensures forall i | 0 <= i < p :: rs[i].start <= start
    ensures forall i | p <= i < |rs| :: rs[i].start > start
  {
    var lo, hi := 0, |rs|;
    while lo < hi
      invariant lo <= hi <= |rs|
      invariant forall i | 0 <= i < lo :: rs[i].start <= start
      invariant forall i | hi <= i < |rs| :: rs[i].start > start
    {
      var mid := (lo + hi) / 2;
      if rs[mid].start <= start {
        lo := mid + 1;
      } else {
        hi := mid;
      }
    }
    p := lo;
  }

  /** `find`: the one range that includes `[start, end)`, or the length when there is none. */
  method Find(rs: seq<Range>, start: Address, end: Address) returns (k: nat)
    requires forall i | 0 <= i < |rs| :: !rs[i].Empty()
    requires forall i, j | 0 <= i < j < |rs| :: rs[i].end <= rs[j].start
    ensures k < |rs| ==> start < end && rs[k].Includes(Range(start, end))
    ensures k >= |rs| ==> k == |rs| && (start >= end || forall i | 0 <= i < |rs| :: !rs[i].Includes(Range(start, end)))
  {
    if start >= end {
      return |rs|;
    }
    var p := PartitionPoint(rs, start);
    if p == 0 {
      return |rs|;
    }
    if end > rs[p - 1].end {
      return |rs|;
    }
    return p - 1;
  }

  /** With ranges that never touch, an interval is covered only by a single range. */
  lemma CoveredByOne(rs: seq<Range>, r: Range)
    requires Normal(rs) && !r.Empty()
    ensures (exists i :: 0 <= i < |rs| && rs[i].Includes(r)) <==> forall a: Address | r.Contains(a) :: Covered(rs, a)
  {
    if forall a: Address | r.Contains(a) :: Covered(rs, a) {
      assert r.Contains(r.start);
      var i :| 0 <= i < |rs| && rs[i].Contains(r.start);
      if rs[i].end < r.end {
        assert r.Contains(rs[i].end);
        var j :| 0 <= j < |rs| && rs[j].Contains(rs[i].end);
        assert j != i;
      }
    }
  }

  // ---------------------------------------------------------------- the set

  /** Replaces the ranges from `lo` up to `hi` by `r`. */
  function Splice(rs: seq<Range>, lo: nat, hi: nat, r: Range): seq<Range>
    requires lo <= hi <= |rs|
  {
    rs[..lo] + [r] + rs[hi..]
  }

  /** The ranges from `lo` up to `hi` all touch `r`, the others do not, and `merged` spans them all. */
  ghost predicate Merges(rs: seq<Range>, lo: nat, hi: nat, r: Range, merged: Range) {
    && Normal(rs) && lo <= hi <= |rs| && !r.Empty()
    && (forall i | 0 <= i < lo :: rs[i].end < merged.start)
    && (forall i | hi <= i < |rs| :: merged.end < rs[i].start)
    && (forall i | lo <= i < hi :: rs[i].start <= r.end && r.start <= rs[i].end)
    && merged.start == (if lo < hi && rs[lo].start < r.start then rs[lo].start else r.start)
    && merged.end == (if lo < hi && rs[hi - 1].end > r.end then rs[hi - 1].end else r.end)
  }

  /** `r` extended to the ranges from `lo` up to `hi`. */
  function Span(rs: seq<Range>, lo: nat, hi: nat, r: Range): Range
    requires lo <= hi <= |rs|
  {
    Range(if lo < hi && rs[lo].start < r.start then rs[lo].start else r.start,
          if lo < hi && rs[hi - 1].end > r.end then rs[hi - 1].end else r.end)
  }

  function RunStart(rs: seq<Range>, p: nat, r: Range): nat
    requires p <= |rs|
  {
    if p > 0 && r.start <= rs[p - 1].end then p - 1 else p
  }

  /** The run of ranges that `r` touches, given where `r` sorts and the first range that starts beyond it. */
  lemma RunTouches(rs: seq<Range>, p: nat, hi: nat, lo: nat, r: Range)
    requires Normal(rs) && !r.Empty() && p <= hi <= |rs|
    requires forall i | 0 <= i < p :: !r.Less(rs[i])
    requires forall i | p <= i < |rs| :: r.Less(rs[i])
    requires forall i | p <= i < hi :: rs[i].start <= r.end
    requires hi < |rs| ==> rs[hi].start > r.end
    requires lo == RunStart(rs, p, r)
    ensures Merges(rs, lo, hi, r, Span(rs, lo, hi, r))
    ensures p > 0 ==> rs[p - 1].start <= r.start
    ensures p > 0 && p < hi ==> rs[p - 1].end < rs[hi - 1].end
  {
  }

  lemma SpliceNormal(rs: seq<Range>, lo: nat, hi: nat, r: Range, merged: Range)
    requires Merges(rs, lo, hi, r, merged)
    ensures Normal(Splice(rs, lo, hi, merged))
  {
    var s := Splice(rs, lo, hi, merged);
    forall i | 0 <= i < |s|
      ensures !s[i].Empty()
    {
      SpliceAt(rs, lo, hi, merged, i);
    }
    forall i, j | 0 <= i < j < |s|
      ensures s[i].end < s[j].start
    {
      SpliceAt(rs, lo, hi, merged, i);
      SpliceAt(rs, lo, hi, merged, j);
    }
  }

  lemma SpliceCovers(rs: seq<Range>, lo: nat, hi: nat, r: Range, merged: Range, a: Address)
    requires Merges(rs, lo, hi, r, merged)
    ensures Covered(rs, a) || r.Contains(a) ==> Covered(Splice(rs, lo, hi, merged), a)
  {
    var s := Splice(rs, lo, hi, merged);
    if r.Contains(a) {
      assert s[lo] == merged && merged.Contains(a);
    } else if i :| 0 <= i < |rs| && rs[i].Contains(a) {
      if i < lo {
        assert s[i] == rs[i];
      } else if i >= hi {
        assert s[i - hi + lo + 1] == rs[i];
      } else {
        RunOrdered(rs, lo, i);
        RunOrdered(rs, i, hi - 1);
        assert s[lo] == merged && merged.Contains(a);
      }
    }
  }

  lemma RunOrdered(rs: seq<Range>, i: nat, j: nat)
    requires Normal(rs) && i <= j < |rs|
    ensures rs[i].start <= rs[j].start && rs[i].end <= rs[j].end
  {
  }

  lemma SpliceAt(rs: seq<Range>, lo: nat, hi: nat, merged: Range, i: nat)
    requires lo <= hi <= |rs| && i < |Splice(rs, lo, hi, merged)|
    ensures Splice(rs, lo, hi, merged)[i] == if i < lo then rs[i] else if i == lo then merged else rs[i - lo - 1 + hi]
  {
  }

  lemma SpliceCoversOnly(rs: seq<Range>, lo: nat, hi: nat, r: Range, merged: Range, a: Address)
    requires Merges(rs, lo, hi, r, merged) && Covered(Splice(rs, lo, hi, merged), a)
    ensures Covered(rs, a) || r.Contains(a)
  {
    var s := Splice(rs, lo, hi, merged);
    var i: nat :| 0 <= i < |s| && s[i].Contains(a);
    SpliceAt(rs, lo, hi, merged, i);
    if i != lo {
      assert rs[if i < lo then i else i - lo - 1 + hi].Contains(a);
    } else if a < r.start {
      assert rs[lo].Contains(a);
    } else if a >= r.end {
      assert rs[hi - 1].Contains(a);
    }
  }

  /** Merging keeps the vector normal and adds just `r`'s addresses. */
  lemma SpliceKeeps(rs: seq<Range>, lo: nat, hi: nat, r: Range, merged: Range)
    requires Merges(rs, lo, hi, r, merged)
    ensures Normal(Splice(rs, lo, hi, merged))
    ensures forall a: Address :: Covered(Splice(rs, lo, hi, merged), a) <==> Covered(rs, a) || r.Contains(a)
  {
    SpliceNormal(rs, lo, hi, r, merged);
    forall a: Address
      ensures Covered(Splice(rs, lo, hi, merged), a) <==> Covered(rs, a) || r.Contains(a)
    {
      SpliceCovers(rs, lo, hi, r, merged, a);
      if Covered(Splice(rs, lo, hi, merged), a) {
        SpliceCoversOnly(rs, lo, hi, r, merged, a);
      }
    }
  }

  class AddressRanges {
    var ranges: seq<Range>

    ghost predicate Valid()
      reads this
    {
      Normal(ranges)
    }

    constructor ()
      ensures Valid() && ranges == []
    {
      ranges := [];
    }

    /** Is this address in the set?  At the last address, `addr + 1` wraps around to an empty query. */
    method ContainsAddress(addr: Address) returns (found: bool)
      requires Valid()
      ensures found <==> Covered(ranges, addr)
    {
      var k := Find(ranges, addr, (addr + 1) % ADDRESS_LIMIT);
      return k != |ranges|;
    }

    /** Is the whole non-empty range in the set? */
    method ContainsRange(r: Range) returns (found: bool)
      requires Valid()
      ensures found <==> !r.Empty() && forall a: Address | r.Contains(a) :: Covered(ranges, a)
    {
      var k := Find(ranges, r.start, r.end);
      if !r.Empty() {
        CoveredByOne(ranges, r);
      }
      return k != |ranges|;
    }

    /** The first range that is greater than `r`. */
    method UpperBound(r: Range) returns (p: nat)
      requires Valid()
      ensures p <= |ranges|
      ensures forall i | 0 <= i < p :: !r.Less(ranges[i])
      ensures forall i | p <= i < |ranges| :: r.Less(ranges[i])
    {
      var lo, hi := 0, |ranges|;
      while lo < hi
        invariant lo <= hi <= |ranges|
        invariant forall i | 0 <= i < lo :: !r.Less(ranges[i])
        invariant forall i | hi <= i < |ranges| :: r.Less(ranges[i])
      {
        var mid := (lo + hi) / 2;
        if !r.Less(ranges[mid]) {
          lo := mid + 1;
        } else {
          hi := mid;
        }
      }
      p := lo;
    }

    /** Adds a range, merging it with every range it overlaps or touches. */
    method Insert(r: Range) returns (k: nat)
      requires Valid()
      modifies this
      ensures Valid()
      ensures forall a: Address :: Covered(ranges, a) <==> Covered(old(ranges), a) || r.Contains(a)
      ensures if r.Empty() then k == |ranges| && ranges == old(ranges) else k < |ranges| && ranges[k].Includes(r)
    {
      if r.Empty() {
        return |ranges|;
      }
      var it := UpperBound(r);
      var it2 := it;
      while it2 != |ranges| && ranges[it2].start <= r.end
        invariant it <= it2 <= |ranges|
        invariant forall i | it <= i < it2 :: ranges[i].start <= r.end
      {
        it2 := it2 + 1;
      }
      ghost var lo := RunStart(ranges, it, r);
      RunTouches(ranges, it, it2, lo, r);
      SpliceKeeps(ranges, lo, it2, r, Span(ranges, lo, it2, r));
      k := MergeRun(it, it2, r);
    }

    /** Joins `r` with the ranges from `it` up to `it2`, and with the one before if it reaches `r`. */
    method MergeRun(it: nat, it2: nat, r: Range) returns (k: nat)
      requires it <= it2 <= |ranges|
      requires it > 0 ==> ranges[it - 1].start <= r.start
      requires forall i | it <= i < it2 :: r.start <= ranges[i].start
      requires it > 0 && it < it2 ==> ranges[it - 1].end < ranges[it2 - 1].end
      modifies this
      ensures k == RunStart(old(ranges), it, r)
      ensures ranges == Splice(old(ranges), k, it2, Span(old(ranges), k, it2, r))
    {
      var range := r;
      ghost var before := ranges;
      if it != it2 {
        range := Range(range.start, Max(range.end, ranges[it2 - 1].end));
        ranges := ranges[..it] + ranges[it2..];
        assert ranges[..it] == before[..it] && ranges[it..] == before[it2..];
      }
      if it != 0 && range.start <= ranges[it - 1].end {
        k := it - 1;
        ranges := ranges[k := Range(ranges[k].start, Max(ranges[k].end, range.end))];
        assert ranges[..k] == before[..k] && ranges[k + 1..] == before[it2..];
        return;
      }
      ranges := ranges[..it] + [range] + ranges[it..];
      k := it;
    }
  }
}
