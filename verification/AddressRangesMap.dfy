/** The map from address ranges to values: an insertion is split around the ranges already present. */
module AddressRangesMap {
  import opened AddressRanges

  datatype Entry = Entry(range: Range, value: int)

  function RangesOf(es: seq<Entry>): (rs: seq<Range>)
    ensures |rs| == |es| && forall i | 0 <= i < |es| :: rs[i] == es[i].range
  {
    seq(|es|, i requires 0 <= i < |es| => es[i].range)
  }

  /** Non-empty, sorted and disjoint; neighbours may touch. */
  ghost predicate Disjoint(es: seq<Entry>) {
    && (forall i | 0 <= i < |es| :: !es[i].range.Empty())
    && (forall i, j | 0 <= i < j < |es| :: es[i].range.end <= es[j].range.start)
  }

  /** Address `a` has value `v`. */
  ghost predicate Maps(es: seq<Entry>, a: Address, v: int) {
    exists i :: 0 <= i < |es| && es[i].range.Contains(a) && es[i].value == v
  }

  ghost predicate Mapped(es: seq<Entry>, a: Address) {
    exists i :: 0 <= i < |es| && es[i].range.Contains(a)
  }

  /** The table is a function: no address has two values. */
  lemma MapsOnce(es: seq<Entry>, a: Address, v: int, w: int)
    requires Disjoint(es) && Maps(es, a, v) && Maps(es, a, w)
    ensures v == w
  {
  }

  function InsertAt(es: seq<Entry>, k: nat, e: Entry): seq<Entry>
    requires k <= |es|
  {
    es[..k] + [e] + es[k..]
  }

  /** An entry that fits between its neighbours. */
  ghost predicate Fits(es: seq<Entry>, k: nat, r: Range) {
    && Disjoint(es) && k <= |es| && !r.Empty()
    && (forall i | 0 <= i < k :: es[i].range.end <= r.start)
    && (forall i | k <= i < |es| :: r.end <= es[i].range.start)
  }

  lemma InsertNormal(es: seq<Entry>, k: nat, e: Entry)
    requires Fits(es, k, e.range)
    ensures Disjoint(InsertAt(es, k, e))
  {
    var s := InsertAt(es, k, e);
    forall i | 0 <= i < |s|
      ensures s[i] == if i < k then es[i] else if i == k then e else es[i - 1]
    {
    }
    forall i, j | 0 <= i < j < |s|
      ensures s[i].range.end <= s[j].range.start
    {
      var _ := (s[i], s[j]);
    }
  }

  lemma InsertMaps(es: seq<Entry>, k: nat, e: Entry, a: Address, v: int)
    requires k <= |es|
    ensures Maps(InsertAt(es, k, e), a, v) <==> Maps(es, a, v) || (e.range.Contains(a) && v == e.value)
  {
    var s := InsertAt(es, k, e);
    if Maps(s, a, v) {
      var i :| 0 <= i < |s| && s[i].range.Contains(a) && s[i].value == v;
      assert i < k ==> es[i] == s[i];
      assert i > k ==> es[i - 1] == s[i];
    }
    if Maps(es, a, v) {
      var i :| 0 <= i < |es| && es[i].range.Contains(a) && es[i].value == v;
      assert s[if i < k then i else i + 1] == es[i];
    }
    assert s[k] == e;
  }

  /**
   Progress of an insertion: every address that is no longer in `rest` has its
   final value, every other address still has its original one.
   */
  ghost predicate Pending(old_: seq<Entry>, now: seq<Entry>, r: Range, rest: Range, value: int) {
    forall a: Address, v: int ::
      Maps(now, a, v) <==> Maps(old_, a, v) || (r.Contains(a) && !rest.Contains(a) && !Mapped(old_, a) && v == value)
  }

  lemma StillMapped(old_: seq<Entry>, now: seq<Entry>, r: Range, rest: Range, value: int, a: Address)
    requires Pending(old_, now, r, rest, value)
    ensures Mapped(old_, a) ==> Mapped(now, a)
  {
    if i :| 0 <= i < |old_| && old_[i].range.Contains(a) {
      assert Maps(old_, a, old_[i].value);
      assert Maps(now, a, old_[i].value);
    }
  }

  lemma PendingInsert(old_: seq<Entry>, now: seq<Entry>, r: Range, rest: Range, value: int, k: nat, piece: Range, rest': Range)
    requires Pending(old_, now, r, rest, value) && Fits(now, k, piece)
    requires r.Includes(rest) && rest.start == piece.start && piece.end == rest'.start && rest'.end == rest.end
    requires piece.end <= rest.end
    ensures Pending(old_, InsertAt(now, k, Entry(piece, value)), r, rest', value)
  {
    forall a: Address, v: int
      ensures Maps(InsertAt(now, k, Entry(piece, value)), a, v) <==>
                Maps(old_, a, v) || (r.Contains(a) && !rest'.Contains(a) && !Mapped(old_, a) && v == value)
    {
      InsertMaps(now, k, Entry(piece, value), a, v);
      StillMapped(old_, now, r, rest, value, a);
    }
  }

  /** A part of `rest` that an entry covers is already mapped. */
  lemma PendingSkip(old_: seq<Entry>, now: seq<Entry>, r: Range, rest: Range, value: int, k: nat, rest': Range)
    requires Pending(old_, now, r, rest, value) && Disjoint(now) && k < |now|
    requires now[k].range.start <= rest.start <= rest'.start <= now[k].range.end && rest'.end == rest.end
    requires r.Includes(rest)
    ensures Pending(old_, now, r, rest', value)
  {
    forall a: Address, v: int
      ensures Maps(now, a, v) <==> Maps(old_, a, v) || (r.Contains(a) && !rest'.Contains(a) && !Mapped(old_, a) && v == value)
    {
      if rest.Contains(a) && !rest'.Contains(a) {
        assert now[k].range.Contains(a);
        assert Maps(now, a, now[k].value);
        assert Maps(old_, a, now[k].value);
      }
    }
  }

  class AddressRangesMap {
    var entries: seq<Entry>

    ghost predicate Valid()
      reads this
    {
      Disjoint(entries)
    }

    constructor ()
      ensures Valid() && entries == []
    {
      entries := [];
    }

    /** `getRangeThatContains` */
    method Lookup(addr: Address) returns (found: bool, value: int)
      requires Valid()
      ensures found ==> Maps(entries, addr, value) && forall v | Maps(entries, addr, v) :: v == value
      ensures !found ==> !Mapped(entries, addr)
    {
      var k := Find(RangesOf(entries), addr, (addr + 1) % ADDRESS_LIMIT);
      found := k != |entries|;
      value := if found then entries[k].value else 0;
      if found {
        forall v | Maps(entries, addr, v)
          ensures v == value
        {
          MapsOnce(entries, addr, value, v);
        }
      }
      if addr + 1 == ADDRESS_LIMIT {
        assert forall i | 0 <= i < |entries| :: !entries[i].range.Contains(addr);
      } else if !found {
        forall i | 0 <= i < |entries|
          ensures !entries[i].range.Contains(addr)
        {
          assert !RangesOf(entries)[i].Includes(Range(addr, addr + 1));
        }
      }
    }

    /** Maps the addresses of `r` that have no value yet to `value`; the others keep theirs. */
    method Insert(r: Range, value: int)
      requires Valid()
      modifies this
      ensures Valid()
      ensures forall a: Address, v: int ::
                Maps(entries, a, v) <==> Maps(old(entries), a, v) || (r.Contains(a) && !Mapped(old(entries), a) && v == value)
    {
      if r.Empty() {
        return;
      }
      var rest := r;
      var it := PartitionPoint(RangesOf(entries), r.start);
      assert forall i | 0 <= i < it :: entries[i].range.start == RangesOf(entries)[i].start;
      if it != 0 {
        it := it - 1;
        assert entries[it].range.start <= r.start;
      }
      while !rest.Empty()
        invariant Valid() && it <= |entries| && rest.end == r.end && r.start <= rest.start
        invariant forall i | 0 <= i < it :: entries[i].range.end <= rest.start
        invariant Pending(old(entries), entries, r, rest, value)
        decreases rest.end - rest.start, |entries| - it
      {
        if it == |entries| || rest.end <= entries[it].range.start {
          ghost var none := Range(rest.end, rest.end);
          PendingInsert(old(entries), entries, r, rest, value, it, rest, none);
          InsertNormal(entries, it, Entry(rest, value));
          entries := InsertAt(entries, it, Entry(rest, value));
          return;
        }
        if rest.start < entries[it].range.start {
          var piece := Range(rest.start, entries[it].range.start);
          var next := Range(entries[it].range.start, rest.end);
          PendingInsert(old(entries), entries, r, rest, value, it, piece, next);
          InsertNormal(entries, it, Entry(piece, value));
          entries := InsertAt(entries, it, Entry(piece, value));
          it := it + 1;
          rest := next;
          continue;
        }
        if rest.end <= entries[it].range.end {
          PendingSkip(old(entries), entries, r, rest, value, it, Range(rest.end, rest.end));
          return;
        }
        if rest.start < entries[it].range.end {
          var next := Range(entries[it].range.end, rest.end);
          PendingSkip(old(entries), entries, r, rest, value, it, next);
          rest := next;
        }
        it := it + 1;
      }
    }
  }
}
