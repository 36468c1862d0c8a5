/** The packed bit vector: every word operation against the plain sequence of booleans it stands for. */
module BitVector {
  import opened BitWord

  function NumBitWords(s: nat): nat {
    (s + 63) / 64
  }

  /** Bit `i` of the storage, used or not. */
  predicate BitAt(bits: seq<Word>, i: nat)
    requires i < 64 * |bits|
  {
    Bit(bits[i / 64], i % 64)
  }

  /** The first `n` bits. */
  function Unpack(bits: seq<Word>, n: nat): (s: seq<bool>)
    requires n <= 64 * |bits|
    ensures |s| == n && forall i | 0 <= i < n :: s[i] == BitAt(bits, i)
  {
    seq(n, i requires 0 <= i < n => BitAt(bits, i))
  }

  // ------------------------------------------------ storage-level transitions

  /** Towards lower indices by `n`, with zeros entering at the top. */
  ghost predicate ShiftedDown(a: seq<Word>, b: seq<Word>, n: nat) {
    |b| == |a| && forall i | 0 <= i < 64 * |a| :: BitAt(b, i) == (i + n < 64 * |a| && BitAt(a, i + n))
  }

  /** Towards higher indices by `n`, with zeros entering at the bottom. */
  ghost predicate ShiftedUp(a: seq<Word>, b: seq<Word>, n: nat) {
    |b| == |a| && forall i | 0 <= i < 64 * |a| :: BitAt(b, i) == (n <= i && BitAt(a, i - n))
  }

  /** The same for the first `size` bits only. */
  ghost predicate ShiftedUpBelow(a: seq<Word>, b: seq<Word>, n: nat, size: nat) {
    && |b| == |a| && size <= 64 * |a|
    && forall i | 0 <= i < size :: BitAt(b, i) == (n <= i && BitAt(a, i - n))
  }

  /** The bits from `lo` up to `hi` have become `v`; the others are as before. */
  ghost predicate Painted(a: seq<Word>, b: seq<Word>, lo: nat, hi: nat, v: bool) {
    |b| == |a| && forall i | 0 <= i < 64 * |a| :: BitAt(b, i) == if lo <= i < hi then v else BitAt(a, i)
  }

  lemma ShiftedDownTwice(a: seq<Word>, b: seq<Word>, c: seq<Word>, m: nat, n: nat, total: nat)
    requires ShiftedDown(a, b, m) && ShiftedDown(b, c, n) && total == m + n
    ensures ShiftedDown(a, c, total)
  {
  }

  lemma ShiftedUpTwice(a: seq<Word>, b: seq<Word>, c: seq<Word>, m: nat, n: nat, total: nat, size: nat)
    requires ShiftedUpBelow(a, b, m, size) && ShiftedUpBelow(b, c, n, size) && total == m + n
    ensures ShiftedUpBelow(a, c, total, size)
  {
  }

  lemma ShiftedUpPainted(a: seq<Word>, b: seq<Word>, c: seq<Word>, n: nat, size: nat)
    requires ShiftedUpBelow(a, b, n, size) && Painted(b, c, size, 64 * |b|, false)
    ensures ShiftedUpBelow(a, c, n, size)
  {
  }

  lemma UnpackUp(a: seq<Word>, b: seq<Word>, n: nat, size: nat)
    requires ShiftedUpBelow(a, b, n, size) && n <= size
    ensures Unpack(b, size) == seq(n, _ => false) + Unpack(a, size)[..size - n]
  {
  }

  lemma PaintedTwice(a: seq<Word>, b: seq<Word>, c: seq<Word>, lo: nat, mid: nat, hi: nat, v: bool)
    requires lo <= mid <= hi && Painted(a, b, lo, mid, v) && Painted(b, c, mid, hi, v)
    ensures Painted(a, c, lo, hi, v)
  {
  }

  lemma UnpackPainted(a: seq<Word>, b: seq<Word>, lo: nat, hi: nat, v: bool, size: nat)
    requires Painted(a, b, lo, hi, v) && lo <= hi <= size <= 64 * |a|
    ensures Unpack(b, size) == Unpack(a, size)[..lo] + seq(hi - lo, _ => v) + Unpack(a, size)[hi..]
  {
  }

  /** Painting one word. */
  lemma PaintWord(a: seq<Word>, q: nat, w: Word, lo: nat, hi: nat, v: bool)
    requires q < |a| && 64 * q <= lo && hi <= 64 * (q + 1)
    requires forall k | 0 <= k < 64 :: Bit(w, k) == if lo <= 64 * q + k < hi then v else Bit(a[q], k)
    ensures Painted(a, a[q := w], lo, hi, v)
  {
    var b := a[q := w];
    forall i | 0 <= i < 64 * |a|
      ensures BitAt(b, i) == if lo <= i < hi then v else BitAt(a, i)
    {
      if i / 64 == q {
        assert i == 64 * q + i % 64;
      }
    }
  }

  class BitVector {
    var bits: seq<Word>
    var size: nat

    /** The words just suffice, and bits beyond the size are zero. */
    ghost predicate Valid()
      reads this
    {
      |bits| == NumBitWords(size) && forall i | size <= i < 64 * |bits| :: !BitAt(bits, i)
    }

    ghost function Contents(): seq<bool>
      requires Valid()
      reads this
    {
      Unpack(bits, size)
    }

    // ------------------------------------------------------------- shifts

    /** Moves whole words towards the front. */
    method WordShr(count: nat)
      requires count <= |bits|
      modifies this`bits
      ensures ShiftedDown(old(bits), bits, 64 * count)
    {
      if count == 0 {
        return;
      }
      bits := bits[count..] + seq(count, _ => 0);
      forall i | 0 <= i < 64 * |bits|
        ensures BitAt(bits, i) == (i + 64 * count < 64 * |bits| && BitAt(old(bits), i + 64 * count))
      {
        assert (i + 64 * count) / 64 == i / 64 + count && (i + 64 * count) % 64 == i % 64;
        BitZero(i % 64);
      }
    }

    /** `this >>= n` */
    method ShiftRight(n: nat)
      requires Valid() && n <= size
      modifies this`bits
      ensures Valid() && Contents() == old(Contents())[n..] + seq(n, _ => false)
    {
      if size == 0 || n == 0 {
        return;
      }
      WordShr(n / 64);
      ghost var moved := bits;
      var d := n % 64;
      if d != 0 {
        ShiftWordsRight(d);
        ShiftedDownTwice(old(bits), moved, bits, 64 * (n / 64), d, n);
      }
      assert ShiftedDown(old(bits), bits, n);
    }

    /** Shifts by less than a word, carrying from each word into the one before. */
    method ShiftWordsRight(d: nat)
      requires |bits| > 0 && 0 < d < 64
      modifies this`bits
      ensures ShiftedDown(old(bits), bits, d)
    {
      var numWords := |bits|;
      var mask, lsh := TrailingOnes(d), 64 - d;
      for i := 0 to numWords - 1
        invariant |bits| == numWords
        invariant forall j | 0 <= j < i :: bits[j] == Or(Shr(old(bits)[j], d), Shl(And(old(bits)[j + 1], mask), lsh))
        invariant forall j | i <= j < numWords :: bits[j] == old(bits)[j]
      {
        bits := bits[i := Shr(bits[i], d)];
        bits := bits[i := Or(bits[i], Shl(And(bits[i + 1], mask), lsh))];
      }
      bits := bits[numWords - 1 := Shr(bits[numWords - 1], d)];
      forall i | 0 <= i < 64 * numWords
        ensures BitAt(bits, i) == (i + d < 64 * numWords && BitAt(old(bits), i + d))
      {
        CarriedDown(old(bits), bits, d, i);
      }
    }

    // ------------------------------------------------------------- left

    /** Moves whole words towards the back. */
    method WordShl(count: nat)
      requires count <= |bits| && |bits| == NumBitWords(size)
      modifies this`bits
      ensures ShiftedUpBelow(old(bits), bits, 64 * count, size)
      ensures count > 0 ==> Valid()
    {
      if count == 0 {
        return;
      }
      bits := seq(count, _ => 0) + bits[..|bits| - count];
      forall i | 0 <= i < 64 * |bits|
        ensures BitAt(bits, i) == (64 * count <= i && BitAt(old(bits), i - 64 * count))
      {
        if 64 * count <= i {
          assert (i - 64 * count) / 64 == i / 64 - count && (i - 64 * count) % 64 == i % 64;
        }
        BitZero(i % 64);
      }
      ghost var moved := bits;
      SetUnusedBits(false);
      ShiftedUpPainted(old(bits), moved, bits, 64 * count, size);
    }

    /** `this <<= n` */
    method ShiftLeft(n: nat)
      requires Valid() && n <= size
      modifies this`bits
      ensures Valid() && Contents() == seq(n, _ => false) + old(Contents())[..size - n]
    {
      if size == 0 || n == 0 {
        return;
      }
      var count, d := n / 64, n % 64;
      WordShl(count);
      if d != 0 {
        ghost var moved := bits;
        ShiftBitsLeft(d);
        ShiftedUpTwice(old(bits), moved, bits, 64 * count, d, n, size);
      } else {
        assert n == 64 * count;
      }
      UnpackUp(old(bits), bits, n, size);
    }

    /** The part of a left shift that is less than a word. */
    method ShiftBitsLeft(d: nat)
      requires |bits| == NumBitWords(size) && |bits| > 0 && 0 < d < 64
      modifies this`bits
      ensures Valid() && ShiftedUpBelow(old(bits), bits, d, size)
    {
      ShiftWordsLeft(d);
      ghost var carried := bits;
      SetUnusedBits(false);
      ShiftedUpPainted(old(bits), carried, bits, d, size);
    }

    /** Shifts by less than a word, carrying from each word into the one after. */
    method ShiftWordsLeft(d: nat)
      requires |bits| > 0 && 0 < d < 64
      modifies this`bits
      ensures ShiftedUp(old(bits), bits, d)
    {
      var numWords := |bits|;
      var mask, rsh := LeadingOnes(d), 64 - d;
      for i := numWords - 1 downto 0
        invariant |bits| == numWords
        invariant forall j | i < j < numWords :: bits[j] == Or(Shl(old(bits)[j], d), Shr(And(old(bits)[j - 1], mask), rsh))
        invariant forall j | 0 <= j <= i :: bits[j] == old(bits)[j]
      {
        bits := bits[i + 1 := Shl(bits[i + 1], d)];
        bits := bits[i + 1 := Or(bits[i + 1], Shr(And(bits[i], mask), rsh))];
      }
      bits := bits[0 := Shl(bits[0], d)];
      forall i | 0 <= i < 64 * numWords
        ensures BitAt(bits, i) == (d <= i && BitAt(old(bits), i - d))
      {
        CarriedUp(old(bits), bits, d, i);
      }
    }

    /** Sets or clears the bits beyond the size in the last word. */
    method SetUnusedBits(t: bool)
      requires |bits| == NumBitWords(size)
      modifies this`bits
      ensures Painted(old(bits), bits, size, 64 * |bits|, t)
      ensures !t ==> Valid()
    {
      var extraBits := size % 64;
      if extraBits != 0 {
        var last := |bits| - 1;
        var mask := Shl(ALL, extraBits);
        bits := bits[last := if t then Or(bits[last], mask) else And(bits[last], Not(mask))];
        forall k | 0 <= k < 64
          ensures Bit(bits[last], k) == if size <= 64 * last + k then t else Bit(old(bits)[last], k)
        {
          BitPrefix(extraBits, k);
          BitNot(mask, k);
          BitOr(old(bits)[last], mask, k);
          BitAnd(old(bits)[last], Not(mask), k);
        }
        PaintWord(old(bits), last, bits[last], size, 64 * |bits|, t);
      }
    }

    // ------------------------------------------------------ ranges of bits

    /** Sets the bits from `first` up to `end`, whole words at a time where possible. */
    method SetRange(first: nat, end: nat)
      requires Valid() && first <= end <= size
      modifies this`bits
      ensures Valid() && Contents() == old(Contents())[..first] + seq(end - first, _ => true) + old(Contents())[end..]
    {
      if first == end {
        return;
      }
      var q, e := first / 64, end / 64;
      if q == e {
        var mask := Sub(Shl(1, end % 64), Shl(1, first % 64));
        MaskRange(bits, q, first, end);
        bits := bits[q := Or(bits[q], mask)];
        UnpackPainted(old(bits), bits, first, end, true, size);
        return;
      }
      PrefixRange(bits, q, first);
      bits := bits[q := Or(bits[q], Shl(ALL, first % 64))];
      var i := q + 1;
      while 64 * (i + 1) <= end
        invariant i <= e && |bits| == old(|bits|)
        invariant Painted(old(bits), bits, first, 64 * i, true)
        decreases e - i
      {
        ghost var before := bits;
        WholeWord(bits, i, true);
        bits := bits[i := ALL];
        PaintedTwice(old(bits), before, bits, first, 64 * i, 64 * (i + 1), true);
        i := i + 1;
      }
      if 64 * i < end {
        ghost var before := bits;
        PostfixRange(bits, i, end);
        bits := bits[i := Or(bits[i], Sub(Shl(1, end % 64), 1))];
        PaintedTwice(old(bits), before, bits, first, 64 * i, end, true);
      }
      UnpackPainted(old(bits), bits, first, end, true, size);
    }

    /** Clears the bits from `first` up to `end`. */
    method ResetRange(first: nat, end: nat)
      requires Valid() && first <= end <= size
      modifies this`bits
      ensures Valid() && Contents() == old(Contents())[..first] + seq(end - first, _ => false) + old(Contents())[end..]
    {
      if first == end {
        return;
      }
      var q, e := first / 64, end / 64;
      if q == e {
        var mask := Sub(Shl(1, end % 64), Shl(1, first % 64));
        MaskRange(bits, q, first, end);
        bits := bits[q := And(bits[q], Not(mask))];
        UnpackPainted(old(bits), bits, first, end, false, size);
        return;
      }
      PrefixRange(bits, q, first);
      bits := bits[q := And(bits[q], Not(Shl(ALL, first % 64)))];
      var i := q + 1;
      while 64 * (i + 1) <= end
        invariant i <= e && |bits| == old(|bits|)
        invariant Painted(old(bits), bits, first, 64 * i, false)
        decreases e - i
      {
        ghost var before := bits;
        WholeWord(bits, i, false);
        bits := bits[i := 0];
        PaintedTwice(old(bits), before, bits, first, 64 * i, 64 * (i + 1), false);
        i := i + 1;
      }
      if 64 * i < end {
        ghost var before := bits;
        PostfixRange(bits, i, end);
        bits := bits[i := And(bits[i], Not(Sub(Shl(1, end % 64), 1)))];
        PaintedTwice(old(bits), before, bits, first, 64 * i, end, false);
      }
      UnpackPainted(old(bits), bits, first, end, false, size);
    }

    // ------------------------------------------------------------- searching

    /** The first index in the range whose bit is `value`, or -1. */
    method FindFirstIn(first: nat, end: nat, value: bool) returns (r: int)
      requires Valid() && first <= end <= size
      ensures r == -1 ==> forall i | first <= i < end :: Contents()[i] != value
      ensures r != -1 ==> first <= r < end && Contents()[r] == value && forall i | first <= i < r :: Contents()[i] != value
    {
      if first == end {
        return -1;
      }
      var firstWord, lastWord := first / 64, (end - 1) / 64;
      for i := firstWord to lastWord + 1
        invariant forall j | first <= j < end && j < 64 * i :: BitAt(bits, j) != value
      {
        var copy := CopyForward(i, first, end, value);
        WordFound(bits, i, first, end, value, copy);
        if copy != 0 {
          return i * 64 + CountrZero(copy);
        }
      }
      return -1;
    }

    /** The last index in the range whose bit is set, or -1. */
    method FindLastIn(first: nat, end: nat) returns (r: int)
      requires Valid() && first <= end <= size
      ensures r == -1 ==> forall i | first <= i < end :: !Contents()[i]
      ensures r != -1 ==> first <= r < end && Contents()[r] && forall i | r < i < end :: !Contents()[i]
    {
      if first == end {
        return -1;
      }
      var lastWord, firstWord := (end - 1) / 64, first / 64;
      for i := lastWord + 1 downto firstWord
        invariant forall j | first <= j < end && 64 * i <= j :: !BitAt(bits, j)
      {
        var copy := CopyBackward(i, first, end);
        WordFound(bits, i, first, end, true, copy);
        if copy != 0 {
          r := (i + 1) * 64 - CountlZero(copy) - 1;
          assert forall j | r < j < end :: !BitAt(bits, j);
          return;
        }
      }
      return -1;
    }

    /** The last index in the range whose bit is clear, or -1. */
    method FindLastUnsetIn(first: nat, end: nat) returns (r: int)
      requires Valid() && first <= end <= size
      ensures r == -1 ==> forall i | first <= i < end :: Contents()[i]
      ensures r != -1 ==> first <= r < end && !Contents()[r] && forall i | r < i < end :: Contents()[i]
    {
      if first == end {
        return -1;
      }
      var lastWord, firstWord := (end - 1) / 64, first / 64;
      for i := lastWord + 1 downto firstWord
        invariant forall j | first <= j < end && 64 * i <= j :: BitAt(bits, j)
      {
        var copy := CopyUnset(i, first, end);
        WordFound(bits, i, first, end, false, Not(copy));
        if copy != ALL {
          var result := (i + 1) * 64 - CountlOne(copy) - 1;
          return if result < size then result else -1;
        }
      }
      return -1;
    }

    /** The word with everything outside the range, and with the unwanted value, cleared. */
    method CopyForward(i: nat, first: nat, end: nat, value: bool) returns (copy: Word)
      requires first < end && first / 64 <= i <= (end - 1) / 64 && i < |bits|
      ensures Shows(bits, i, first, end, value, copy)
    {
      copy := bits[i];
      if !value {
        copy := Not(copy);
      }
      if i == first / 64 {
        copy := And(copy, TrailingZeros(first % 64));
      }
      if i == (end - 1) / 64 {
        copy := And(copy, TrailingOnes((end - 1) % 64 + 1));
      }
      MaskedShows(bits, i, first, end, value);
    }

    method CopyBackward(i: nat, first: nat, end: nat) returns (copy: Word)
      requires first < end && first / 64 <= i <= (end - 1) / 64 && i < |bits|
      ensures Shows(bits, i, first, end, true, copy)
    {
      copy := bits[i];
      if i == (end - 1) / 64 {
        copy := And(copy, TrailingOnes((end - 1) % 64 + 1));
      }
      if i == first / 64 {
        copy := And(copy, TrailingZeros(first % 64));
      }
      MaskedBackShows(bits, i, first, end);
    }

    /** The word with everything outside the range set. */
    method CopyUnset(i: nat, first: nat, end: nat) returns (copy: Word)
      requires first < end && first / 64 <= i <= (end - 1) / 64 && i < |bits|
      ensures Shows(bits, i, first, end, false, Not(copy))
    {
      copy := bits[i];
      if i == (end - 1) / 64 {
        copy := Or(copy, TrailingZeros((end - 1) % 64 + 1));
      }
      if i == first / 64 {
        copy := Or(copy, TrailingOnes(first % 64));
      }
      MaskedUnsetShows(bits, i, first, end);
    }

    // ------------------------------------------------------------- resizing

    /** Grows with `t` or shrinks. */
    method Resize(n: nat, t: bool)
      requires Valid()
      modifies this`bits, this`size
      ensures Valid() && size == n
      ensures Contents() == if n <= old(size) then old(Contents())[..n] else old(Contents()) + seq(n - old(size), _ => t)
    {
      SetUnusedBits(t);
      ghost var filled := bits;
      size := n;
      var words := NumBitWords(n);
      bits := if words <= |bits| then bits[..words] else bits + seq(words - |bits|, _ => if t then ALL else 0);
      ghost var sized := bits;
      forall i | 0 <= i < 64 * words
        ensures BitAt(sized, i) == if i < 64 * |filled| then BitAt(filled, i) else t
      {
        BitAll(i % 64);
        BitZero(i % 64);
      }
      SetUnusedBits(false);
    }

    method SetBit(i: nat)
      requires Valid() && i < size
      modifies this`bits
      ensures Valid() && Contents() == old(Contents())[i := true]
    {
      var q := i / 64;
      SingleBit(bits, q, i);
      bits := bits[q := Or(bits[q], Shl(1, i % 64))];
    }

    method PushBack(value: bool)
      requires Valid()
      modifies this`bits, this`size
      ensures Valid() && Contents() == old(Contents()) + [value]
    {
      var oldSize, newSize := size, size + 1;
      if newSize > 64 * |bits| {
        Resize(newSize, false);
        assert seq(1, _ => false) == [false];
      } else {
        size := newSize;
      }
      assert Contents() == old(Contents()) + [false];
      if value {
        SetBit(oldSize);
      }
    }

    method PopBack()
      requires Valid() && size > 0
      modifies this`bits, this`size
      ensures Valid() && Contents() == old(Contents())[..old(size) - 1]
    {
      Resize(size - 1, false);
    }

    // ---------------------------------------------------------- set operators

    /** `this |= rhs`; the smaller vector counts as filled up with zeros. */
    method Union(rhs: BitVector)
      requires Valid() && rhs.Valid()
      modifies this`bits, this`size
      ensures Valid() && size == if old(size) < old(rhs.size) then old(rhs.size) else old(size)
      ensures forall i | 0 <= i < size :: Contents()[i] == (Has(old(Contents()), i) || Has(old(rhs.Contents()), i))
    {
      ghost var theirs := rhs.bits;
      if size < rhs.size {
        Resize(rhs.size, false);
      }
      ghost var mine, mySize := bits, size;
      for i := 0 to |rhs.bits|
        invariant |bits| == |mine| >= |theirs| == |rhs.bits| && size == mySize
        invariant forall j | 0 <= j < i :: bits[j] == Or(mine[j], theirs[j])
        invariant forall j | i <= j < |mine| :: bits[j] == mine[j]
        invariant forall j | i <= j < |theirs| :: rhs.bits[j] == theirs[j]
      {
        bits := bits[i := Or(bits[i], rhs.bits[i])];
      }
      forall i | 0 <= i < 64 * |mine|
        ensures BitAt(bits, i) == (BitAt(mine, i) || (i < 64 * |theirs| && BitAt(theirs, i)))
      {
        if i / 64 < |theirs| {
          BitOr(mine[i / 64], theirs[i / 64], i % 64);
        }
      }
    }

    /** `this &= rhs` */
    method Intersect(rhs: BitVector)
      requires Valid() && rhs.Valid()
      modifies this`bits
      ensures Valid() && size == old(size)
      ensures forall i | 0 <= i < size :: Contents()[i] == (old(Contents())[i] && Has(old(rhs.Contents()), i))
    {
      ghost var mine, theirs := bits, rhs.bits;
      var thisWords, rhsWords := |bits|, |rhs.bits|;
      var i := 0;
      while i != if thisWords <= rhsWords then thisWords else rhsWords
        invariant i <= thisWords && i <= rhsWords && |bits| == thisWords && |rhs.bits| == rhsWords
        invariant forall j | 0 <= j < i :: bits[j] == And(mine[j], theirs[j])
        invariant forall j | i <= j < thisWords :: bits[j] == mine[j]
        invariant forall j | i <= j < rhsWords :: rhs.bits[j] == theirs[j]
      {
        bits := bits[i := And(bits[i], rhs.bits[i])];
        i := i + 1;
      }
      ghost var common := i;
      while i != thisWords
        invariant common <= i <= thisWords && |bits| == thisWords
        invariant forall j | 0 <= j < common :: bits[j] == And(mine[j], theirs[j])
        invariant forall j | common <= j < i :: bits[j] == 0
      {
        bits := bits[i := 0];
        i := i + 1;
      }
      forall i | 0 <= i < 64 * thisWords
        ensures BitAt(bits, i) == (BitAt(mine, i) && i < 64 * rhsWords && BitAt(theirs, i))
      {
        BitZero(i % 64);
        if i / 64 < common {
          BitAnd(mine[i / 64], theirs[i / 64], i % 64);
        }
      }
    }

    /** `reset(rhs)`: removes the bits that are set in `rhs`. */
    method Subtract(rhs: BitVector)
      requires Valid() && rhs.Valid()
      modifies this`bits
      ensures Valid() && size == old(size)
      ensures forall i | 0 <= i < size :: Contents()[i] == (old(Contents())[i] && !Has(old(rhs.Contents()), i))
    {
      ghost var mine, theirs := bits, rhs.bits;
      var words := if |bits| <= |rhs.bits| then |bits| else |rhs.bits|;
      for i := 0 to words
        invariant |bits| == |mine| && |rhs.bits| == |theirs|
        invariant forall j | 0 <= j < i :: bits[j] == And(mine[j], Not(theirs[j]))
        invariant forall j | i <= j < |mine| :: bits[j] == mine[j]
        invariant forall j | i <= j < |theirs| :: rhs.bits[j] == theirs[j]
      {
        bits := bits[i := And(bits[i], Not(rhs.bits[i]))];
      }
      forall i | 0 <= i < 64 * |mine|
        ensures BitAt(bits, i) == (BitAt(mine, i) && !(i < 64 * |theirs| && BitAt(theirs, i)))
      {
        if i / 64 < words {
          BitAnd(mine[i / 64], Not(theirs[i / 64]), i % 64);
          BitNot(theirs[i / 64], i % 64);
        }
      }
    }

    /** `this == rhs`: comparing the words compares the contents, since unused bits are zero. */
    method Equals(rhs: BitVector) returns (same: bool)
      requires Valid() && rhs.Valid()
      ensures same <==> Contents() == rhs.Contents()
    {
      if size != rhs.size {
        return false;
      }
      same := bits == rhs.bits;
      if Contents() == rhs.Contents() {
        forall i | 0 <= i < 64 * |bits|
          ensures BitAt(bits, i) == BitAt(rhs.bits, i)
        {
          if i < size {
            assert Contents()[i] == rhs.Contents()[i];
          }
        }
        forall q | 0 <= q < |bits|
          ensures bits[q] == rhs.bits[q]
        {
          SameWord(bits, rhs.bits, q);
        }
      }
    }
  }

  /** Membership in the set that a vector stands for. */
  predicate Has(s: seq<bool>, i: nat) {
    i < |s| && s[i]
  }

  lemma SameWord(a: seq<Word>, b: seq<Word>, q: nat)
    requires |a| == |b| && q < |a| && forall i | 0 <= i < 64 * |a| :: BitAt(a, i) == BitAt(b, i)
    ensures a[q] == b[q]
  {
    var x := Xor(a[q], b[q]);
    forall k | 0 <= k < 64
      ensures !Bit(x, k)
    {
      BitXor(a[q], b[q], k);
      assert (64 * q + k) / 64 == q && (64 * q + k) % 64 == k;
      assert BitAt(a, 64 * q + k) == BitAt(b, 64 * q + k);
    }
    ZeroByBits(x);
    XorZero(a[q], b[q]);
  }

  lemma {:induction false} XorZero(a: nat, b: nat)
    requires XorBits(a, b) == 0
    ensures a == b
  {
    if a > 0 {
      XorZero(a / 2, b / 2);
    }
  }

  // ---------------------------------------------------------------- masks

  /** A mask that covers the part of `lo .. hi` in word `q` paints just that. */
  lemma PaintMask(a: seq<Word>, q: nat, mask: Word, lo: nat, hi: nat)
    requires q < |a| && 64 * q <= lo && hi <= 64 * (q + 1)
    requires forall k | 0 <= k < 64 :: Bit(mask, k) <==> lo <= 64 * q + k < hi
    ensures Painted(a, a[q := Or(a[q], mask)], lo, hi, true)
    ensures Painted(a, a[q := And(a[q], Not(mask))], lo, hi, false)
  {
    forall k | 0 <= k < 64
      ensures Bit(Or(a[q], mask), k) == if lo <= 64 * q + k < hi then true else Bit(a[q], k)
      ensures Bit(And(a[q], Not(mask)), k) == if lo <= 64 * q + k < hi then false else Bit(a[q], k)
    {
      BitOr(a[q], mask, k);
      BitAnd(a[q], Not(mask), k);
      BitNot(mask, k);
    }
    PaintWord(a, q, Or(a[q], mask), lo, hi, true);
    PaintWord(a, q, And(a[q], Not(mask)), lo, hi, false);
  }

  lemma MaskRange(a: seq<Word>, q: nat, first: nat, end: nat)
    requires q < |a| && q == first / 64 == end / 64 && first < end
    ensures var mask := Sub(Shl(1, end % 64), Shl(1, first % 64));
            && Painted(a, a[q := Or(a[q], mask)], first, end, true)
            && Painted(a, a[q := And(a[q], Not(mask))], first, end, false)
  {
    var mask := Sub(Shl(1, end % 64), Shl(1, first % 64));
    forall k | 0 <= k < 64
      ensures Bit(mask, k) <==> first <= 64 * q + k < end
    {
      BitMask(first % 64, end % 64, k);
    }
    PaintMask(a, q, mask, first, end);
  }

  lemma PrefixRange(a: seq<Word>, q: nat, first: nat)
    requires q < |a| && q == first / 64
    ensures var mask := Shl(ALL, first % 64);
            && Painted(a, a[q := Or(a[q], mask)], first, 64 * (q + 1), true)
            && Painted(a, a[q := And(a[q], Not(mask))], first, 64 * (q + 1), false)
  {
    var mask := Shl(ALL, first % 64);
    forall k | 0 <= k < 64
      ensures Bit(mask, k) <==> first <= 64 * q + k < 64 * (q + 1)
    {
      BitPrefix(first % 64, k);
    }
    PaintMask(a, q, mask, first, 64 * (q + 1));
  }

  lemma PostfixRange(a: seq<Word>, q: nat, end: nat)
    requires q < |a| && 64 * q < end < 64 * (q + 1)
    ensures var mask := Sub(Shl(1, end % 64), 1);
            && Painted(a, a[q := Or(a[q], mask)], 64 * q, end, true)
            && Painted(a, a[q := And(a[q], Not(mask))], 64 * q, end, false)
  {
    var mask := Sub(Shl(1, end % 64), 1);
    forall k | 0 <= k < 64
      ensures Bit(mask, k) <==> 64 * q <= 64 * q + k < end
    {
      BitPostfix(end % 64, k);
    }
    PaintMask(a, q, mask, 64 * q, end);
  }

  lemma WholeWord(a: seq<Word>, q: nat, v: bool)
    requires q < |a|
    ensures Painted(a, a[q := if v then ALL else 0], 64 * q, 64 * (q + 1), v)
  {
    var w: Word := if v then ALL else 0;
    forall k | 0 <= k < 64
      ensures Bit(w, k) == v
    {
      BitAll(k);
      BitZero(k);
    }
    PaintWord(a, q, w, 64 * q, 64 * (q + 1), v);
  }

  lemma SingleBit(a: seq<Word>, q: nat, i: nat)
    requires q < |a| && q == i / 64
    ensures Painted(a, a[q := Or(a[q], Shl(1, i % 64))], i, i + 1, true)
  {
    forall k | 0 <= k < 64
      ensures Bit(Shl(1, i % 64), k) <==> i <= 64 * q + k < i + 1
    {
      BitOne(i % 64, k);
    }
    PaintMask(a, q, Shl(1, i % 64), i, i + 1);
  }

  // -------------------------------------------------------------- searching

  /** Bit `k` of `copy` tells whether index `64 * q + k` is in the range and has the wanted value. */
  ghost predicate Shows(a: seq<Word>, q: nat, first: nat, end: nat, value: bool, copy: Word)
    requires q < |a|
  {
    forall k | 0 <= k < 64 :: Bit(copy, k) == (first <= 64 * q + k < end && Bit(a[q], k) == value)
  }

  function Masked(w: Word, q: nat, first: nat, end: nat): Word
    requires first < end
  {
    var w1 := if q == first / 64 then And(w, TrailingZeros(first % 64)) else w;
    if q == (end - 1) / 64 then And(w1, TrailingOnes((end - 1) % 64 + 1)) else w1
  }

  lemma MaskedShows(a: seq<Word>, q: nat, first: nat, end: nat, value: bool)
    requires q < |a| && first < end && first / 64 <= q <= (end - 1) / 64
    ensures Shows(a, q, first, end, value, Masked(if value then a[q] else Not(a[q]), q, first, end))
  {
    var w := if value then a[q] else Not(a[q]);
    forall k | 0 <= k < 64
      ensures Bit(Masked(w, q, first, end), k) == (first <= 64 * q + k < end && Bit(a[q], k) == value)
    {
      BitNot(a[q], k);
      BitAnd(w, TrailingZeros(first % 64), k);
      BitTrailingZeros(first % 64, k);
      var w1 := if q == first / 64 then And(w, TrailingZeros(first % 64)) else w;
      BitAnd(w1, TrailingOnes((end - 1) % 64 + 1), k);
      BitTrailingOnes((end - 1) % 64 + 1, k);
    }
  }

  function MaskedBack(w: Word, q: nat, first: nat, end: nat): Word
    requires first < end
  {
    var w1 := if q == (end - 1) / 64 then And(w, TrailingOnes((end - 1) % 64 + 1)) else w;
    if q == first / 64 then And(w1, TrailingZeros(first % 64)) else w1
  }

  lemma MaskedBackShows(a: seq<Word>, q: nat, first: nat, end: nat)
    requires q < |a| && first < end && first / 64 <= q <= (end - 1) / 64
    ensures Shows(a, q, first, end, true, MaskedBack(a[q], q, first, end))
  {
    forall k | 0 <= k < 64
      ensures Bit(MaskedBack(a[q], q, first, end), k) == (first <= 64 * q + k < end && Bit(a[q], k))
    {
      BitAnd(a[q], TrailingOnes((end - 1) % 64 + 1), k);
      BitTrailingOnes((end - 1) % 64 + 1, k);
      var w1 := if q == (end - 1) / 64 then And(a[q], TrailingOnes((end - 1) % 64 + 1)) else a[q];
      BitAnd(w1, TrailingZeros(first % 64), k);
      BitTrailingZeros(first % 64, k);
    }
  }

  function MaskedUnset(w: Word, q: nat, first: nat, end: nat): Word
    requires first < end
  {
    var w1 := if q == (end - 1) / 64 then Or(w, TrailingZeros((end - 1) % 64 + 1)) else w;
    if q == first / 64 then Or(w1, TrailingOnes(first % 64)) else w1
  }

  lemma MaskedUnsetShows(a: seq<Word>, q: nat, first: nat, end: nat)
    requires q < |a| && first < end && first / 64 <= q <= (end - 1) / 64
    ensures Shows(a, q, first, end, false, Not(MaskedUnset(a[q], q, first, end)))
  {
    forall k | 0 <= k < 64
      ensures Bit(Not(MaskedUnset(a[q], q, first, end)), k) == (first <= 64 * q + k < end && !Bit(a[q], k))
    {
      BitOr(a[q], TrailingZeros((end - 1) % 64 + 1), k);
      BitTrailingZeros((end - 1) % 64 + 1, k);
      var w1 := if q == (end - 1) / 64 then Or(a[q], TrailingZeros((end - 1) % 64 + 1)) else a[q];
      BitOr(w1, TrailingOnes(first % 64), k);
      BitTrailingOnes(first % 64, k);
      BitNot(MaskedUnset(a[q], q, first, end), k);
    }
  }

  /** What a search learns from one word. */
  lemma WordFound(a: seq<Word>, q: nat, first: nat, end: nat, value: bool, copy: Word)
    requires q < |a| && end <= 64 * |a| && Shows(a, q, first, end, value, copy)
    ensures copy == 0 ==> forall i | first <= i < end && i / 64 == q :: BitAt(a, i) != value
    ensures copy != 0 ==>
              && HighestBit(copy) < 64 && LowestBit(copy) < 64
              && var lo, hi := 64 * q + LowestBit(copy), 64 * q + HighestBit(copy);
                 && first <= lo < end && BitAt(a, lo) == value
                 && first <= hi < end && BitAt(a, hi) == value
                 && (forall i | first <= i < end && i / 64 == q && i < lo :: BitAt(a, i) != value)
                 && (forall i | first <= i < end && i / 64 == q && hi < i :: BitAt(a, i) != value)
  {
    ShownInside(a, q, first, end, value, copy);
    if copy == 0 {
      BitZeroAll();
    } else {
      ShownAt(a, q, first, end, value, copy, LowestBit(copy));
      ShownAt(a, q, first, end, value, copy, HighestBit(copy));
      BeyondBits(a, q, first, end, value, copy);
    }
  }

  lemma ShownInside(a: seq<Word>, q: nat, first: nat, end: nat, value: bool, copy: Word)
    requires q < |a| && end <= 64 * |a| && Shows(a, q, first, end, value, copy)
    ensures forall i | first <= i < end && i / 64 == q :: Bit(copy, i % 64) == (BitAt(a, i) == value)
  {
    forall i | first <= i < end && i / 64 == q
      ensures Bit(copy, i % 64) == (BitAt(a, i) == value)
    {
      assert i == 64 * q + i % 64;
    }
  }

  lemma ShownAt(a: seq<Word>, q: nat, first: nat, end: nat, value: bool, copy: Word, k: nat)
    requires q < |a| && end <= 64 * |a| && Shows(a, q, first, end, value, copy) && Bit(copy, k)
    ensures k < 64 && first <= 64 * q + k < end && BitAt(a, 64 * q + k) == value
  {
    WordBits(copy, k);
    assert (64 * q + k) / 64 == q && (64 * q + k) % 64 == k;
  }

  lemma BeyondBits(a: seq<Word>, q: nat, first: nat, end: nat, value: bool, copy: Word)
    requires q < |a| && end <= 64 * |a| && copy != 0
    requires forall i | first <= i < end && i / 64 == q :: Bit(copy, i % 64) == (BitAt(a, i) == value)
    ensures forall i | first <= i < end && i / 64 == q && i < 64 * q + LowestBit(copy) :: BitAt(a, i) != value
    ensures forall i | first <= i < end && i / 64 == q && 64 * q + HighestBit(copy) < i :: BitAt(a, i) != value
  {
    forall i | first <= i < end && i / 64 == q
      ensures i == 64 * q + i % 64
    {
    }
  }

  lemma CarriedDown(a: seq<Word>, b: seq<Word>, d: nat, i: nat)
    requires 0 < d < 64 && |b| == |a| > 0 && i < 64 * |a|
    requires forall j | 0 <= j < |a| - 1 :: b[j] == Or(Shr(a[j], d), Shl(And(a[j + 1], TrailingOnes(d)), 64 - d))
    requires b[|a| - 1] == Shr(a[|a| - 1], d)
    ensures BitAt(b, i) == (i + d < 64 * |a| && BitAt(a, i + d))
  {
    var q, k := i / 64, i % 64;
    if q < |a| - 1 {
      ShrCarry(a[q], a[q + 1], d, k);
    } else {
      BitShr(a[q], d, k);
      if k + d >= 64 {
        Pow2Of64();
        BitBeyond(a[q], 64, d + k);
      }
    }
    if k + d < 64 {
      assert (i + d) / 64 == q && (i + d) % 64 == k + d;
    } else {
      assert (i + d) / 64 == q + 1 && (i + d) % 64 == k + d - 64;
    }
  }

  lemma CarriedUp(a: seq<Word>, b: seq<Word>, d: nat, i: nat)
    requires 0 < d < 64 && |b| == |a| > 0 && i < 64 * |a|
    requires forall j | 0 < j < |a| :: b[j] == Or(Shl(a[j], d), Shr(And(a[j - 1], LeadingOnes(d)), 64 - d))
    requires b[0] == Shl(a[0], d)
    ensures BitAt(b, i) == (d <= i && BitAt(a, i - d))
  {
    var q, k := i / 64, i % 64;
    if q > 0 {
      ShlCarry(a[q], a[q - 1], d, k);
    } else {
      BitShl(a[0], d, k);
    }
    if d <= k {
      assert (i - d) / 64 == q && (i - d) % 64 == k - d;
    } else if q > 0 {
      assert (i - d) / 64 == q - 1 && (i - d) % 64 == k + 64 - d;
    }
  }
}
