/**
 One 64-bit storage word as an unsigned number.  Bits are numbered from the
 least significant one; a shift by a variable amount goes one place at a time.
 */
module BitWord {
  function Pow2(n: nat): (p: nat)
    ensures p >= 1
  {
    if n == 0 then 1 else 2 * Pow2(n - 1)
  }

  lemma Pow2Byte(n: nat)
    ensures Pow2(n + 8) == 256 * Pow2(n)
  {
    assert Pow2(n + 2) == 4 * Pow2(n);
    assert Pow2(n + 4) == 4 * Pow2(n + 2);
    assert Pow2(n + 6) == 4 * Pow2(n + 4);
  }

  lemma Pow2Of64()
    ensures Pow2(64) == LIMIT && Pow2(63) == LIMIT / 2
  {
    Pow2Byte(0); Pow2Byte(8); Pow2Byte(16); Pow2Byte(24); Pow2Byte(32); Pow2Byte(40); Pow2Byte(48); Pow2Byte(56);
  }

  const LIMIT := 0x1_0000_0000_0000_0000

  type Word = w: nat | w < LIMIT

  const ALL: Word := LIMIT - 1

  predicate Bit(w: nat, k: nat) {
    if k == 0 then w % 2 == 1 else Bit(w / 2, k - 1)
  }

  // ------------------------------------------------------ machine operations

  function Join(low: bool, high: nat): nat {
    2 * high + if low then 1 else 0
  }

  function And(a: nat, b: nat): (r: nat)
    ensures r <= a && r <= b
  {
    if a == 0 then 0 else Join(a % 2 == 1 && b % 2 == 1, And(a / 2, b / 2))
  }

  function OrBits(a: nat, b: nat): nat {
    if a == 0 then b else Join(a % 2 == 1 || b % 2 == 1, OrBits(a / 2, b / 2))
  }

  function XorBits(a: nat, b: nat): nat {
    if a == 0 then b else Join((a % 2 == 1) != (b % 2 == 1), XorBits(a / 2, b / 2))
  }

  function Or(a: Word, b: Word): Word {
    Pow2Of64();
    BitwiseSmall(a, b, 64);
    OrBits(a, b)
  }

  function Xor(a: Word, b: Word): Word {
    Pow2Of64();
    BitwiseSmall(a, b, 64);
    XorBits(a, b)
  }

  lemma {:induction false} BitwiseSmall(a: nat, b: nat, n: nat)
    requires a < Pow2(n) && b < Pow2(n)
    ensures OrBits(a, b) < Pow2(n) && XorBits(a, b) < Pow2(n)
  {
    if a > 0 {
      BitwiseSmall(a / 2, b / 2, n - 1);
    }
  }

  /** Complement. */
  function Not(a: Word): Word {
    LIMIT - 1 - a
  }

  /** Subtraction, which wraps around. */
  function Sub(a: Word, b: Word): Word {
    (a - b) % LIMIT
  }

  /** `w >> d`. */
  function Shr(w: nat, d: nat): (r: nat)
    ensures r <= w
  {
    if d == 0 then w else Shr(w / 2, d - 1)
  }

  /** `w << d`; what leaves the word is lost. */
  function Shl(w: Word, d: nat): Word
    decreases d
  {
    if d == 0 then w else Shl((2 * w) % LIMIT, d - 1)
  }

  /** `maskTrailingOnes`: the lowest `n` bits. */
  function TrailingOnes(n: nat): Word
    requires n <= 64
  {
    if n == 0 then 0 else Shr(ALL, 64 - n)
  }

  /** `maskTrailingZeros`: all bits but the lowest `n`. */
  function TrailingZeros(n: nat): Word
    requires n <= 64
  {
    Not(TrailingOnes(n))
  }

  /** `maskLeadingOnes`: the highest `n` bits. */
  function LeadingOnes(n: nat): Word
    requires n <= 64
  {
    Not(TrailingOnes(64 - n))
  }

  // ----------------------------------------------------------- bit by bit

  lemma {:induction false} BitAnd(a: nat, b: nat, k: nat)
    ensures Bit(And(a, b), k) == (Bit(a, k) && Bit(b, k))
  {
    if a == 0 {
      BitZero(k);
    } else if k > 0 {
      BitAnd(a / 2, b / 2, k - 1);
    }
  }

  lemma {:induction false} BitOr(a: nat, b: nat, k: nat)
    ensures Bit(OrBits(a, b), k) == (Bit(a, k) || Bit(b, k))
  {
    if a == 0 {
      BitZero(k);
    } else if k > 0 {
      BitOr(a / 2, b / 2, k - 1);
    }
  }

  lemma {:induction false} BitXor(a: nat, b: nat, k: nat)
    ensures Bit(XorBits(a, b), k) == (Bit(a, k) != Bit(b, k))
  {
    if a == 0 {
      BitZero(k);
    } else if k > 0 {
      BitXor(a / 2, b / 2, k - 1);
    }
  }

  lemma {:induction false} BitZero(k: nat)
    ensures !Bit(0, k)
  {
    if k > 0 {
      BitZero(k - 1);
    }
  }

  lemma {:induction false} BitShr(w: nat, d: nat, k: nat)
    ensures Bit(Shr(w, d), k) == Bit(w, d + k)
  {
    if d > 0 {
      BitShr(w / 2, d - 1, k);
    }
  }

  /** A number below 2^n has no bits from `n` on. */
  lemma {:induction false} BitBeyond(w: nat, n: nat, k: nat)
    requires w < Pow2(n) && n <= k
    ensures !Bit(w, k)
  {
    if n == 0 {
      BitZero(k);
    } else {
      BitBeyond(w / 2, n - 1, k - 1);
    }
  }

  lemma {:induction false} SomeBit(w: nat) returns (k: nat)
    requires w > 0
    ensures Bit(w, k)
  {
    if w % 2 == 1 {
      k := 0;
    } else {
      k := SomeBit(w / 2);
      k := k + 1;
    }
  }

  /** A word is zero when none of its bits is set. */
  lemma ZeroByBits(w: Word)
    requires forall k | 0 <= k < 64 :: !Bit(w, k)
    ensures w == 0
  {
    if w > 0 {
      var k := SomeBit(w);
      if k >= 64 {
        Pow2Of64();
        BitBeyond(w, 64, k);
      }
    }
  }

  lemma HalfComplement(p: nat, w: nat)
    requires w < 2 * p
    ensures (2 * p - 1 - w) / 2 == p - 1 - w / 2
  {
  }

  lemma {:induction false} BitComplement(w: nat, n: nat, k: nat)
    requires w < Pow2(n) && k < n
    ensures Bit(Pow2(n) - 1 - w, k) == !Bit(w, k)
  {
    if k > 0 {
      HalfComplement(Pow2(n - 1), w);
      BitComplement(w / 2, n - 1, k - 1);
    }
  }

  lemma BitNot(w: Word, k: nat)
    requires k < 64
    ensures Bit(Not(w), k) == !Bit(w, k)
  {
    Pow2Of64();
    BitComplement(w, 64, k);
  }

  lemma {:induction false} BitOnes(n: nat, k: nat)
    ensures Bit(Pow2(n) - 1, k) <==> k < n
  {
    if n == 0 {
      BitZero(k);
    } else if k > 0 {
      assert (Pow2(n) - 1) / 2 == Pow2(n - 1) - 1;
      BitOnes(n - 1, k - 1);
    }
  }

  /** Dropping the top bit does not change the ones below it. */
  lemma {:induction false} BitBelowTop(w: nat, n: nat, k: nat)
    requires Pow2(n) <= w && k < n
    ensures Bit(w - Pow2(n), k) == Bit(w, k)
  {
    if k > 0 {
      assert (w - Pow2(n)) / 2 == w / 2 - Pow2(n - 1);
      BitBelowTop(w / 2, n - 1, k - 1);
    }
  }

  lemma {:induction false} BitShl(w: Word, d: nat, k: nat)
    requires k < 64
    ensures Bit(Shl(w, d), k) == (d <= k && Bit(w, k - d))
    decreases d
  {
    if d > 0 {
      BitShl((2 * w) % LIMIT, d - 1, k);
      if d <= k + 1 {
        BitDouble(w, k + 1 - d);
      }
    }
  }

  lemma BitDouble(w: Word, k: nat)
    requires k < 64
    ensures Bit((2 * w) % LIMIT, k) == (k > 0 && Bit(w, k - 1))
  {
    Pow2Of64();
    if k > 0 && w >= Pow2(63) {
      assert (2 * w) % LIMIT / 2 == w - Pow2(63);
      BitBelowTop(w, 63, k - 1);
    }
  }

  lemma BitTrailingOnes(n: nat, k: nat)
    requires n <= 64
    ensures Bit(TrailingOnes(n), k) <==> k < n
  {
    if n == 0 {
      BitZero(k);
    } else {
      Pow2Of64();
      BitShr(ALL, 64 - n, k);
      BitOnes(64, 64 - n + k);
    }
  }

  lemma {:induction false} ShlPow2(j: nat, k: nat)
    requires j + k < 64
    ensures Pow2(j) < LIMIT && Shl(Pow2(j), k) == Pow2(j + k) < LIMIT
    decreases k
  {
    Pow2Of64();
    Pow2Grows(j, 63);
    Pow2Grows(j + k, 63);
    if k > 0 {
      Pow2Grows(j + 1, 63);
      ShlPow2(j + 1, k - 1);
    }
  }

  lemma {:induction false} Pow2Grows(i: nat, e: nat)
    requires i <= e
    ensures Pow2(i) <= Pow2(e)
  {
    if i < e {
      Pow2Grows(i, e - 1);
    }
  }

  /** `(1 << e) - (1 << i)`: the bits from `i` up to `e`. */
  lemma {:induction false} BitDifference(i: nat, e: nat, k: nat)
    requires i <= e
    ensures Pow2(i) <= Pow2(e) && (Bit(Pow2(e) - Pow2(i), k) <==> i <= k < e)
  {
    Pow2Grows(i, e);
    if i == 0 {
      BitOnes(e, k);
    } else if k > 0 {
      assert (Pow2(e) - Pow2(i)) / 2 == Pow2(e - 1) - Pow2(i - 1);
      BitDifference(i - 1, e - 1, k - 1);
    }
  }

  lemma BitMask(i: nat, e: nat, k: nat)
    requires i <= e < 64
    ensures Bit(Sub(Shl(1, e), Shl(1, i)), k) <==> i <= k < e
  {
    Pow2Of64();
    Pow2Grows(e, 63);
    BitDifference(i, e, k);
    ShlPow2(0, e);
    ShlPow2(0, i);
  }

  lemma BitOne(i: nat, k: nat)
    requires i < 64
    ensures Bit(Shl(1, i), k) <==> k == i
  {
    if k >= 64 {
      Pow2Of64();
      BitBeyond(Shl(1, i), 64, k);
    } else {
      BitShl(1, i, k);
      if k > i {
        BitZero(k - i - 1);
      }
    }
  }

  lemma BitAll(k: nat)
    ensures Bit(ALL, k) <==> k < 64
  {
    Pow2Of64();
    BitOnes(64, k);
  }

  /** `(1 << e) - 1` */
  lemma BitPostfix(e: nat, k: nat)
    requires e < 64
    ensures Bit(Sub(Shl(1, e), 1), k) <==> k < e
  {
    BitMask(0, e, k);
  }

  /** `~0 << i` */
  lemma BitPrefix(i: nat, k: nat)
    requires k < 64
    ensures Bit(Shl(ALL, i), k) <==> i <= k
  {
    BitShl(ALL, i, k);
    if i <= k {
      BitAll(k - i);
    }
  }

  lemma BitTrailingZeros(n: nat, k: nat)
    requires n <= 64 && k < 64
    ensures Bit(TrailingZeros(n), k) <==> n <= k
  {
    BitTrailingOnes(n, k);
    BitNot(TrailingOnes(n), k);
  }

  /** A word shifted right, with the lowest bits of the next word carried in. */
  lemma ShrCarry(w: Word, v: Word, d: nat, k: nat)
    requires 0 < d < 64 && k < 64
    ensures Bit(Or(Shr(w, d), Shl(And(v, TrailingOnes(d)), 64 - d)), k) == if k + d < 64 then Bit(w, k + d) else Bit(v, k + d - 64)
  {
    var carry := And(v, TrailingOnes(d));
    BitOr(Shr(w, d), Shl(carry, 64 - d), k);
    BitShr(w, d, k);
    BitShl(carry, 64 - d, k);
    if k + d >= 64 {
      Pow2Of64();
      BitBeyond(w, 64, d + k);
      BitAnd(v, TrailingOnes(d), k + d - 64);
      BitTrailingOnes(d, k + d - 64);
    }
  }

  /** A word shifted left, with the highest bits of the previous word carried in. */
  lemma ShlCarry(w: Word, v: Word, d: nat, k: nat)
    requires 0 < d < 64 && k < 64
    ensures Bit(Or(Shl(w, d), Shr(And(v, LeadingOnes(d)), 64 - d)), k) == if d <= k then Bit(w, k - d) else Bit(v, k + 64 - d)
  {
    var carry := And(v, LeadingOnes(d));
    BitOr(Shl(w, d), Shr(carry, 64 - d), k);
    BitShl(w, d, k);
    BitShr(carry, 64 - d, k);
    BitAnd(v, LeadingOnes(d), 64 - d + k);
    if d <= k {
      Pow2Of64();
      BitBeyond(carry, 64, 64 - d + k);
    } else {
      BitTrailingOnes(64 - d, 64 - d + k);
      BitNot(TrailingOnes(64 - d), 64 - d + k);
    }
  }

  // ------------------------------------------------------------ bit counting

  function LowestBit(w: nat): (k: nat)
    requires w > 0
    ensures Bit(w, k) && forall j | 0 <= j < k :: !Bit(w, j)
  {
    if w % 2 == 1 then 0
    else
      var k := LowestBit(w / 2);
      assert forall j | 0 < j < k + 1 :: Bit(w, j) == Bit(w / 2, j - 1);
      k + 1
  }

  function HighestBit(w: nat): (k: nat)
    requires w > 0
    ensures Bit(w, k) && forall j | k < j :: !Bit(w, j)
  {
    if w == 1 then
      assert forall j | 0 < j :: Bit(w, j) == Bit(0, j - 1);
      BitZeroAll();
      0
    else
      var k := HighestBit(w / 2);
      assert forall j | 0 < j :: Bit(w, j) == Bit(w / 2, j - 1);
      k + 1
  }

  lemma BitZeroAll()
    ensures forall k: nat :: !Bit(0, k)
  {
    forall k: nat
      ensures !Bit(0, k)
    {
      BitZero(k);
    }
  }

  lemma WordBits(w: Word, k: nat)
    requires Bit(w, k)
    ensures k < 64
  {
    if k >= 64 {
      Pow2Of64();
      BitBeyond(w, 64, k);
    }
  }

  /** `countr_zero` */
  function CountrZero(w: Word): nat {
    if w == 0 then 64 else LowestBit(w)
  }

  /** `countl_zero` */
  function CountlZero(w: Word): nat {
    if w == 0 then 64
    else
      WordBits(w, HighestBit(w));
      63 - HighestBit(w)
  }

  /** Zeros below the lowest and above the highest bit that is set; all 64 where none is. */
  lemma ZerosCounted(w: Word)
    ensures w == 0 ==> CountrZero(w) == CountlZero(w) == 64
    ensures w != 0 ==> var n := CountrZero(w); n < 64 && Bit(w, n) && forall k | 0 <= k < n :: !Bit(w, k)
    ensures w != 0 ==> var n := CountlZero(w); n < 64 && Bit(w, 63 - n) && forall k | 63 - n < k < 64 :: !Bit(w, k)
  {
    if w != 0 {
      WordBits(w, LowestBit(w));
      WordBits(w, HighestBit(w));
    }
  }

  /** `countl_one` */
  function CountlOne(w: Word): nat {
    CountlZero(Not(w))
  }
}
