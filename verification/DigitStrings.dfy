/** Arithmetic on numbers written as digit strings, most significant digit first. */
module DigitStrings {
  /** The value of a digit in any base up to 36; anything else is no digit. */
  function DigitOf(c: char): nat {
    if '0' <= c <= '9' then c as int - 48
    else if 'a' <= c <= 'z' then c as int - 97 + 10
    else if 'A' <= c <= 'Z' then c as int - 65 + 10
    else 99
  }

  predicate Numeral(base: nat, s: string) {
    forall i | 0 <= i < |s| :: DigitOf(s[i]) < base
  }

  function Value(base: nat, s: string): nat {
    if s == "" then 0 else Value(base, s[..|s| - 1]) * base + DigitOf(s[|s| - 1])
  }

  function Pow(base: nat, n: nat): nat {
    if n == 0 then 1 else base * Pow(base, n - 1)
  }

  lemma Snoc(base: nat, s: string, c: char)
    ensures Value(base, s + [c]) == Value(base, s) * base + DigitOf(c)
  {
    assert (s + [c])[..|s|] == s;
  }

  lemma Prefix(base: nat, s: string, n: nat)
    requires n < |s|
    ensures Value(base, s[..n + 1]) == Value(base, s[..n]) * base + DigitOf(s[n])
  {
    assert s[..n + 1] == s[..n] + [s[n]];
    Snoc(base, s[..n], s[n]);
  }

  lemma Distribute(d: nat, p: nat, v: nat, b: nat)
    ensures (d * p + v) * b == d * (b * p) + v * b
  {
    assert (d * p + v) * b == d * p * b + v * b;
    assert d * p * b == d * (p * b);
  }

  /** One more digit `e` behind, for a number with `d` in front of `v`. */
  lemma DigitBehind(base: nat, d: nat, p: nat, q: nat, v: nat, e: nat, front: nat, whole: nat, tail: nat)
    requires front == d * p + v && q == base * p && whole == front * base + e && tail == v * base + e
    ensures whole == d * q + tail
  {
    Distribute(d, p, v, base);
  }

  lemma {:induction false} Cons(base: nat, c: char, s: string)
    ensures Value(base, [c] + s) == DigitOf(c) * Pow(base, |s|) + Value(base, s)
    decreases |s|
  {
    if s == "" {
      Snoc(base, "", c);
      assert [c] + s == "" + [c];
    } else {
      var n := |s| - 1;
      var t, e := s[..n], s[n];
      Cons(base, c, t);
      ConsSnoc(base, c, t, e);
      assert t + [e] == s;
    }
  }

  lemma ConsSnoc(base: nat, c: char, t: string, e: char)
    requires Value(base, [c] + t) == DigitOf(c) * Pow(base, |t|) + Value(base, t)
    ensures Value(base, [c] + (t + [e])) == DigitOf(c) * Pow(base, |t| + 1) + Value(base, t + [e])
  {
    Snoc(base, t, e);
    Snoc(base, [c] + t, e);
    assert [c] + (t + [e]) == ([c] + t) + [e];
    DigitBehind(base, DigitOf(c), Pow(base, |t|), Pow(base, |t| + 1), Value(base, t), DigitOf(e),
                Value(base, [c] + t), Value(base, [c] + (t + [e])), Value(base, t + [e]));
  }

  lemma MulBelow(v: nat, p: nat, base: nat, d: nat)
    requires v < p && d < base
    ensures v * base + d < base * p
  {
    assert (v + 1) * base <= p * base;
  }

  lemma {:induction false} Bounded(base: nat, s: string)
    requires Numeral(base, s)
    ensures Value(base, s) < Pow(base, |s|)
    decreases |s|
  {
    if s != "" {
      var n := |s| - 1;
      Bounded(base, s[..n]);
      MulBelow(Value(base, s[..n]), Pow(base, n), base, DigitOf(s[n]));
    }
  }

  // ------------------------------------------------------------- long division

  /** The next digit; reading at the end of the string gives the terminator. */
  function DigitAt(number: string, idx: nat): int {
    if idx < |number| then number[idx] as int - 48 else -48
  }

  /** Multiplication as repeated addition. */
  function Times(a: nat, b: nat): nat {
    if b == 0 then 0 else Times(a, b - 1) + a
  }

  lemma TimesIsProduct(a: nat, b: nat)
    ensures Times(a, b) == a * b
  {
  }

  lemma TimesMono(a: nat, b: nat, c: nat)
    requires a <= b
    ensures a * c <= b * c
  {
  }

  /** One digit `t` of a quotient: `q` becomes `q * 10 + t`, with the remainder left over. */
  lemma {:induction false} DivideStep(q: nat, divisor: nat, temp: nat, t: nat, r: nat)
    requires temp < 10 * divisor && temp == Times(t, divisor) + r
    ensures t < 10 && Times(q * 10 + t, divisor) == 10 * Times(q, divisor) + Times(t, divisor)
    ensures temp >= divisor && r < divisor ==> t > 0
  {
    TimesIsProduct(t, divisor);
    if t >= 10 {
      TimesMono(10, t, divisor);
    }
    TenfoldAnd(q, t, divisor);
    TimesIsProduct(0, divisor);
  }

  lemma {:induction false} TenfoldAnd(q: nat, t: nat, d: nat)
    ensures Times(q * 10 + t, d) == 10 * Times(q, d) + Times(t, d)
    decreases d
  {
    if d > 0 {
      TenfoldAnd(q, t, d - 1);
    }
  }

  /** The quotient so far, times the divisor, with one more digit. */
  lemma AppendDigit(ans: string, divisor: nat, temp: nat, t: nat, r: nat, prefix: nat)
    requires temp < 10 * divisor && 10 * Times(Value(10, ans), divisor) + temp == prefix && temp == Times(t, divisor) + r
    ensures t < 10 && Times(Value(10, ans + [(t + 48) as char]), divisor) + r == prefix
    ensures temp >= divisor && r < divisor ==> t > 0
  {
    DivideStep(Value(10, ans), divisor, temp, t, r);
    Snoc(10, ans, (t + 48) as char);
    assert DigitOf((t + 48) as char) == t;
  }

  /** Quotient and remainder. */
  method Divide(a: nat, d: nat) returns (q: nat, r: nat)
    requires d > 0
    ensures a == Times(q, d) + r && r < d
  {
    q, r := a / d, a % d;
    TimesIsProduct(q, d);
  }

  lemma OneQuotient(d: nat, q: nat, r: nat, k: nat, j: nat)
    requires q * d + r == k * d + j && r < d && j < d
    ensures q == k
  {
    if k < q {
      TimesMono(k + 1, q, d);
    } else if q < k {
      TimesMono(q + 1, k, d);
    }
  }

  lemma Quotient(a: nat, d: nat, q: nat, r: nat)
    requires a == Times(q, d) + r && r < d
    ensures a / d == q
  {
    TimesIsProduct(q, d);
    OneQuotient(d, q, r, a / d, a % d);
  }

  lemma {:induction false} PrefixSmaller(s: string, n: nat)
    requires n <= |s|
    ensures Value(10, s[..n]) <= Value(10, s)
    decreases |s|
  {
    if n < |s| {
      PrefixSmaller(s[..|s| - 1], n);
      assert s[..|s| - 1][..n] == s[..n];
    } else {
      assert s[..n] == s;
    }
  }

  /**
   No signed overflow while the division begins: as long as what is read is less
   than the divisor, one more digit stays in the range of a 32-bit `int`.
   */
  ghost predicate PrefixFits(number: string, divisor: nat) {
    forall n | 0 < n < |number| :: Value(10, number[..n]) < divisor ==> Value(10, number[..n + 1]) <= 0x7FFF_FFFF
  }

  /** The remainder of the first `n` digits, with one more, is below 2^32. */
  predicate FitsAt(number: string, divisor: nat, n: nat)
    requires divisor > 0 && n < |number|
  {
    Value(10, number[..n]) % divisor * 10 + DigitOf(number[n]) <= 0xFFFF_FFFF
  }

  ghost predicate RemaindersFit(number: string, divisor: nat)
    requires divisor > 0
  {
    forall n | 0 < n < |number| :: FitsAt(number, divisor, n)
  }

  lemma Remainder(a: nat, d: nat, q: nat, r: nat)
    requires a == Times(q, d) + r && r < d
    ensures a % d == r
  {
    Quotient(a, d, q, r);
    TimesIsProduct(q, d);
  }

  lemma FitsExactly(number: string, divisor: nat, n: nat, q: nat, r: nat)
    requires n < |number| && Value(10, number[..n]) == Times(q, divisor) + r && r < divisor
    ensures FitsAt(number, divisor, n) <==> r * 10 + DigitOf(number[n]) <= 0xFFFF_FFFF
  {
    Remainder(Value(10, number[..n]), divisor, q, r);
  }

  /** The first part of the answer has the form of the whole. */
  ghost predicate Begun(ans: string) {
    Numeral(10, ans) && (ans != "" ==> ans[0] != '0')
  }

  /** Up to `idx`, the number is the divisor times `ans` with one more digit to come, and `temp`. */
  ghost predicate Divided(number: string, divisor: nat, idx: nat, ans: string, temp: nat)
    requires divisor > 0
  {
    && idx < |number| && Begun(ans) && temp < 10 * divisor
    && 10 * Times(Value(10, ans), divisor) + temp == Value(10, number[..idx + 1])
    && (ans == "" ==> temp >= divisor || idx == |number| - 1)
    && (forall n | 0 < n <= idx :: FitsAt(number, divisor, n))
  }

  /** A remainder has wrapped around: the divisor is missing at least once. */
  ghost predicate Short(number: string, divisor: nat, idx: nat, ans: string, temp: nat)
    requires divisor > 0
  {
    && idx < |number| && Begun(ans) && ans != "" && temp < 10 * divisor
    && 10 * Times(Value(10, ans), divisor) + temp + divisor <= Value(10, number[..idx + 1])
    && !RemaindersFit(number, divisor)
  }

  ghost predicate Dividing(number: string, divisor: nat, idx: nat, ans: string, temp: nat)
    requires divisor > 0
  {
    Divided(number, divisor, idx, ans, temp) || Short(number, divisor, idx, ans, temp)
  }

  ghost predicate IsQuotient(number: string, divisor: nat, ans: string, rest: nat)
    requires divisor > 0
  {
    && Numeral(10, ans) && ans != "" && (ans[0] == '0' ==> ans == "0") && rest < divisor
    && if RemaindersFit(number, divisor) then Times(Value(10, ans), divisor) + rest == Value(10, number)
       else Times(Value(10, ans), divisor) + rest + divisor <= Value(10, number)
  }

  /** The digits read before the division begins. */
  lemma PrefixNext(number: string, divisor: nat, idx: nat, temp: nat)
    requires Numeral(10, number) && PrefixFits(number, divisor) && idx + 1 < |number|
    requires temp == Value(10, number[..idx + 1]) && temp < divisor
    ensures var next := temp * 10 + DigitAt(number, idx + 1);
            0 <= next <= 0x7FFF_FFFF && next < 10 * divisor && next == Value(10, number[..idx + 2])
    ensures FitsAt(number, divisor, idx + 1)
  {
    Prefix(10, number, idx + 1);
    TimesIsProduct(0, divisor);
    FitsExactly(number, divisor, idx + 1, 0, temp);
    assert Value(10, number[..(idx + 1) + 1]) <= 0x7FFF_FFFF;
  }

  lemma NumeralSnoc(ans: string, quotient: nat)
    requires Numeral(10, ans) && quotient < 10
    ensures Numeral(10, ans + [(quotient + 48) as char])
  {
  }

  /** What is read next, in the arithmetic of `uint32_t`. */
  function NextTemp(number: string, idx: nat, remainder: nat): nat {
    (remainder * 10 + DigitAt(number, idx + 1)) % 0x1_0000_0000
  }

  lemma NextBound(number: string, divisor: nat, idx: nat, remainder: nat)
    requires Numeral(10, number) && idx + 1 < |number| && remainder < divisor <= 0xFFFF_FFFF
    ensures var next, full := NextTemp(number, idx, remainder), remainder * 10 + DigitOf(number[idx + 1]);
            next < 10 * divisor && if full <= 0xFFFF_FFFF then next == full else next + divisor <= full
    ensures Value(10, number[..idx + 2]) == Value(10, number[..idx + 1]) * 10 + DigitOf(number[idx + 1])
  {
    Prefix(10, number, idx + 1);
    assert DigitAt(number, idx + 1) == DigitOf(number[idx + 1]) < 10;
  }

  /** One more digit of an exact quotient. */
  lemma DividedNext(number: string, divisor: nat, idx: nat, ans: string, temp: nat, quotient: nat, remainder: nat)
    requires Numeral(10, number) && 0 < divisor <= 0xFFFF_FFFF && Divided(number, divisor, idx, ans, temp)
    requires temp == Times(quotient, divisor) + remainder && remainder < divisor
    ensures quotient < 10
    ensures var ans' := ans + [(quotient + 48) as char];
            if idx + 1 < |number| then Dividing(number, divisor, idx + 1, ans', NextTemp(number, idx, remainder))
            else IsQuotient(number, divisor, ans', remainder)
  {
    AppendDigit(ans, divisor, temp, quotient, remainder, Value(10, number[..idx + 1]));
    NumeralSnoc(ans, quotient);
    var ans' := ans + [(quotient + 48) as char];
    if idx + 1 < |number| {
      NextBound(number, divisor, idx, remainder);
      FitsExactly(number, divisor, idx + 1, Value(10, ans'), remainder);
    } else {
      assert number[..idx + 1] == number;
    }
  }

  /** One more digit of a quotient that is too small already. */
  lemma ShortNext(number: string, divisor: nat, idx: nat, ans: string, temp: nat, quotient: nat, remainder: nat)
    requires Numeral(10, number) && 0 < divisor <= 0xFFFF_FFFF && Short(number, divisor, idx, ans, temp)
    requires temp == Times(quotient, divisor) + remainder && remainder < divisor
    ensures quotient < 10
    ensures var ans' := ans + [(quotient + 48) as char];
            if idx + 1 < |number| then Short(number, divisor, idx + 1, ans', NextTemp(number, idx, remainder))
            else IsQuotient(number, divisor, ans', remainder)
  {
    AppendDigit(ans, divisor, temp, quotient, remainder, 10 * Times(Value(10, ans), divisor) + temp);
    NumeralSnoc(ans, quotient);
    if idx + 1 < |number| {
      NextBound(number, divisor, idx, remainder);
    } else {
      assert number[..idx + 1] == number;
    }
  }

  lemma NextDigit(number: string, divisor: nat, idx: nat, ans: string, temp: nat, quotient: nat, remainder: nat)
    requires Numeral(10, number) && 0 < divisor <= 0xFFFF_FFFF && Dividing(number, divisor, idx, ans, temp)
    requires temp == Times(quotient, divisor) + remainder && remainder < divisor
    ensures quotient < 10
    ensures var ans' := ans + [(quotient + 48) as char];
            if idx + 1 < |number| then Dividing(number, divisor, idx + 1, ans', NextTemp(number, idx, remainder))
            else IsQuotient(number, divisor, ans', remainder)
  {
    if Divided(number, divisor, idx, ans, temp) {
      DividedNext(number, divisor, idx, ans, temp, quotient, remainder);
    } else {
      ShortNext(number, divisor, idx, ans, temp, quotient, remainder);
    }
  }

  /** The quotient, if and only if no remainder wrapped around. */
  lemma QuotientOrLess(number: string, divisor: nat, ans: string, rest: nat)
    requires divisor > 0 && IsQuotient(number, divisor, ans, rest)
    ensures Value(10, ans) <= Value(10, number) / divisor
    ensures Value(10, ans) == Value(10, number) / divisor <==> RemaindersFit(number, divisor)
  {
    var a, v := Value(10, ans), Value(10, number);
    if RemaindersFit(number, divisor) {
      Quotient(v, divisor, a, rest);
    } else {
      TimesIsProduct(a, divisor);
      BelowQuotient(v, divisor, a);
    }
  }

  lemma BelowQuotient(v: nat, d: nat, a: nat)
    requires d > 0 && a * d + d <= v
    ensures a < v / d
  {
    if v / d <= a {
      TimesMono(v / d, a, d);
    }
  }

  /**
   `longDivision`: what is read up to the divisor is an `int`, which must not
   overflow; remainders are a `uint32_t`, which may wrap around.  The quotient
   is right if and only if they do not, and too small otherwise.
   */
  method LongDivision(number: string, divisor: nat) returns (ans: string)
    requires number != "" && Numeral(10, number) && 0 < divisor <= 0xFFFF_FFFF && PrefixFits(number, divisor)
    ensures Numeral(10, ans) && ans != "" && (ans[0] == '0' ==> ans == "0")
    ensures Value(10, ans) <= Value(10, number) / divisor
    ensures Value(10, ans) == Value(10, number) / divisor <==> RemaindersFit(number, divisor)
  {
    ans := "";
    var idx := 0;
    var temp: int := number[0] as int - 48;
    Prefix(10, number, 0);
    while idx < |number| - 1 && temp < divisor
      invariant idx < |number| && 0 <= temp <= 0x7FFF_FFFF && temp < 10 * divisor
      invariant temp == Value(10, number[..idx + 1])
      invariant forall n | 0 < n <= idx :: FitsAt(number, divisor, n)
    {
      PrefixNext(number, divisor, idx, temp);
      idx := idx + 1;
      temp := temp * 10 + DigitAt(number, idx);
    }
    ghost var rest: nat := 0;
    TimesIsProduct(0, divisor);
    while |number| - 1 >= idx
      invariant idx <= |number| && temp >= 0
      invariant idx < |number| ==> Dividing(number, divisor, idx, ans, temp) == true
      invariant idx == |number| ==> IsQuotient(number, divisor, ans, rest) == true
    {
      var quotient, remainder := Divide(temp, divisor);
      NextDigit(number, divisor, idx, ans, temp, quotient, remainder);
      ans := ans + [(quotient + 48) as char];
      rest := remainder;
      temp := NextTemp(number, idx, remainder);
      idx := idx + 1;
    }
    QuotientOrLess(number, divisor, ans, rest);
  }

  /** Up to 429496729 nothing wraps around, and up to 214748364 nothing overflows. */
  lemma SmallDivisor(number: string, divisor: nat)
    requires Numeral(10, number) && divisor > 0
    ensures divisor <= 429496729 ==> RemaindersFit(number, divisor)
    ensures divisor <= 214748364 ==> PrefixFits(number, divisor)
  {
    forall n | 0 < n < |number|
      ensures divisor <= 429496729 ==> FitsAt(number, divisor, n)
    {
      if divisor <= 429496729 {
        RemainderDigit(Value(10, number[..n]), divisor, DigitOf(number[n]));
      }
    }
    forall n | 0 < n < |number|
      ensures divisor <= 214748364 && Value(10, number[..n]) < divisor ==> Value(10, number[..n + 1]) <= 0x7FFF_FFFF
    {
      Prefix(10, number, n);
    }
  }

  lemma RemainderDigit(v: nat, divisor: nat, digit: nat)
    requires 0 < divisor <= 429496729 && digit < 10
    ensures v % divisor * 10 + digit <= 0xFFFF_FFFF
  {
  }

  /** A number that is an `int` neither overflows nor wraps around. */
  lemma SmallNumber(number: string, divisor: nat)
    requires Numeral(10, number) && divisor > 0 && Value(10, number) <= 0x7FFF_FFFF
    ensures RemaindersFit(number, divisor) && PrefixFits(number, divisor)
  {
    forall n | 0 < n < |number|
      ensures FitsAt(number, divisor, n)
    {
      Prefix(10, number, n);
      PrefixSmaller(number, n + 1);
      RemainderSmaller(Value(10, number[..n]), divisor);
    }
    forall n | 0 < n < |number|
      ensures Value(10, number[..n]) < divisor ==> Value(10, number[..n + 1]) <= 0x7FFF_FFFF
    {
      PrefixSmaller(number, n + 1);
    }
  }

  lemma RemainderSmaller(v: nat, divisor: nat)
    requires divisor > 0
    ensures v % divisor <= v
  {
  }

  lemma WrapDigits(s: string)
    requires s == "8589934596"
    ensures Value(10, s[..9]) == 858993459 && DigitOf(s[9]) == 6
  {
    Prefix(10, s, 0);
    Prefix(10, s, 1);
    Prefix(10, s, 2);
    Prefix(10, s, 3);
    Prefix(10, s, 4);
    Prefix(10, s, 5);
    Prefix(10, s, 6);
    Prefix(10, s, 7);
    Prefix(10, s, 8);
  }

  /** 8589934596 / 429496730 is not found to be 19: the remainder 429496729, with the digit 6, is 2^32. */
  lemma RemainderWraps(number: string)
    requires number == "8589934596"
    ensures Numeral(10, number) && PrefixFits(number, 429496730) && !RemaindersFit(number, 429496730)
  {
    WrapDigits(number);
    assert !FitsAt(number, 429496730, 9);
    forall n | 0 < n < |number|
      ensures Value(10, number[..n]) < 429496730 ==> Value(10, number[..n + 1]) <= 0x7FFF_FFFF
    {
      if n < 9 {
        PrefixSmaller(number[..9], n + 1);
        assert number[..9][..n + 1] == number[..n + 1];
      }
    }
  }

  // ------------------------------------------------- hexadecimal multiplication

  lemma MultiplyStep(d: nat, p: nat, v: nat, m: nat, carry: nat, r: nat, carry': nat, digit: nat)
    requires v * m == carry * p + r && d * m + carry == carry' * 16 + digit
    ensures (d * p + v) * m == carry' * (16 * p) + (digit * p + r)
  {
    calc {
      (d * p + v) * m;
      d * p * m + v * m;
      { Reorder(d, p, m); }
      d * m * p + (carry * p + r);
      (d * m + carry) * p + r;
      (carry' * 16 + digit) * p + r;
      carry' * (16 * p) + (digit * p + r);
    }
  }

  lemma Reorder(a: nat, b: nat, c: nat)
    ensures a * b * c == a * c * b
  {
  }

  /** The same step as sums, for the values themselves. */
  lemma MultiplySums(d: nat, p: nat, v: nat, m: nat, carry: nat, r: nat, carry': nat, digit: nat)
    requires Times(v, m) == Times(carry, p) + r && Times(d, m) + carry == carry' * 16 + digit
    ensures Times(Times(d, p) + v, m) == Times(carry', 16 * p) + (Times(digit, p) + r)
  {
    TimesIsProduct(v, m);
    TimesIsProduct(carry, p);
    TimesIsProduct(d, m);
    TimesIsProduct(d, p);
    TimesIsProduct(digit, p);
    TimesIsProduct(d * p + v, m);
    TimesIsProduct(carry', 16 * p);
    MultiplyStep(d, p, v, m, carry, r, carry', digit);
  }

  lemma ConsSum(c: char, s: string)
    ensures Value(16, [c] + s) == Times(DigitOf(c), Pow(16, |s|)) + Value(16, s)
  {
    Cons(16, c, s);
    TimesIsProduct(DigitOf(c), Pow(16, |s|));
  }

  lemma CarryDigit(carry: nat)
    ensures var d := DigitOf(((48 + carry) % 256) as char);
            d < 16 && d == carry <==> carry < 10
  {
  }

  lemma CarryFits(carry: nat, p: nat, r: nat)
    requires r < p
    ensures carry < 10 <==> carry * p + r < 10 * p
  {
    if carry < 10 {
      TimesMono(carry + 1, 10, p);
    } else {
      TimesMono(10, carry, p);
    }
  }

  lemma NumeralCons(c: char, r: string)
    requires Numeral(16, r)
    ensures Numeral(16, [c] + r) <==> DigitOf(c) < 16
  {
    assert ([c] + r)[0] == c && forall i | 0 <= i < |r| :: ([c] + r)[i + 1] == r[i];
  }

  /** The last carry in front: the product shows, if and only if it is a single decimal digit. */
  lemma CarryShows(carry: nat, r: string, product: nat)
    requires Numeral(16, r) && product == carry * Pow(16, |r|) + Value(16, r) && carry > 0
    ensures var s := [((48 + carry) % 256) as char] + r;
            Numeral(16, s) && Value(16, s) == product <==> product < 10 * Pow(16, |r|)
  {
    var c, p := ((48 + carry) % 256) as char, Pow(16, |r|);
    Cons(16, c, r);
    Bounded(16, r);
    NumeralCons(c, r);
    CarryDigit(carry);
    CarryFits(carry, p, Value(16, r));
    if DigitOf(c) != carry {
      TimesApart(DigitOf(c), carry, p);
    }
  }

  lemma TimesApart(a: nat, b: nat, p: nat)
    requires p > 0 && a != b
    ensures a * p != b * p
  {
    if a < b {
      TimesMono(a + 1, b, p);
    } else {
      TimesMono(b + 1, a, p);
    }
  }

  /** The product of the digits read so far, with one more digit in front. */
  lemma MultiplyDigit(c: char, rest: string, m: nat, carry: nat, r: string, carry': nat, digit: char)
    requires |r| == |rest| && Times(DigitOf(c), m) + carry == carry' * 16 + DigitOf(digit)
    requires Times(Value(16, rest), m) == Times(carry, Pow(16, |r|)) + Value(16, r)
    ensures Times(Value(16, [c] + rest), m) == Times(carry', Pow(16, |r| + 1)) + Value(16, [digit] + r)
  {
    ConsSum(c, rest);
    ConsSum(digit, r);
    MultiplySums(DigitOf(c), Pow(16, |r|), Value(16, rest), m, carry, Value(16, r), carry', DigitOf(digit));
  }

  // C++ division of signed integers goes toward zero.

  function Quot(a: int, d: nat): int
    requires d > 0
  {
    if a >= 0 then a / d else -(-a / d)
  }

  function Rem(a: int, d: nat): int
    requires d > 0
  {
    a - d * Quot(a, d)
  }

  lemma RemBound(a: int, d: nat)
    requires d > 0
    ensures Rem(a, d) < d && -Rem(a, d) < d
    ensures a >= 0 ==> Rem(a, d) >= 0 && Quot(a, d) >= 0
    ensures a == d * Quot(a, d) + Rem(a, d)
  {
  }

  function ResultDigit(r: int): char
    requires -16 < r < 16
  {
    if r < 10 then (48 + r) as char else (65 + r - 10) as char
  }

  /** The product of the first digit, with what is carried over from the others. */
  function Product(s: string, m: int): int
    requires s != ""
    decreases |s|, 0
  {
    DigitOf(s[0]) * m + Carry(s[1..], m)
  }

  function Carry(s: string, m: int): int
    decreases |s|, 1
  {
    if s == "" then 0 else Quot(Product(s, m), 16)
  }

  function ProductDigits(s: string, m: int): (r: string)
    ensures |r| == |s|
  {
    if s == "" then ""
    else
      RemBound(Product(s, m), 16);
      [ResultDigit(Rem(Product(s, m), 16))] + ProductDigits(s[1..], m)
  }

  /** The result: a positive last carry is written as one decimal digit. */
  function ProductText(s: string, m: int): string {
    if Carry(s, m) > 0 then [((48 + Carry(s, m)) % 256) as char] + ProductDigits(s, m) else ProductDigits(s, m)
  }

  /** No product overflows, as far as the digits are read: back to the last character that is none. */
  predicate ProductsFit(s: string, m: int) {
    s != "" ==> ProductsFit(s[1..], m) && (Numeral(16, s) ==> -0x8000_0000 <= Product(s, m) <= 0x7FFF_FFFF)
  }

  /** For one digit, that is the range of an `int`. */
  lemma OneDigitFits(c: char, m: int)
    requires DigitOf(c) < 16
    ensures ProductsFit([c], m) <==> -0x8000_0000 <= DigitOf(c) * m < 0x8000_0000
  {
    assert [c][0] == c && [c][1..] == "" && Numeral(16, [c]);
    assert Product([c], m) == DigitOf(c) * m + Carry("", m);
  }

  /** For multipliers up to 0x7FFFFFF none does. */
  lemma {:induction false} SmallMultiplier(s: string, m: int)
    requires -0x7FF_FFFF <= m <= 0x7FF_FFFF
    ensures ProductsFit(s, m) && (Numeral(16, s) ==> if m >= 0 then 0 <= Carry(s, m) <= m else m <= Carry(s, m) <= 0)
    decreases |s|
  {
    if s != "" {
      SmallMultiplier(s[1..], m);
      if Numeral(16, s) {
        assert Numeral(16, s[1..]) && DigitOf(s[0]) < 16;
        DigitTimes(DigitOf(s[0]), m, Carry(s[1..], m));
      }
    }
  }

  lemma DigitTimes(d: nat, m: int, carry: int)
    requires d < 16 && if m >= 0 then 0 <= carry <= m else m <= carry <= 0
    ensures var p := d * m + carry;
            if m >= 0 then 0 <= p <= 16 * m && 0 <= Quot(p, 16) <= m else 16 * m <= p <= 0 && m <= Quot(p, 16) <= 0
  {
    if m >= 0 {
      TimesMono(d, 15, m);
    } else {
      TimesMono(d, 15, -m);
      assert d * m == -(d * -m);
    }
  }

  /** `r`, with `carry` still to come, are the digits of `s` times `m`. */
  ghost predicate Multiplied(s: string, m: nat, carry: nat, r: string) {
    && |r| == |s| && Numeral(16, s) && Numeral(16, r)
    && Times(Value(16, s), m) == Times(carry, Pow(16, |r|)) + Value(16, r)
  }

  lemma MultipliedNone(m: nat)
    ensures Multiplied("", m, 0, "")
  {
    TimesIsProduct(0, m);
    TimesIsProduct(0, 1);
  }

  lemma MultipliedNext(c: char, s: string, m: nat, carry: nat, r: string, carry': nat, digit: char)
    requires Multiplied(s, m, carry, r) && DigitOf(c) < 16 && DigitOf(digit) < 16
    requires Times(DigitOf(c), m) + carry == carry' * 16 + DigitOf(digit)
    ensures Multiplied([c] + s, m, carry', [digit] + r)
  {
    NumeralCons(c, s);
    NumeralCons(digit, r);
    MultiplyDigit(c, s, m, carry, r, carry', digit);
  }

  /** The digits and the last carry make up the product. */
  lemma {:induction false} MultiplyRight(s: string, m: nat)
    requires Numeral(16, s)
    ensures Carry(s, m) >= 0 && Multiplied(s, m, Carry(s, m), ProductDigits(s, m))
    decreases |s|
  {
    if s == "" {
      MultipliedNone(m);
    } else {
      var d := DigitOf(s[0]);
      MultiplyRight(s[1..], m);
      TimesIsProduct(d, m);
      RemBound(Product(s, m), 16);
      var r := Rem(Product(s, m), 16);
      assert DigitOf(ResultDigit(r)) == r;
      MultipliedNext(s[0], s[1..], m, Carry(s[1..], m), ProductDigits(s[1..], m), Carry(s, m), ResultDigit(r));
      assert [s[0]] + s[1..] == s;
    }
  }

  lemma ZeroParts(c: char, rest: string)
    requires Value(16, [c] + rest) == 0
    ensures DigitOf(c) == 0 && Value(16, rest) == 0
  {
    Cons(16, c, rest);
    PowPositive(|rest|);
    if DigitOf(c) > 0 {
      TimesMono(1, DigitOf(c), Pow(16, |rest|));
    }
  }

  lemma ZeroInFront(r: string)
    requires Numeral(16, r) && Value(16, r) == 0
    ensures Numeral(16, ['0'] + r) && Value(16, ['0'] + r) == 0
  {
    Cons(16, '0', r);
    NumeralCons('0', r);
  }

  lemma ZeroDigit(s: string, m: int)
    requires s != "" && DigitOf(s[0]) == 0 && Carry(s[1..], m) == 0
    ensures Carry(s, m) == 0 && ProductDigits(s, m) == ['0'] + ProductDigits(s[1..], m)
  {
    assert Product(s, m) == 0;
    assert Quot(0, 16) == 0 && Rem(0, 16) == 0;
  }

  lemma {:induction false} MultiplyZero(s: string, m: int)
    requires Numeral(16, s) && Value(16, s) == 0
    ensures Carry(s, m) == 0 && Numeral(16, ProductDigits(s, m)) && Value(16, ProductDigits(s, m)) == 0
    decreases |s|
  {
    if s != "" {
      assert [s[0]] + s[1..] == s;
      ZeroParts(s[0], s[1..]);
      MultiplyZero(s[1..], m);
      ZeroDigit(s, m);
      ZeroInFront(ProductDigits(s[1..], m));
    }
  }

  lemma {:induction false} PowPositive(n: nat)
    ensures Pow(16, n) > 0
  {
    if n > 0 {
      PowPositive(n - 1);
    }
  }

  /** The result shows the product, if and only if that is not negative and fits with one decimal digit in front. */
  lemma ProductShown(s: string, m: int)
    requires Numeral(16, s)
    ensures |s| <= |ProductText(s, m)| <= |s| + 1
    ensures var r := ProductText(s, m);
            Numeral(16, r) && Value(16, r) == Value(16, s) * m <==> 0 <= Value(16, s) * m < 10 * Pow(16, |s|)
  {
    PowPositive(|s|);
    if Value(16, s) == 0 {
      MultiplyZero(s, m);
    } else if m >= 0 {
      NaturalShown(s, m);
      TimesIsProduct(Value(16, s), m);
    } else {
      NegativeProduct(Value(16, s), m);
    }
  }

  lemma NaturalShown(s: string, m: nat)
    requires Numeral(16, s)
    ensures var r, product := ProductText(s, m), Times(Value(16, s), m);
            Numeral(16, r) && Value(16, r) == product <==> product < 10 * Pow(16, |s|)
  {
    MultiplyRight(s, m);
    CarryInFront(Carry(s, m), ProductDigits(s, m), Times(Value(16, s), m));
  }

  lemma CarryInFront(carry: nat, r: string, product: nat)
    requires Numeral(16, r) && product == Times(carry, Pow(16, |r|)) + Value(16, r)
    ensures var t := if carry > 0 then [((48 + carry) % 256) as char] + r else r;
            Numeral(16, t) && Value(16, t) == product <==> product < 10 * Pow(16, |r|)
  {
    TimesIsProduct(carry, Pow(16, |r|));
    Bounded(16, r);
    if carry > 0 {
      CarryShows(carry, r, product);
    }
  }

  lemma NegativeProduct(v: nat, m: int)
    requires v > 0 && m < 0
    ensures v * m < 0
  {
  }

  /** The digits of a product that is not negative are in upper case. */
  lemma {:induction false} ProductUpper(s: string, m: nat)
    requires Numeral(16, s)
    ensures UpperHex(ProductDigits(s, m))
    decreases |s|
  {
    if s != "" {
      ProductUpper(s[1..], m);
      MultiplyRight(s[1..], m);
      RemBound(Product(s, m), 16);
    }
  }

  /** 15 times 11 is 165, or A5: the last carry, ten, is written as a colon. */
  lemma ColonForTen()
    ensures ProductText("F", 11) == ":5" && !Numeral(16, ":5")
  {
    assert "F"[1..] == "" && Product("F", 11) == 165;
    assert ProductDigits("F", 11) == "5";
    assert ":5"[0] == ':';
  }

  lemma NumeralSuffix(s: string, i: nat)
    requires i <= |s|
    ensures Numeral(16, s) ==> Numeral(16, s[i..])
  {
  }

  lemma {:induction false} ProductsFitSuffix(s: string, i: nat)
    requires i <= |s|
    ensures forall m | ProductsFit(s, m) :: ProductsFit(s[i..], m)
    decreases i
  {
    if i > 0 {
      ProductsFitSuffix(s[1..], i - 1);
      assert s[1..][i - 1..] == s[i..];
    } else {
      assert s[0..] == s;
    }
  }

  /**
   `multiplyHexByInteger`: no result for anything but hexadecimal digits, else
   the text of the product; no intermediate product may overflow.
   */
  method MultiplyHexByInteger(hexNumber: string, multiplier: int) returns (resultHex: string)
    requires ProductsFit(hexNumber, multiplier)
    ensures resultHex == if Numeral(16, hexNumber) then ProductText(hexNumber, multiplier) else ""
  {
    resultHex := "";
    var carry := 0;
    var i := |hexNumber| - 1;
    assert hexNumber[i + 1..] == "";
    while i >= 0
      invariant -1 <= i < |hexNumber| && Numeral(16, hexNumber[i + 1..])
      invariant resultHex == ProductDigits(hexNumber[i + 1..], multiplier) && carry == Carry(hexNumber[i + 1..], multiplier)
    {
      ghost var read := hexNumber[i..];
      assert read[0] == hexNumber[i] && read[1..] == hexNumber[i + 1..];
      var digitValue := DigitOf(hexNumber[i]);
      if digitValue >= 16 {
        return "";
      }
      assert Numeral(16, read);
      ProductsFitSuffix(hexNumber, i);
      var product := digitValue * multiplier + carry;
      assert product == Product(read, multiplier) && -0x8000_0000 <= product <= 0x7FFF_FFFF;
      RemBound(product, 16);
      carry := Quot(product, 16);
      resultHex := [ResultDigit(Rem(product, 16))] + resultHex;
      i := i - 1;
    }
    assert hexNumber[i + 1..] == hexNumber;
    if carry > 0 {
      resultHex := [((48 + carry) % 256) as char] + resultHex;
    }
  }

  // ------------------------------------------------------- counting down and up

  predicate UpperHex(s: string) {
    forall i | 0 <= i < |s| :: '0' <= s[i] <= '9' || 'A' <= s[i] <= 'F'
  }

  /** One less, for a digit that needs no borrow; anything else stays. */
  function Predecessor(c: char): char {
    if '0' < c <= '9' || 'A' < c <= 'F' then (c as int - 1) as char else if c == 'A' then '9' else c
  }

  function Decrement(s: string): string {
    if s == "" then ""
    else
      var n := |s| - 1;
      if s[n] == '0' then Decrement(s[..n]) + ['F'] else s[..n] + [Predecessor(s[n])]
  }

  /** Zeros up to position `i` borrow from it. */
  lemma {:induction false} DecrementAt(s: string, i: int)
    requires -1 <= i < |s| && (forall k | i < k < |s| :: s[k] == '0') && (i >= 0 ==> s[i] != '0')
    ensures |Decrement(s)| == |s|
    ensures forall k | 0 <= k < |s| :: Decrement(s)[k] == if k > i then 'F' else if k == i then Predecessor(s[i]) else s[k]
    decreases |s|
  {
    if i < |s| - 1 {
      DecrementAt(s[..|s| - 1], i);
    }
  }

  lemma {:induction false} DecrementUpper(s: string)
    requires UpperHex(s)
    ensures UpperHex(Decrement(s)) && |Decrement(s)| == |s| && Numeral(16, s)
    decreases |s|
  {
    if s != "" {
      DecrementUpper(s[..|s| - 1]);
    }
  }

  function OneLess(v: nat, range: nat): int {
    if v == 0 then range - 1 else v - 1
  }

  /** A zero borrows from the digits before it. */
  lemma Borrow(v: nat, range: nat, w: int)
    requires w == OneLess(v, range)
    ensures w * 16 + 15 == OneLess(v * 16, 16 * range)
  {
  }

  lemma DecrementSnoc(t: string, c: char)
    ensures Decrement(t + [c]) == if c == '0' then Decrement(t) + ['F'] else t + [Predecessor(c)]
  {
    assert (t + [c])[..|t|] == t;
  }

  lemma DecrementValue(t: string, c: char)
    requires '0' <= c <= '9' || 'A' <= c <= 'F'
    ensures Value(16, t + [c]) == Value(16, t) * 16 + DigitOf(c)
    ensures Value(16, Decrement(t + [c])) == if c == '0' then Value(16, Decrement(t)) * 16 + 15 else Value(16, t) * 16 + DigitOf(c) - 1
  {
    Snoc(16, t, c);
    DecrementSnoc(t, c);
    if c == '0' {
      Snoc(16, Decrement(t), 'F');
    } else {
      Snoc(16, t, Predecessor(c));
      PredecessorValue(c);
    }
  }

  /** `subOneFromHex` subtracts one, modulo the range of the digits. */
  lemma {:induction false} DecrementSubtracts(s: string)
    requires UpperHex(s)
    ensures Value(16, s) < Pow(16, |s|)
    ensures Value(16, Decrement(s)) == OneLess(Value(16, s), Pow(16, |s|))
    decreases |s|
  {
    DecrementUpper(s);
    Bounded(16, s);
    if s != "" {
      var t, c := s[..|s| - 1], s[|s| - 1];
      assert s == t + [c];
      DecrementValue(t, c);
      if c == '0' {
        DecrementSubtracts(t);
        Borrow(Value(16, t), Pow(16, |t|), Value(16, Decrement(t)));
      }
    }
  }

  /** What becomes of every character that needs no borrow, by its code: of `1` to `9` and `B` to `F`, of `A`, and of the rest. */
  lemma Predecessors(c: char)
    ensures 49 <= c as int <= 57 || 66 <= c as int <= 70 ==> Predecessor(c) as int == c as int - 1
    ensures c as int == 65 ==> Predecessor(c) as int == 57
    ensures c as int <= 48 || 58 <= c as int <= 64 || 71 <= c as int ==> Predecessor(c) == c
  {
  }

  lemma PredecessorValue(c: char)
    requires '0' < c <= '9' || 'A' <= c <= 'F'
    ensures DigitOf(Predecessor(c)) + 1 == DigitOf(c)
  {
  }

  method SubOneFromHex(hexNumber: array<char>, index: int)
    requires -1 <= index < hexNumber.Length
    modifies hexNumber
    ensures hexNumber[..index + 1] == Decrement(old(hexNumber[..index + 1]))
    ensures forall k | index < k < hexNumber.Length :: hexNumber[k] == old(hexNumber[k])
  {
    var i := index;
    ghost var s := hexNumber[..index + 1];
    while i >= 0 && hexNumber[i] == '0'
      invariant -1 <= i <= index
      invariant forall k | 0 <= k < hexNumber.Length :: hexNumber[k] == if i < k <= index then 'F' else old(hexNumber[k])
      invariant forall k | i < k <= index :: s[k] == '0'
    {
      hexNumber[i] := 'F';
      i := i - 1;
    }
    DecrementAt(s, i);
    if i >= 0 {
      hexNumber[i] := Predecessor(hexNumber[i]);
    }
  }

  predicate Base36(s: string) {
    forall i | 0 <= i < |s| :: '0' <= s[i] <= '9' || 'a' <= s[i] <= 'z'
  }

  /** The next digit and whether to carry; bytes from 128 on count as negative. */
  function Successor(c: char): (char, bool) {
    var n := c as int + 1;
    if 48 <= n <= 57 || 97 <= n <= 122 then (n as char, false)
    else if 57 < n < 97 then ('a', false)
    else ('0', 122 < n < 128)
  }

  /** What becomes of every byte, by its code: of `/` to `8`, a backquote to `y`, `9` to an underscore, `z` to a tilde, and the rest. */
  lemma Successors(c: char)
    requires c as int < 256
    ensures 47 <= c as int <= 56 || 96 <= c as int <= 121 ==> Successor(c) == ((c as int + 1) as char, false)
    ensures 57 <= c as int <= 95 ==> Successor(c) == ('a', false)
    ensures 122 <= c as int <= 126 ==> Successor(c) == ('0', true)
    ensures c as int <= 46 || 127 <= c as int ==> Successor(c) == ('0', false)
  {
  }

  function Increment(s: string): string {
    if s == "" then ""
    else
      var n := |s| - 1;
      var (c, carry) := Successor(s[n]);
      if carry then Increment(s[..n]) + [c] else s[..n] + [c]
  }

  /** Positions after `i` carry into it. */
  lemma {:induction false} IncrementAt(s: string, i: int)
    requires -1 <= i < |s| && (forall k | i < k < |s| :: Successor(s[k]).1) && (i >= 0 ==> !Successor(s[i]).1)
    ensures |Increment(s)| == |s|
    ensures forall k | 0 <= k < |s| :: Increment(s)[k] == if k >= i then Successor(s[k]).0 else s[k]
    decreases |s|
  {
    if i < |s| - 1 {
      IncrementAt(s[..|s| - 1], i);
    }
  }

  lemma {:induction false} IncrementBase36(s: string)
    requires Base36(s)
    ensures Base36(Increment(s)) && |Increment(s)| == |s| && Numeral(36, s)
    decreases |s|
  {
    if s != "" {
      IncrementBase36(s[..|s| - 1]);
    }
  }

  lemma SuccessorValue(c: char)
    requires '0' <= c <= '9' || 'a' <= c <= 'z'
    ensures var (d, carry) := Successor(c);
            if carry then DigitOf(c) == 35 && DigitOf(d) == 0 else DigitOf(d) == DigitOf(c) + 1 < 36
  {
  }

  function OneMore(v: nat, range: nat): nat {
    if v + 1 == range then 0 else v + 1
  }

  lemma CarryOver(t: string, c: char)
    requires ('0' <= c <= '9' || 'a' <= c <= 'z') && Successor(c).1 && Value(36, t) < Pow(36, |t|)
    requires Value(36, Increment(t)) == OneMore(Value(36, t), Pow(36, |t|))
    ensures Value(36, Increment(t) + [Successor(c).0]) == OneMore(Value(36, t + [c]), 36 * Pow(36, |t|))
  {
    SuccessorValue(c);
    Snoc(36, Increment(t), Successor(c).0);
    Snoc(36, t, c);
  }

  lemma NoCarry(t: string, c: char)
    requires ('0' <= c <= '9' || 'a' <= c <= 'z') && !Successor(c).1 && Value(36, t) < Pow(36, |t|)
    ensures Value(36, t + [Successor(c).0]) == OneMore(Value(36, t + [c]), 36 * Pow(36, |t|))
  {
    SuccessorValue(c);
    Snoc(36, t, Successor(c).0);
    Snoc(36, t, c);
  }

  /** `addOneToHexStr` counts in base 36, modulo the range of the digits. */
  lemma {:induction false} IncrementAdds(s: string)
    requires Base36(s)
    ensures Value(36, s) < Pow(36, |s|)
    ensures Value(36, Increment(s)) == OneMore(Value(36, s), Pow(36, |s|))
    decreases |s|
  {
    IncrementBase36(s);
    Bounded(36, s);
    if s != "" {
      var t, c := s[..|s| - 1], s[|s| - 1];
      assert s == t + [c];
      IncrementBase36(t);
      Bounded(36, t);
      if Successor(c).1 {
        IncrementAdds(t);
        CarryOver(t, c);
      } else {
        NoCarry(t, c);
      }
    }
  }

  /** `addOneToHexStrInRange`; with `start` zero it is `addOneToHexStr`. */
  method AddOneToHexStrInRange(num: array<char>, start: nat, len: nat)
    requires start + len <= num.Length
    modifies num
    ensures num[start..start + len] == Increment(old(num[start..start + len]))
    ensures forall k | 0 <= k < num.Length && !(start <= k < start + len) :: num[k] == old(num[k])
  {
    var i := start + len - 1;
    ghost var s := num[start..start + len];
    while i >= start
      invariant start - 1 <= i < start + len
      invariant forall k | 0 <= k < num.Length :: num[k] == if i < k < start + len then Successor(old(num[k])).0 else old(num[k])
      invariant forall k | i - start < k < len :: Successor(s[k]).1
    {
      assert s[i - start] == num[i];
      var next := Successor(num[i]);
      num[i] := next.0;
      if !next.1 {
        break;
      }
      i := i - 1;
    }
    IncrementAt(s, i - start);
  }
}
