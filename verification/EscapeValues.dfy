/** What every escape sequence stands for, with character codes written as numbers. */
module EscapeValues {
  import opened DigitStrings
  import opened Escapes

  predicate Hex(c: char) {
    '0' <= c <= '9' || 'a' <= c <= 'f' || 'A' <= c <= 'F'
  }

  /** Digits by their codes. */
  lemma DigitValues(c: char)
    ensures IsHex(c) <==> Hex(c)
    ensures '0' <= c <= '9' ==> DigitOf(c) == c as int - 48
    ensures 'a' <= c <= 'f' ==> DigitOf(c) == c as int - 97 + 10
    ensures 'A' <= c <= 'F' ==> DigitOf(c) == c as int - 65 + 10
    ensures IsOctal(c) <==> 48 <= c as int <= 55
  {
  }

  /** `esc` is followed by digits. */
  predicate Numeric(esc: char) {
    esc == 'x' || esc == 'u' || esc == 'U' || '0' <= esc <= '7'
  }

  lemma OneEscape(esc: char, more: string)
    requires !Numeric(esc)
    ensures Decode(['\\', esc] + more) == Prepend([Simple(esc)], Decode(more))
  {
    var src := ['\\', esc] + more;
    assert src[0] == '\\' && src[1] == esc && src[2..] == more;
  }

  /** The letters that stand for control characters, with their codes. */
  predicate Control(esc: char, code: int) {
    || (esc == 'a' && code == 7) || (esc == 'b' && code == 8) || (esc == 't' && code == 9) || (esc == 'n' && code == 10)
    || (esc == 'v' && code == 11) || (esc == 'f' && code == 12) || (esc == 'r' && code == 13)
  }

  lemma ControlEscapes(esc: char, code: int, more: string)
    requires Control(esc, code)
    ensures Decode(['\\', esc] + more) == Prepend([code as char], Decode(more))
  {
    OneEscape(esc, more);
  }

  /** Quotes, the backslash, the question mark and every other character stand for themselves. */
  lemma LiteralEscapes(esc: char, more: string)
    requires !Numeric(esc) && esc !in "abfnrtv"
    ensures Decode(['\\', esc] + more) == Prepend([esc], Decode(more))
  {
    OneEscape(esc, more);
    var controls := "abfnrtv";
    assert controls[0] == 'a' && controls[1] == 'b' && controls[2] == 'f' && controls[3] == 'n';
    assert controls[4] == 'r' && controls[5] == 't' && controls[6] == 'v';
  }

  /** A backslash at the end is refused; other characters stand for themselves. */
  lemma NoEscape(c: char, more: string)
    ensures Decode("\\") == Incomplete && Decode("") == Text("")
    ensures c != '\\' ==> Decode([c] + more) == Prepend([c], Decode(more))
  {
    if c != '\\' {
      StepPlain(c, more);
    }
  }

  /** Digits of a kind, and nothing of the kind after them unless there are as many as may be. */
  predicate Maximal(d: string, more: string, octal: bool, max: nat) {
    && |d| <= max
    && (forall i | 0 <= i < |d| :: if octal then IsOctal(d[i]) else IsHex(d[i]))
    && (|d| == max || more == "" || !(if octal then IsOctal(more[0]) else IsHex(more[0])))
  }

  lemma {:induction false} RunOf(d: string, more: string, octal: bool, max: nat)
    requires Maximal(d, more, octal, max)
    ensures Run(d + more, octal, max) == |d|
    decreases |d|
  {
    if d == "" {
      assert d + more == more;
    } else {
      assert (d + more)[0] == d[0] && (d + more)[1..] == d[1..] + more;
      RunOf(d[1..], more, octal, max - 1);
    }
  }

  /** `\x` and all the hexadecimal digits after it: one byte, the number modulo 256; none is refused. */
  lemma HexEscape(d: string, more: string)
    requires (forall i | 0 <= i < |d| :: Hex(d[i])) && (more == "" || !Hex(more[0]))
    ensures Decode("\\x" + d + more) == if d == "" then Invalid else Prepend([(Value(16, d) % 256) as char], Decode(more))
  {
    var src := "\\x" + d + more;
    var rest := src[2..];
    assert src[0] == '\\' && src[1] == 'x' && rest == d + more;
    forall c: char
      ensures IsHex(c) <==> Hex(c)
    {
      DigitValues(c);
    }
    assert Maximal(d, more, false, |rest|);
    RunOf(d, more, false, |rest|);
    assert rest[..|d|] == d && src[|d| + 2..] == more;
  }

  lemma OctalStep(src: string, n: nat)
    requires |src| >= 2 && src[0] == '\\' && IsOctal(src[1]) && Run(src[1..], true, 3) == n
    ensures StepOf(src) == Produce(n + 1, [(Value(8, src[1..n + 1]) % 256) as char])
  {
  }

  lemma DecodeStep(src: string, n: nat, out: string)
    requires src != "" && StepOf(src) == Produce(n, out)
    ensures n <= |src| && Decode(src) == Prepend(out, Decode(src[n..]))
  {
    StepSize(src);
  }

  /** One to three octal digits, as many as there are: one byte. */
  lemma OctalEscape(d: string, more: string)
    requires 1 <= |d| <= 3 && (forall i | 0 <= i < |d| :: '0' <= d[i] <= '7')
    requires |d| == 3 || more == "" || !('0' <= more[0] <= '7')
    ensures Decode(['\\'] + d + more) == Prepend([(Value(8, d) % 256) as char], Decode(more))
  {
    var src := ['\\'] + d + more;
    assert src[1..] == d + more && src[1] == d[0];
    RunOf(d, more, true, 3);
    OctalStep(src, |d|);
    assert src[1..|d| + 1] == d && src[|d| + 1..] == more;
    DecodeStep(src, |d| + 1, [(Value(8, d) % 256) as char]);
  }

  /** A value is read from left to right. */
  lemma DigitByDigit(base: nat, d: string, c: char)
    ensures Value(base, "") == 0 && Value(base, d + [c]) == Value(base, d) * base + DigitOf(c)
  {
    Snoc(base, d, c);
  }

  lemma ShortStep(src: string, max: nat)
    requires |src| >= 2 && src[0] == '\\' && ((src[1] == 'u' && max == 4) || (src[1] == 'U' && max == 8))
    requires Run(src[2..], false, max) < max
    ensures Decode(src) == Invalid
  {
  }

  /** `\u` needs four hexadecimal digits, `\U` eight; with fewer it is refused. */
  lemma ShortEscape(esc: char, d: string, more: string)
    requires (esc == 'u' && |d| < 4) || (esc == 'U' && |d| < 8)
    requires (forall i | 0 <= i < |d| :: Hex(d[i])) && (more == "" || !Hex(more[0]))
    ensures Decode(['\\', esc] + d + more) == Invalid
  {
    var src := ['\\', esc] + d + more;
    var max := if esc == 'u' then 4 else 8;
    assert src[2..] == d + more;
    HexRun(d, more, max);
    ShortStep(src, max);
  }

  lemma HexRun(d: string, more: string, max: nat)
    requires |d| < max && (forall i | 0 <= i < |d| :: Hex(d[i])) && (more == "" || !Hex(more[0]))
    ensures Run(d + more, false, max) == |d|
  {
    forall c: char
      ensures IsHex(c) <==> Hex(c)
    {
      DigitValues(c);
    }
    RunOf(d, more, false, max);
  }

  /** A complete one gives the bytes of its value, and the rest follows. */
  lemma UniversalDecodes(esc: char, d: string, more: string)
    requires ((esc == 'u' && |d| == 4) || (esc == 'U' && |d| == 8)) && forall i | 0 <= i < |d| :: Hex(d[i])
    ensures var bytes := Encode(Signed32(Value(16, d)));
            Decode(['\\', esc] + d + more) == if bytes.Fail? then OutOfRange else Prepend(bytes.out, Decode(more))
  {
    forall i | 0 <= i < |d|
      ensures DigitOf(d[i]) < 16
    {
      DigitValues(d[i]);
    }
    var src := ['\\', esc] + d + more;
    UniversalStep(esc, d, more);
    assert src[|d| + 2..] == more;
    BytesOrRange(Signed32(Value(16, d)));
  }

  lemma BytesOrRange(v: int)
    ensures Encode(v).Fail? ==> Encode(v) == Fail(OutOfRange)
  {
  }

  // -------------------------------------------------- the decoder, from its side

  /** What the strict decoder accepts is what is emitted for its value: no overlong form, no surrogate, nothing beyond the last code point. */
  lemma DecodedIsEncoded(b: string)
    requires DecodeFirst(b).0 >= 0
    ensures var (v, n) := DecodeFirst(b);
            v <= 0x10FFFF && !(0xD800 <= v <= 0xDFFF) && n <= |b| && Encode(v).out == b[..n]
  {
    var b0, b1, b2, b3 := At(b, 0), At(b, 1), At(b, 2), At(b, 3);
    if 0 <= b0 <= 0x7F {
    } else if Two(b0, b1) >= 0 {
      TwoDecoded(b0, b1);
    } else if Three(b0, b1, b2) >= 0 {
      ThreeDecoded(b0, b1, b2);
    } else {
      FourDecoded(b0, b1, b2, b3);
    }
  }

  lemma TwoDecoded(b0: int, b1: int)
    requires Two(b0, b1) >= 0
    ensures var v := Two(b0, b1); 0x7F < v <= 0x7FF && b0 == 0xC0 + v / 64 % 32 && b1 == 0x80 + v % 64
  {
  }

  lemma Split(v: int, h: int, l: int)
    requires v == h * 64 + l && 0 <= l < 64
    ensures v / 64 == h && v % 64 == l
  {
  }

  lemma ThreeDecoded(b0: int, b1: int, b2: int)
    requires Three(b0, b1, b2) >= 0
    ensures var v := Three(b0, b1, b2);
            && 0x7FF < v <= 0xFFFF && !(0xD800 <= v <= 0xDFFF)
            && b0 == 0xE0 + v / 4096 % 16 && b1 == 0x80 + v / 64 % 64 && b2 == 0x80 + v % 64
  {
    var v, h, m, l := Three(b0, b1, b2), b0 - 0xE0, b1 - 0x80, b2 - 0x80;
    Split(v, h * 64 + m, l);
    Split(h * 64 + m, h, m);
    assert v / 64 / 64 == v / 4096;
  }

  lemma FourDecoded(b0: int, b1: int, b2: int, b3: int)
    requires Four(b0, b1, b2, b3) >= 0
    ensures var v := Four(b0, b1, b2, b3);
            && 0xFFFF < v <= 0x10FFFF
            && b0 == 0xF0 + v / 0x40000 % 8 && b1 == 0x80 + v / 4096 % 64 && b2 == 0x80 + v / 64 % 64 && b3 == 0x80 + v % 64
  {
    var v, g, h, m, l := Four(b0, b1, b2, b3), b0 - 0xF0, b1 - 0x80, b2 - 0x80, b3 - 0x80;
    Split(v, (g * 64 + h) * 64 + m, l);
    Split((g * 64 + h) * 64 + m, g * 64 + h, m);
    Split(g * 64 + h, g, h);
    assert v / 64 / 64 == v / 4096 && v / 4096 / 64 == v / 0x40000;
  }
}
