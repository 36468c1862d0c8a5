/** Escape sequences in string literals, and the UTF-8 they stand for. */
module Escapes {
  import opened DigitStrings

  datatype Outcome = Text(s: string) | Incomplete | Invalid | OutOfRange

  /** One step: how many characters are consumed for which output. */
  datatype Step = Produce(n: nat, out: string) | Fail(why: Outcome)

  // ------------------------------------------------------------------ UTF-8

  /** The bytes emitted for a value of `int`. */
  function Encode(value: int): Step {
    if value <= 0x7F then Produce(0, [(value % 256) as char])
    else if value <= 0x7FF then Produce(0, [(0xC0 + value / 64 % 32) as char, (0x80 + value % 64) as char])
    else if value <= 0xFFFF then Produce(0, [(0xE0 + value / 4096 % 16) as char, (0x80 + value / 64 % 64) as char, (0x80 + value % 64) as char])
    else if value <= 0x10FFFF then
      Produce(0, [(0xF0 + value / 0x40000 % 8) as char, (0x80 + value / 4096 % 64) as char, (0x80 + value / 64 % 64) as char, (0x80 + value % 64) as char])
    else Fail(OutOfRange)
  }

  // A decoder after section 4 of RFC 3629; -1 for what it refuses.

  predicate Tail(b: int) {
    0x80 <= b <= 0xBF
  }

  function Two(b0: int, b1: int): int {
    if 0xC2 <= b0 <= 0xDF && Tail(b1) then (b0 - 0xC0) * 64 + (b1 - 0x80) else -1
  }

  /** No overlong forms and no surrogates. */
  function Three(b0: int, b1: int, b2: int): int {
    if 0xE0 <= b0 <= 0xEF && Tail(b1) && Tail(b2) && (b0 == 0xE0 ==> b1 >= 0xA0) && (b0 == 0xED ==> b1 <= 0x9F)
    then (b0 - 0xE0) * 4096 + (b1 - 0x80) * 64 + (b2 - 0x80) else -1
  }

  function Four(b0: int, b1: int, b2: int, b3: int): int {
    if 0xF0 <= b0 <= 0xF4 && Tail(b1) && Tail(b2) && Tail(b3) && (b0 == 0xF0 ==> b1 >= 0x90) && (b0 == 0xF4 ==> b1 <= 0x8F)
    then (b0 - 0xF0) * 0x40000 + (b1 - 0x80) * 4096 + (b2 - 0x80) * 64 + (b3 - 0x80) else -1
  }

  function At(b: string, i: nat): int {
    if i < |b| then b[i] as int else -1
  }

  /** Code point and length of the character in front. */
  function DecodeFirst(b: string): (int, nat) {
    if 0 <= At(b, 0) <= 0x7F then (At(b, 0), 1)
    else if Two(At(b, 0), At(b, 1)) >= 0 then (Two(At(b, 0), At(b, 1)), 2)
    else if Three(At(b, 0), At(b, 1), At(b, 2)) >= 0 then (Three(At(b, 0), At(b, 1), At(b, 2)), 3)
    else (Four(At(b, 0), At(b, 1), At(b, 2), At(b, 3)), 4)
  }

  lemma TwoBytes(v: nat)
    requires 0x7F < v <= 0x7FF
    ensures 0xC2 <= 0xC0 + v / 64 % 32 && Two(0xC0 + v / 64 % 32, 0x80 + v % 64) == v
  {
    assert v == v / 64 * 64 + v % 64;
  }

  lemma ThreeBytes(v: nat)
    requires 0x7FF < v <= 0xFFFF
    ensures var b0, b1, b2 := 0xE0 + v / 4096 % 16, 0x80 + v / 64 % 64, 0x80 + v % 64;
            b0 > 0xDF && Three(b0, b1, b2) == if 0xD800 <= v <= 0xDFFF then -1 else v
  {
    var h, m, l := v / 4096, v / 64 % 64, v % 64;
    assert v / 64 == h * 64 + m by {
      assert v / 64 / 64 == h;
    }
    assert v == h * 4096 + m * 64 + l;
  }

  lemma FourBytes(v: nat)
    requires 0xFFFF < v <= 0x10FFFF
    ensures var b0, b1, b2, b3 := 0xF0 + v / 0x40000 % 8, 0x80 + v / 4096 % 64, 0x80 + v / 64 % 64, 0x80 + v % 64;
            b0 > 0xEF && Four(b0, b1, b2, b3) == v
  {
    var g, h, m, l := v / 0x40000, v / 4096 % 64, v / 64 % 64, v % 64;
    assert v / 64 / 64 == v / 4096 && v / 4096 / 64 == g;
    assert v == g * 0x40000 + h * 4096 + m * 64 + l;
  }

  /** What is emitted for a code point decodes to it again, if and only if it is no surrogate. */
  lemma EncodeDecodes(v: nat, more: string)
    requires v <= 0x10FFFF
    ensures var out := Encode(v).out;
            DecodeFirst(out + more) == (v, |out|) <==> !(0xD800 <= v <= 0xDFFF)
  {
    var out := Encode(v).out;
    assert forall i | 0 <= i < |out| :: At(out + more, i) == out[i] as int;
    if 0x7F < v <= 0x7FF {
      TwoBytes(v);
    } else if 0x7FF < v <= 0xFFFF {
      ThreeBytes(v);
    } else if 0xFFFF < v {
      FourBytes(v);
    }
  }

  // -------------------------------------------------------------- the escapes

  predicate IsHex(c: char) {
    DigitOf(c) < 16
  }

  predicate IsOctal(c: char) {
    '0' <= c <= '7'
  }

  /** Length of the run of digits in front of `s`, at most `max`. */
  function Run(s: string, octal: bool, max: nat): (n: nat)
    ensures n <= max && n <= |s| && forall j | 0 <= j < n :: IsHex(s[j])
  {
    if s != "" && max > 0 && (if octal then IsOctal(s[0]) else IsHex(s[0])) then Run(s[1..], octal, max - 1) + 1 else 0
  }

  function Simple(esc: char): char {
    match esc
    case 'a' => 7 as char
    case 'b' => 8 as char
    case 'f' => 12 as char
    case 'n' => '\n'
    case 'r' => '\r'
    case 't' => '\t'
    case 'v' => 11 as char
    case _ => esc
  }

  /** A 32-bit `int` with the given bits. */
  function Signed32(v: nat): int {
    var w := v % 0x1_0000_0000;
    if w >= 0x8000_0000 then w - 0x1_0000_0000 else w
  }

  function StepOf(src: string): Step
    requires src != ""
  {
    if src[0] != '\\' then Produce(1, [src[0]])
    else if |src| == 1 then Fail(Incomplete)
    else
      var esc, rest := src[1], src[2..];
      if esc == 'x' then
        var n := Run(rest, false, |rest|);
        if n == 0 then Fail(Invalid) else Produce(n + 2, [(Value(16, rest[..n]) % 256) as char])
      else if esc == 'u' || esc == 'U' then
        var max := if esc == 'u' then 4 else 8;
        var n := Run(rest, false, max);
        if n != max then Fail(Invalid)
        else
          var bytes := Encode(Signed32(Value(16, rest[..n])));
          if bytes.Fail? then bytes else Produce(n + 2, bytes.out)
      else if IsOctal(esc) then
        var n := Run(src[1..], true, 3);
        Produce(n + 1, [(Value(8, src[1..n + 1]) % 256) as char])
      else Produce(2, [Simple(esc)])
  }

  lemma StepSize(src: string)
    requires src != "" && StepOf(src).Produce?
    ensures 1 <= |StepOf(src).out| <= StepOf(src).n <= |src|
    ensures src[0] == '\\' ==> |StepOf(src).out| < StepOf(src).n
  {
  }

  function Prepend(s: string, o: Outcome): Outcome {
    match o
    case Text(t) => Text(s + t)
    case _ => o
  }

  /** The text that a literal stands for. */
  function Decode(src: string): Outcome
    decreases |src|
  {
    if src == "" then Text("")
    else
      var step := StepOf(src);
      if step.Fail? then step.why
      else
        StepSize(src);
        Prepend(step.out, Decode(src[step.n..]))
  }

  /** Escapes never make a text longer. */
  lemma {:induction false} NeverLonger(src: string)
    requires Decode(src).Text?
    ensures |Decode(src).s| <= |src|
    decreases |src|
  {
    if src != "" {
      StepSize(src);
      NeverLonger(src[StepOf(src).n..]);
    }
  }

  lemma {:induction false} RunAll(d: string, more: string)
    requires Numeral(16, d)
    ensures Run(d + more, false, |d|) == |d|
    decreases |d|
  {
    if d != "" {
      assert (d + more)[0] == d[0] && (d + more)[1..] == d[1..] + more;
      RunAll(d[1..], more);
    }
  }

  lemma DecodesCodePoints(b: string)
    ensures DecodeFirst(b).0 <= 0x10FFFF
  {
  }

  lemma UniversalStep(esc: char, d: string, more: string)
    requires ((esc == 'u' && |d| == 4) || (esc == 'U' && |d| == 8)) && Numeral(16, d)
    ensures var bytes := Encode(Signed32(Value(16, d)));
            StepOf(['\\', esc] + d + more) == if bytes.Fail? then bytes else Produce(|d| + 2, bytes.out)
  {
    var src := ['\\', esc] + d + more;
    assert src[2..] == d + more && (d + more)[..|d|] == d;
    RunAll(d, more);
    var max := if esc == 'u' then 4 else 8;
    assert Run(src[2..], false, max) == max && src[2..][..max] == d;
  }

  /**
   A `u` escape of four hexadecimal digits, or a `U` escape of eight, emits
   UTF-8 that decodes to its value, if and only if that is a code point and
   no surrogate.
   */
  lemma UniversalEscape(esc: char, d: string, more: string)
    requires ((esc == 'u' && |d| == 4) || (esc == 'U' && |d| == 8)) && Numeral(16, d)
    ensures var v, step := Value(16, d), StepOf(['\\', esc] + d + more);
            step.Produce? && step.n == |d| + 2 && DecodeFirst(step.out) == (v, |step.out|) <==> v <= 0x10FFFF && !(0xD800 <= v <= 0xDFFF)
  {
    UniversalStep(esc, d, more);
    SignedDecodes(Value(16, d));
  }

  lemma SignedDecodes(v: nat)
    ensures var bytes := Encode(Signed32(v));
            bytes.Produce? && DecodeFirst(bytes.out) == (v, |bytes.out|) <==> v <= 0x10FFFF && !(0xD800 <= v <= 0xDFFF)
  {
    var bytes := Encode(Signed32(v));
    if v <= 0x10FFFF {
      assert Signed32(v) == v;
      EncodeDecodes(v, "");
      assert bytes.out + "" == bytes.out;
    } else if bytes.Produce? {
      DecodesCodePoints(bytes.out);
    }
  }

  lemma ValueBound(d: string)
    requires Numeral(16, d) && (|d| == 4 || |d| == 8)
    ensures Value(16, d) < 0x1_0000_0000
  {
    Bounded(16, d);
    assert Pow(16, 4) == 0x1_0000;
    assert Pow(16, 8) == 0x1_0000_0000;
  }

  lemma RangeOf(v: nat)
    requires v < 0x1_0000_0000
    ensures var bytes := Encode(Signed32(v));
            && (bytes == Fail(OutOfRange) <==> 0x10FFFF < v < 0x8000_0000) && (bytes.Produce? <==> bytes != Fail(OutOfRange))
            && (v >= 0x8000_0000 ==> bytes == Produce(0, [(v % 256) as char]))
  {
    if v >= 0x8000_0000 {
      assert Signed32(v) == v - 0x1_0000_0000;
      assert (v - 0x1_0000_0000) % 256 == v % 256;
    } else {
      assert Signed32(v) == v;
    }
  }

  /** Values that are no code points are refused, if and only if they fit a 32-bit `int`. */
  lemma RangeChecked(esc: char, d: string, more: string)
    requires ((esc == 'u' && |d| == 4) || (esc == 'U' && |d| == 8)) && Numeral(16, d)
    ensures var v, step := Value(16, d), StepOf(['\\', esc] + d + more);
            (step == Fail(OutOfRange) <==> 0x10FFFF < v < 0x8000_0000) && (step.Produce? <==> step != Fail(OutOfRange))
  {
    ValueBound(d);
    UniversalStep(esc, d, more);
    RangeOf(Value(16, d));
  }

  /** The bytes are the UTF-8 of one character. */
  predicate OneCharacter(out: string) {
    DecodeFirst(out).0 >= 0 && DecodeFirst(out).1 == |out|
  }

  /** What an accepted escape emits is UTF-8, if and only if its value is no surrogate and not a negative `int` with a low byte above 0x7F. */
  lemma EmitsUtf8(esc: char, d: string, more: string)
    requires ((esc == 'u' && |d| == 4) || (esc == 'U' && |d| == 8)) && Numeral(16, d)
    requires StepOf(['\\', esc] + d + more).Produce?
    ensures var v, out := Value(16, d), StepOf(['\\', esc] + d + more).out;
            OneCharacter(out) <==> !(0xD800 <= v <= 0xDFFF) && !(v >= 0x8000_0000 && v % 256 > 0x7F)
  {
    ValueBound(d);
    UniversalStep(esc, d, more);
    SignedText(Value(16, d));
  }

  lemma SignedText(v: nat)
    requires v < 0x1_0000_0000 && Encode(Signed32(v)).Produce?
    ensures OneCharacter(Encode(Signed32(v)).out) <==> !(0xD800 <= v <= 0xDFFF) && !(v >= 0x8000_0000 && v % 256 > 0x7F)
  {
    RangeOf(v);
    if v < 0x8000_0000 {
      SignedSmall(v);
      CodePointText(v);
    } else {
      LoneByte(v % 256);
    }
  }

  lemma SignedSmall(v: nat)
    requires v < 0x8000_0000
    ensures Signed32(v) == v
  {
  }

  lemma CodePointText(v: nat)
    requires v <= 0x10FFFF
    ensures OneCharacter(Encode(v).out) <==> !(0xD800 <= v <= 0xDFFF)
  {
    EncodeDecodes(v, "");
    assert Encode(v).out + "" == Encode(v).out;
    if 0xD800 <= v <= 0xDFFF {
      ThreeBytes(v);
    }
  }

  lemma LoneByte(b: nat)
    requires b < 256
    ensures OneCharacter([b as char]) <==> b <= 0x7F
  {
  }

  lemma {:induction false} AllOnesValue(d: string)
    requires forall i | 0 <= i < |d| :: d[i] == 'F'
    ensures Value(16, d) == Pow(16, |d|) - 1
    decreases |d|
  {
    if d != "" {
      AllOnesValue(d[..|d| - 1]);
    }
  }

  /** `\UFFFFFFFF` is beyond all code points, yet accepted: one byte that is not UTF-8. */
  lemma NegativeEscape(d: string, more: string)
    requires d == "FFFFFFFF"
    ensures StepOf(['\\', 'U'] + d + more) == Produce(10, [255 as char]) && !OneCharacter([255 as char])
  {
    AllOnesValue(d);
    assert Pow(16, 4) == 0x1_0000;
    assert Pow(16, 8) == 0x1_0000_0000;
    UniversalStep('U', d, more);
    RangeOf(0xFFFF_FFFF);
    LoneByte(255);
  }

  /** `\uD800` is a surrogate: three bytes that are not UTF-8. */
  lemma SurrogateEscape(d: string, more: string)
    requires d == "D800"
    ensures var step := StepOf(['\\', 'u'] + d + more);
            step == Produce(6, [0xED as char, 0xA0 as char, 0x80 as char]) && !OneCharacter(step.out)
  {
    SurrogateBytes();
    Snoc(16, "D8", '0');
    Snoc(16, "D80", '0');
    assert "D8" + ['0'] == "D80" && "D80" + ['0'] == d;
    assert "D8"[..1] == "D" && "D"[..0] == "";
    UniversalStep('u', d, more);
    SignedSmall(0xD800);
  }

  lemma SurrogateBytes()
    ensures Encode(0xD800) == Produce(0, [0xED as char, 0xA0 as char, 0x80 as char]) && !OneCharacter(Encode(0xD800).out)
  {
    CodePointText(0xD800);
  }

  /** `unescapeString` */
  method UnescapeString(src: string) returns (r: Outcome)
    ensures r == Decode(src)
  {
    var result := "";
    var i := 0;
    while i < |src|
      invariant i <= |src| && Prepend(result, Decode(src[i..])) == Decode(src)
    {
      var c := src[i];
      StepAppends(result, src[i..]);
      ghost var i0 := i;
      if c != '\\' {
        result := result + [c];
        i := i + 1;
      } else {
        var step := ReadEscape(src, i);
        if step.Fail? {
          return step.why;
        }
        result := result + step.out;
        i := i + step.n;
      }
      assert src[i0..][i - i0..] == src[i..];
    }
    return Text(result);
  }

  /** The cases of the switch, for the escape that begins at `i`. */
  method ReadEscape(src: string, i: nat) returns (step: Step)
    requires i < |src| && src[i] == '\\'
    ensures step == StepOf(src[i..])
  {
    if i + 1 >= |src| {
      return Fail(Incomplete);
    }
    var esc := src[i + 1];
    assert src[i..][2..] == src[i + 2..] && src[i..][1..] == src[i + 1..];
    if esc == 'x' || esc == 'u' || esc == 'U' {
      var maxlen := if esc == 'x' then |src| else if esc == 'u' then 4 else 8;
      RunUnbounded(src[i + 2..], |src|);
      var value, digits := ReadDigits(src, i + 2, false, maxlen);
      if esc == 'x' {
        return if digits == 0 then Fail(Invalid) else Produce(digits + 2, [(value % 256) as char]);
      }
      if digits != maxlen {
        return Fail(Invalid);
      }
      var bytes := Encode(Signed32(value));
      return if bytes.Fail? then bytes else Produce(digits + 2, bytes.out);
    } else if IsOctal(esc) {
      var value, digits := ReadDigits(src, i + 1, true, 3);
      assert src[i..][1..digits + 1] == src[i + 1..][..digits];
      return Produce(digits + 1, [(value % 256) as char]);
    } else {
      return Produce(2, [Simple(esc)]);
    }
  }

  /** The run of digits from `i` on, and its value. */
  method ReadDigits(src: string, i: nat, octal: bool, max: nat) returns (value: nat, digits: nat)
    requires i <= |src|
    ensures digits == Run(src[i..], octal, max) && value == Value(if octal then 8 else 16, src[i..][..digits])
  {
    var base := if octal then 8 else 16;
    value, digits := 0, 0;
    ghost var s := src[i..];
    while digits < max && i + digits < |src| && (if octal then IsOctal(src[i + digits]) else IsHex(src[i + digits]))
      invariant digits <= max && digits <= |s| && value == Value(base, s[..digits])
      invariant digits + Run(s[digits..], octal, max - digits) == Run(s, octal, max)
    {
      Prefix(base, s, digits);
      assert s[digits..][1..] == s[digits + 1..];
      value := value * base + DigitOf(src[i + digits]);
      digits := digits + 1;
    }
  }

  lemma {:induction false} RunUnbounded(s: string, max: nat)
    requires max >= |s|
    ensures Run(s, false, max) == Run(s, false, |s|)
    decreases |s|
  {
    if s != "" {
      RunUnbounded(s[1..], max - 1);
    }
  }

  lemma StepAppends(result: string, src: string)
    requires src != ""
    ensures var step := StepOf(src);
            if step.Fail? then Prepend(result, Decode(src)) == Prepend(result, step.why)
            else step.n <= |src| && Prepend(result, Decode(src)) == Prepend(result + step.out, Decode(src[step.n..]))
  {
    if StepOf(src).Produce? {
      StepSize(src);
      var d := Decode(src[StepOf(src).n..]);
      assert d.Text? ==> result + (StepOf(src).out + d.s) == result + StepOf(src).out + d.s;
    }
  }

  // --------------------------------------------------------------- round trip

  /** `ReplaceEscapeSymbols` */
  method ReplaceEscapeSymbols(s: string) returns (out: string)
    ensures out == Escaped(s)
  {
    out := "";
    for i := 0 to |s|
      invariant out + Escaped(s[i..]) == Escaped(s)
    {
      assert s[i..][1..] == s[i + 1..];
      if s[i] == '\n' {
        out := out + "\\n";
      } else {
        out := out + [s[i]];
      }
    }
  }

  function Escaped(s: string): string {
    if s == "" then "" else (if s[0] == '\n' then "\\n" else [s[0]]) + Escaped(s[1..])
  }

  lemma StepPlain(c: char, more: string)
    requires c != '\\'
    ensures Decode([c] + more) == Prepend([c], Decode(more))
  {
    assert ([c] + more)[1..] == more;
  }

  lemma StepNewline(more: string)
    ensures Decode("\\n" + more) == Prepend("\n", Decode(more))
  {
    var src := "\\n" + more;
    assert src[0] == '\\' && src[1] == 'n' && src[2..] == more;
  }

  /** Characters in the middle that are neither a newline nor a backslash are left as they are. */
  lemma {:induction false} EscapedPrefix(t: string, m: nat)
    requires m <= |Escaped(t)| && forall j | 0 <= j < m :: Escaped(t)[j] != '\\'
    ensures m <= |t| && Escaped(t)[m..] == Escaped(t[m..])
    decreases |t|
  {
    if t != "" && m > 0 {
      assert Escaped(t)[0] == if t[0] == '\n' then '\\' else t[0];
      var e := Escaped(t[1..]);
      assert Escaped(t) == [t[0]] + e && forall j | 0 <= j < m - 1 :: e[j] == Escaped(t)[j + 1];
      EscapedPrefix(t[1..], m - 1);
      assert Escaped(t)[m..] == e[m - 1..] && t[m..] == t[1..][m - 1..];
    }
  }

  /** An escape consumes a backslash, the character after it and perhaps digits. */
  lemma StepConsumes(src: string)
    requires src != "" && src[0] == '\\' && StepOf(src).Produce?
    ensures 2 <= StepOf(src).n <= |src| && |StepOf(src).out| < StepOf(src).n
    ensures forall j | 2 <= j < StepOf(src).n :: src[j] != '\\'
    ensures src[1] == '\\' ==> StepOf(src).n == 2 && StepOf(src).out == "\\"
  {
    StepSize(src);
    if IsOctal(src[1]) {
      assert forall j | 2 <= j < StepOf(src).n :: src[j] == src[1..][j - 1];
    } else {
      assert forall j | 2 <= j < StepOf(src).n :: src[j] == src[2..][j - 2];
    }
  }

  lemma DropTwo(a: char, b: char, e: string, n: nat)
    requires 2 <= n <= |e| + 2
    ensures ([a, b] + e)[n..] == e[n - 2..]
    ensures forall j | 0 <= j < n - 2 :: e[j] == ([a, b] + e)[j + 2]
  {
  }

  lemma DropOne(t: string, n: nat)
    requires 1 <= n <= |t|
    ensures t[1..][n - 1..] == t[n..]
  {
  }

  lemma LeavesAfter(c: char, t: string, n: nat)
    requires var src := ['\\', c] + Escaped(t); 2 <= n <= |src| && forall j | 2 <= j < n :: src[j] != '\\'
    ensures n - 2 <= |t| && (['\\', c] + Escaped(t))[n..] == Escaped(t[n - 2..])
  {
    DropTwo('\\', c, Escaped(t), n);
    EscapedPrefix(t, n - 2);
  }

  lemma EscapedHead(t: string)
    requires t != ""
    ensures ['\\'] + Escaped(t) == if t[0] == '\n' then ['\\', '\\'] + (['n'] + Escaped(t[1..])) else ['\\', t[0]] + Escaped(t[1..])
  {
  }

  /** What an escape leaves over of an escaped text. */
  lemma EscapeLeaves(t: string)
    requires t != "" && StepOf(['\\'] + Escaped(t)).Produce?
    ensures var src := ['\\'] + Escaped(t);
            var n := StepOf(src).n;
            && 2 <= n <= |src| && |StepOf(src).out| < n
            && if t[0] == '\n' then StepOf(src).out == "\\" && src[n..] == ['n'] + Escaped(t[1..])
               else n - 1 <= |t| && src[n..] == Escaped(t[n - 1..])
  {
    var src := ['\\'] + Escaped(t);
    var n := StepOf(src).n;
    StepConsumes(src);
    EscapedHead(t);
    if t[0] == '\n' {
      DropTwo('\\', '\\', ['n'] + Escaped(t[1..]), 2);
    } else {
      LeavesAfter(t[0], t[1..], n);
      DropOne(t, n - 1);
    }
  }

  /** Escaping and unescaping never makes a text longer. */
  lemma {:induction false} RoundTripNeverLonger(s: string)
    requires Decode(Escaped(s)).Text?
    ensures |Decode(Escaped(s)).s| <= |s|
    decreases |s|
  {
    if s != "" {
      var t := s[1..];
      if s[0] == '\n' {
        StepNewline(Escaped(t));
        RoundTripNeverLonger(t);
      } else if s[0] != '\\' {
        StepPlain(s[0], Escaped(t));
        RoundTripNeverLonger(t);
      } else {
        var src := ['\\'] + Escaped(t);
        assert Escaped(s) == src;
        if t != "" {
          EscapeLeaves(t);
          if t[0] == '\n' {
            StepPlain('n', Escaped(t[1..]));
            RoundTripNeverLonger(t[1..]);
          } else {
            RoundTripNeverLonger(t[StepOf(src).n - 1..]);
          }
        }
      }
    }
  }

  /** A backslash in front is lost. */
  lemma BackslashLost(t: string)
    ensures Decode(Escaped(['\\'] + t)) != Text(['\\'] + t)
  {
    var src := ['\\'] + Escaped(t);
    assert (['\\'] + t)[1..] == t && Escaped(['\\'] + t) == src;
    if t != "" && Decode(src).Text? {
      EscapeLeaves(t);
      var rest := src[StepOf(src).n..];
      if t[0] == '\n' {
        StepPlain('n', Escaped(t[1..]));
        assert Decode(src).s[1] == 'n';
        assert (['\\'] + t)[1] == '\n';
      } else {
        RoundTripNeverLonger(t[StepOf(src).n - 1..]);
      }
    }
  }

  /** Unescaping gives back an escaped text if and only if it contains no backslash. */
  lemma {:induction false} EscapeRoundTrip(s: string)
    ensures Decode(Escaped(s)) == Text(s) <==> '\\' !in s
    decreases |s|
  {
    if s != "" {
      var t := s[1..];
      assert s == [s[0]] + t;
      if s[0] == '\\' {
        BackslashLost(t);
      } else {
        EscapeRoundTrip(t);
        if s[0] == '\n' {
          StepNewline(Escaped(t));
        } else {
          StepPlain(s[0], Escaped(t));
        }
        SameAfter(s[0], t, Decode(Escaped(t)));
      }
    }
  }

  lemma SameAfter(c: char, t: string, o: Outcome)
    ensures Prepend([c], o) == Text([c] + t) <==> o == Text(t)
  {
    if o.Text? && [c] + o.s == [c] + t {
      assert ([c] + o.s)[1..] == o.s && ([c] + t)[1..] == t;
    }
  }
}
