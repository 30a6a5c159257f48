/** Number conversion and formatted output (output.c). */
module Output {
  import opened Types

  const ZERO: u8 := 0x30
  const PERCENT: u8 := 0x25

  // ----- numerals -----

  function Digit(d: nat): u8
    requires d < 36
  {
    if d < 10 then 0x30 + d else 0x41 + (d - 10)
  }

  function DigitValue(c: u8): int {
    if c < 0x41 then c - 0x30 else c - 0x41 + 10
  }

  predicate Base(b: int) {
    2 <= b <= 36
  }

  /** The digits of a number, the most significant first, and none for 0. */
  function Digits(v: nat, b: nat): (r: seq<u8>)
    requires Base(b)
    ensures forall i | 0 <= i < |r| :: r[i] != 0
  {
    if v == 0 then [] else Digits(v / b, b) + [Digit(v % b)]
  }

  /** What itoa writes, before the NUL. */
  function Numeral(v: nat, b: nat): (r: seq<u8>)
    requires Base(b)
    ensures r != [] && forall i | 0 <= i < |r| :: r[i] != 0
  {
    if v == 0 then [ZERO] else Digits(v, b)
  }

  function Parse(s: seq<u8>, b: nat): int {
    if s == [] then 0 else Parse(s[..|s| - 1], b) * b + DigitValue(s[|s| - 1])
  }

  function Power(b: nat, k: nat): nat {
    if k == 0 then 1 else b * Power(b, k - 1)
  }

  lemma {:induction false} ParseDigits(v: nat, b: nat)
    requires Base(b)
    ensures Parse(Digits(v, b), b) == v
    ensures v > 0 ==> Digits(v, b)[0] != ZERO
  {
    if v > 0 {
      ParseDigits(v / b, b);
      var s := Digits(v, b);
      assert s[..|s| - 1] == Digits(v / b, b);
      DivMod(v, b);
    }
  }

  lemma DivMod(v: nat, b: nat)
    requires b > 0
    ensures v == v / b * b + v % b && 0 <= v % b < b && v / b >= 0 && (v / b == 0 ==> v % b == v)
  {
  }

  /** Parsing gives the number back, and there are no leading zeros. */
  lemma RoundTrip(v: u32, b: nat)
    requires Base(b)
    ensures Parse(Numeral(v, b), b) == v
    ensures Numeral(v, b)[0] == ZERO <==> v == 0
  {
    ParseDigits(v, b);
    if v == 0 {
      assert [ZERO][..0] == [];
    }
  }

  lemma {:induction false} DigitsWithin(v: nat, b: nat, k: nat)
    requires Base(b)
    ensures |Digits(v, b)| <= k <==> v < Power(b, k)
  {
    if v > 0 && k > 0 {
      DigitsWithin(v / b, b, k - 1);
      DivMod(v, b);
      Quotient(v, b, Power(b, k - 1));
    } else if k > 0 {
      PowerPositive(b, k);
    }
  }

  lemma {:induction false} PowerPositive(b: nat, k: nat)
    requires b > 0
    ensures Power(b, k) > 0
  {
    if k > 0 {
      PowerPositive(b, k - 1);
    }
  }

  lemma Quotient(v: nat, b: nat, p: nat)
    requires b > 0
    ensures v / b < p <==> v < b * p
  {
    DivMod(v, b);
    if v / b < p {
      MulLess(v / b, p, b);
    } else {
      MulLess(p, v / b, b);
    }
  }

  lemma MulLess(x: nat, y: nat, b: nat)
    requires x <= y
    ensures b * x <= b * y && (x < y ==> b * x + b <= b * y)
  {
    assert b * y == b * x + b * (y - x);
    if x < y {
      MulAtLeast(y - x, b + 1);
      assert b * (y - x) == b + b * (y - x - 1);
      assert b * (y - x - 1) >= 0;
    }
  }

  /** A numeral has at most `k` digits exactly when the number is below the `k`th power. */
  lemma LengthBound(v: u32, b: nat, k: nat)
    requires Base(b) && k >= 1
    ensures |Numeral(v, b)| <= k <==> v < Power(b, k)
  {
    DigitsWithin(v, b, k);
    if v == 0 {
      PowerPositive(b, k);
    }
  }

  function Reversed(s: seq<u8>): (r: seq<u8>)
    ensures |r| == |s| && forall i | 0 <= i < |s| :: r[i] == s[|s| - 1 - i]
  {
    seq(|s|, i requires 0 <= i < |s| => s[|s| - 1 - i])
  }

  // ----- itoa -----

  method ReverseInPlace(buf: array<u8>, len: nat)
    requires len <= buf.Length
    modifies buf
    ensures buf[..len] == Reversed(old(buf[..len]))
    ensures forall i | len <= i < buf.Length :: buf[i] == old(buf[i])
  {
    for i := 0 to len / 2
      invariant forall k | 0 <= k < i :: buf[k] == old(buf[len - 1 - k]) && buf[len - 1 - k] == old(buf[k])
      invariant forall k | i <= k < len - i :: buf[k] == old(buf[k])
      invariant forall k | len <= k < buf.Length :: buf[k] == old(buf[k])
    {
      var tmp := buf[i];
      buf[i] := buf[len - i - 1];
      buf[len - i - 1] := tmp;
    }
  }

  /** The least significant digit moves from the number to the buffer. */
  lemma MoveDigit(v: nat, b: nat, s: seq<u8>)
    requires Base(b) && v > 0
    ensures Digits(v, b) + Reversed(s) == Digits(v / b, b) + Reversed(s + [Digit(v % b)])
  {
    assert Reversed(s + [Digit(v % b)]) == [Digit(v % b)] + Reversed(s);
  }

  lemma Smaller(v: nat, b: nat)
    requires v > 0 && b > 1
    ensures v / b < v
  {
    DivMod(v, b);
    MulLess(2, b, v / b);
  }

  /** The digits of a number, the least significant first. */
  method FillDigits(value: u32, buf: array<u8>, base: nat) returns (len: nat)
    requires Base(base) && |Digits(value, base)| < buf.Length
    modifies buf
    ensures len == |Digits(value, base)| && Reversed(buf[..len]) == Digits(value, base)
  {
    var v: nat := value;
    len := 0;
    while v != 0
      invariant len <= buf.Length && Digits(v, base) + Reversed(buf[..len]) == Digits(value, base)
      decreases v
    {
      var d := v % base;
      DivMod(v, base);
      Smaller(v, base);
      MoveDigit(v, base, buf[..len]);
      assert len < |Digits(value, base)|;
      ghost var before := buf[..len];
      buf[len] := if d < 10 then 0x30 + d else 0x41 + (d - 10);
      assert buf[..len + 1] == before + [Digit(d)];
      v := v / base;
      len := len + 1;
    }
  }

  method Itoa(value: u32, buf: array<u8>, base: nat)
    requires Base(base) && |Numeral(value, base)| < buf.Length
    modifies buf
    ensures buf[..|Numeral(value, base)|] == Numeral(value, base) && buf[|Numeral(value, base)|] == 0
  {
    var len := FillDigits(value, buf, base);
    if len == 0 {
      buf[0], buf[1] := ZERO, 0;
    } else {
      ReverseInPlace(buf, len);
    }
    if len == 0 {
      buf[len] := ZERO;
      len := len + 1;
    }
    buf[len] := 0;
  }

  // ----- printf -----

  datatype Arg = Number(value: u32) | Text(bytes: seq<u8>)

  const CONVERSION_BUFFER: nat := 10

  function BaseOf(c: u8): nat {
    if c in [0x75, 0x64, 0x69] then 10 else if c in [0x78, 0x58] then 16 else 0
  }

  /** What a format prints, if it is well-formed: there is a conversion after each percent sign,
      with an argument of its kind whose numeral fits the conversion buffer.  An unknown conversion,
      and %% is one, takes an argument and prints nothing. */
  function Render(format: seq<u8>, args: seq<Arg>): Option<seq<u8>> {
    if format == [] then Some([])
    else if format[0] != PERCENT then Prepend([format[0]], Render(format[1..], args))
    else if |format| < 2 || args == [] then None
    else
      match Converted(format[1], args[0])
      case None => None
      case Some(s) => Prepend(s, Render(format[2..], args[1..]))
  }

  function Converted(c: u8, arg: Arg): Option<seq<u8>> {
    var b := BaseOf(c);
    if b != 0 then
      if arg.Number? && |Numeral(arg.value, b)| < CONVERSION_BUFFER then Some(Numeral(arg.value, b)) else None
    else if c == 0x73 then
      if arg.Text? && 0 !in arg.bytes then Some(arg.bytes) else None
    else Some([])
  }

  function Prepend(s: seq<u8>, r: Option<seq<u8>>): Option<seq<u8>> {
    match r
    case None => None
    case Some(t) => Some(s + t)
  }

  /** Which numbers fit: every number in hexadecimal, and those below 10^9 in decimal. */
  lemma FitsBuffer(v: u32)
    ensures |Numeral(v, 16)| < CONVERSION_BUFFER
    ensures |Numeral(v, 10)| < CONVERSION_BUFFER <==> v < 1_000_000_000
  {
    LengthBound(v, 16, 9);
    LengthBound(v, 10, 9);
    assert Power(16, 3) == 4096 && Power(10, 3) == 1000;
    assert Power(16, 6) == 0x100_0000 && Power(10, 6) == 1_000_000;
    assert Power(16, 9) == 0x10_0000_0000 && Power(10, 9) == 1_000_000_000;
  }

  // ----- what a format comes to -----

  /** Text without a percent sign comes out as it is, whatever the arguments. */
  lemma {:induction false} PlainFormat(format: seq<u8>, args: seq<Arg>)
    requires 0x25 !in format
    ensures Render(format, args) == Some(format)
  {
    if format != [] {
      PlainFormat(format[1..], args);
      assert [format[0]] + format[1..] == format;
    }
  }

  /** A conversion by itself. */
  lemma OneConversion(c: u8, arg: Arg)
    ensures Render([0x25, c], [arg]) == Converted(c, arg)
  {
    var f := [0x25, c];
    assert f[2..] == [] && [arg][1..] == [];
    assert Render(f[2..], [arg][1..]) == Some([]);
    if Converted(c, arg).Some? {
      assert Converted(c, arg).value + [] == Converted(c, arg).value;
    }
  }

  /** A numeral in figures of the base: it stands for the number, and zero alone starts with 0. */
  ghost predicate Writes(s: seq<u8>, v: u32, b: nat) {
    && s != [] && Parse(s, b) == v && (s[0] == 0x30 <==> v == 0) && (v == 0 ==> s == [0x30])
    && forall i | 0 <= i < |s| :: IsFigure(s[i], b)
  }

  /** 0 to 9 and, from ten on, A to Z. */
  predicate IsFigure(c: u8, b: nat) {
    0x30 <= c < 0x30 + (if b < 10 then b else 10) || 0x41 <= c < 0x41 + b - 10
  }

  lemma {:induction false} DigitsAreFigures(v: nat, b: nat)
    requires Base(b)
    ensures forall i | 0 <= i < |Digits(v, b)| :: IsFigure(Digits(v, b)[i], b)
  {
    if v > 0 {
      DigitsAreFigures(v / b, b);
      DivMod(v, b);
      assert IsFigure(Digit(v % b), b);
    }
  }

  lemma NumeralWrites(v: u32, b: nat)
    requires Base(b)
    ensures Writes(Numeral(v, b), v, b)
  {
    RoundTrip(v, b);
    DigitsAreFigures(v, b);
  }

  /** There is one such numeral only. */
  lemma {:induction false} OneNumeral(s: seq<u8>, v: nat, b: nat)
    requires Base(b) && (v > 0 ==> s != [] && s[0] != 0x30) && Parse(s, b) == v
    requires v == 0 ==> s == []
    requires forall i | 0 <= i < |s| :: IsFigure(s[i], b)
    ensures s == Digits(v, b)
    decreases |s|
  {
    if s != [] {
      var front, last := s[..|s| - 1], s[|s| - 1];
      FrontParses(front, b);
      MulMod(v, Parse(front, b), b, DigitValue(last));
      assert Digit(DigitValue(last)) == last;
      if front == [] {
        assert Parse(front, b) == 0;
      } else {
        LeadingFigure(front, b);
      }
      OneNumeral(front, Parse(front, b), b);
    }
  }

  lemma {:induction false} FrontParses(s: seq<u8>, b: nat)
    requires Base(b) && forall i | 0 <= i < |s| :: IsFigure(s[i], b)
    ensures Parse(s, b) >= 0
  {
    if s != [] {
      FrontParses(s[..|s| - 1], b);
      assert Parse(s[..|s| - 1], b) * b >= 0;
    }
  }

  lemma {:induction false} LeadingFigure(s: seq<u8>, b: nat)
    requires Base(b) && s != [] && s[0] != 0x30 && forall i | 0 <= i < |s| :: IsFigure(s[i], b)
    ensures Parse(s, b) > 0
  {
    if |s| > 1 {
      LeadingFigure(s[..|s| - 1], b);
      MulAtLeast(Parse(s[..|s| - 1], b), b);
    } else {
      assert Parse(s[..0], b) == 0;
    }
  }

  /** %u, %d and %i print a number in decimal, and are well-formed for those below 10^9 exactly. */
  lemma PrintsDecimal(c: u8, v: u32)
    requires c in {0x75, 0x64, 0x69}
    ensures var r := Render([0x25, c], [Number(v)]);
      if v < 1_000_000_000 then r.Some? && Writes(r.value, v, 10) else r == None
  {
    OneConversion(c, Number(v));
    FitsBuffer(v);
    NumeralWrites(v, 10);
  }

  /** %x and %X print any number in hexadecimal. */
  lemma PrintsHexadecimal(c: u8, v: u32)
    requires c in {0x78, 0x58}
    ensures var r := Render([0x25, c], [Number(v)]);
      r.Some? && Writes(r.value, v, 16)
  {
    OneConversion(c, Number(v));
    FitsBuffer(v);
    NumeralWrites(v, 16);
  }

  /** %s prints its text. */
  lemma PrintsText(text: seq<u8>)
    requires 0 !in text
    ensures Render([0x25, 0x73], [Text(text)]) == Some(text)
  {
    OneConversion(0x73, Text(text));
  }

  /** Any other conversion prints nothing, but takes its argument. */
  lemma PrintsNothing(c: u8, arg: Arg)
    requires c !in {0x75, 0x64, 0x69, 0x78, 0x58, 0x73}
    ensures Render([0x25, c], [arg]) == Some([]) && Render([0x25, c], []) == None
  {
    OneConversion(c, arg);
  }

  /** How many arguments a format takes. */
  function Takes(format: seq<u8>): nat {
    if |format| < 2 then 0 else if format[0] != PERCENT then Takes(format[1..]) else 1 + Takes(format[2..])
  }

  /** No fewer will do, and more do no harm. */
  lemma {:induction false} TakesExactly(format: seq<u8>, args: seq<Arg>)
    ensures Render(format, args).Some? ==> |args| >= Takes(format)
    ensures |args| >= Takes(format) ==> Render(format, args) == Render(format, args[..Takes(format)])
  {
    if format == [] {
    } else if format[0] != PERCENT {
      TakesExactly(format[1..], args);
    } else if |format| >= 2 && args != [] {
      TakesExactly(format[2..], args[1..]);
      if |args| >= Takes(format) {
        assert args[..Takes(format)][1..] == args[1..][..Takes(format[2..])];
      }
    }
  }

  /** Two well-formed formats in a row, with their arguments in a row, print the one and then the
      other. */
  lemma {:induction false} InARow(f: seq<u8>, a: seq<Arg>, g: seq<u8>, b: seq<Arg>)
    requires Render(f, a).Some? && Render(g, b).Some? && |a| == Takes(f)
    ensures Render(f + g, a + b) == Some(Render(f, a).value + Render(g, b).value)
  {
    if f == [] {
      assert f + g == g && a + b == b;
      assert [] + Render(g, b).value == Render(g, b).value;
    } else if f[0] != PERCENT {
      InARow(f[1..], a, g, b);
      AfterPlain(f, a, g, b);
    } else {
      InARow(f[2..], a[1..], g, b);
      AfterConversion(f, a, g, b);
    }
  }

  lemma AfterPlain(f: seq<u8>, a: seq<Arg>, g: seq<u8>, b: seq<Arg>)
    requires f != [] && f[0] != PERCENT && Render(f, a).Some? && Render(g, b).Some?
    requires Render(f[1..] + g, a + b) == Some(Render(f[1..], a).value + Render(g, b).value)
    ensures Render(f + g, a + b) == Some(Render(f, a).value + Render(g, b).value)
  {
    assert (f + g)[1..] == f[1..] + g;
    Grouped([f[0]], Render(f[1..], a).value, Render(g, b).value);
  }

  lemma AfterConversion(f: seq<u8>, a: seq<Arg>, g: seq<u8>, b: seq<Arg>)
    requires f != [] && f[0] == PERCENT && Render(f, a).Some? && Render(g, b).Some?
    requires Render(f[2..] + g, a[1..] + b) == Some(Render(f[2..], a[1..]).value + Render(g, b).value)
    ensures Render(f + g, a + b) == Some(Render(f, a).value + Render(g, b).value)
  {
    ConversionFirst(f, a);
    TailOf(f, g);
    ArgTail(a, b);
    ConversionFirst(f + g, a + b);
    Grouped(Converted(f[1], a[0]).value, Render(f[2..], a[1..]).value, Render(g, b).value);
  }

  lemma ConversionFirst(f: seq<u8>, a: seq<Arg>)
    requires |f| >= 2 && f[0] == PERCENT && a != [] && Converted(f[1], a[0]).Some?
    ensures Render(f, a) == Prepend(Converted(f[1], a[0]).value, Render(f[2..], a[1..]))
  {
  }

  lemma TailOf(f: seq<u8>, g: seq<u8>)
    requires |f| >= 2
    ensures (f + g)[2..] == f[2..] + g && (f + g)[0] == f[0] && (f + g)[1] == f[1]
  {
  }

  lemma ArgTail(a: seq<Arg>, b: seq<Arg>)
    requires a != []
    ensures (a + b)[1..] == a[1..] + b && (a + b)[0] == a[0]
  {
  }

  lemma Grouped(x: seq<u8>, y: seq<u8>, z: seq<u8>)
    ensures x + (y + z) == (x + y) + z
  {
  }

  class Printer {
    var emitted: seq<u8>

    constructor ()
      ensures emitted == []
    {
      emitted := [];
    }

    method Putc(c: u8)
      modifies this
      ensures emitted == old(emitted) + [c]
    {
      emitted := emitted + [c];
    }

    /** The loop over a NUL-terminated string. */
    method PutString(ins: array<u8>, ghost n: nat)
      requires n < ins.Length && ins[n] == 0 && forall i | 0 <= i < n :: ins[i] != 0
      modifies this
      ensures emitted == old(emitted) + ins[..n]
    {
      var i := 0;
      while ins[i] != 0
        invariant i <= n && emitted == old(emitted) + ins[..i]
        decreases n - i
      {
        Putc(ins[i]);
        i := i + 1;
      }
    }

    method PrintNumber(value: u32, base: nat)
      requires Base(base) && |Numeral(value, base)| < CONVERSION_BUFFER
      modifies this
      ensures emitted == old(emitted) + Numeral(value, base)
    {
      var conv := new u8[CONVERSION_BUFFER];
      Itoa(value, conv, base);
      PutString(conv, |Numeral(value, base)|);
    }

    method PutText(text: seq<u8>)
      modifies this
      ensures emitted == old(emitted) + text
    {
      for i := 0 to |text|
        invariant emitted == old(emitted) + text[..i]
      {
        Putc(text[i]);
      }
    }

    method PutConversion(c: u8, arg: Arg)
      requires Converted(c, arg).Some?
      modifies this
      ensures emitted == old(emitted) + Converted(c, arg).value
    {
      if c in [0x75, 0x64, 0x69] {
        PrintNumber(arg.value, 10);
      } else if c in [0x78, 0x58] {
        PrintNumber(arg.value, 16);
      } else if c == 0x73 {
        PutText(arg.bytes);
      }
    }

    /** A well-formed format comes out as it renders. */
    method Printf(format: seq<u8>, args: seq<Arg>)
      requires 0 !in format && Render(format, args).Some?
      modifies this
      ensures emitted == old(emitted) + Render(format, args).value
    {
      var s, a := 0, 0;
      while s < |format|
        invariant s <= |format| && a <= |args| && Render(format[s..], args[a..]).Some?
        invariant emitted + Render(format[s..], args[a..]).value == old(emitted) + Render(format, args).value
      {
        ghost var f, r := format[s..], args[a..];
        assert f[1..] == format[s + 1..];
        if format[s] == PERCENT {
          s := s + 1;
          assert f[2..] == format[s + 1..] && r[1..] == args[a + 1..];
          PutConversion(format[s], args[a]);
          a := a + 1;
          s := s + 1;
        } else {
          Putc(format[s]);
          s := s + 1;
        }
      }
    }
  }
}
