// What do_printf of source/kernel/klib.c prints for each directive, in terms of characters and numbers.
module PrintfLaws {
  import opened CStrings
  import opened Words
  import opened PrintfModel

  /** What is printed for a format that is a single directive. */
  function PrintOne(p: Spec, c: char, a: Arg): Run
    requires Proper(Directive(p, c))
  {
    Machine(Plain, SpecText(p) + [c], [a])
  }

  /** The conversions and the kinds of their arguments. */
  predicate Takes(c: char, a: Arg) {
    (c in "Xxpndiuoc" && a.Number? && a.w < 0x1_0000_0000) || (c == 's' && a.Text?)
  }

  lemma OneShown(p: Spec, c: char, a: Arg)
    requires Proper(Directive(p, c)) && Takes(c, a)
    ensures IsConversion(c) && Fits(c, a)
    ensures PrintOne(p, c, a) == Run(Shown(c, FlagsOf(p), a), Done)
  {
    hide Shown, FlagsOf, SpecText, AtConversion;
    assert SpecText(p) + [c] + "" == SpecText(p) + [c];
    DirectiveStep(p, c, "", [a]);
    ConversionStep(FlagsOf(p), c, "", [a]);
  }

  // ---------------------------------------------------------------------------
  // Numbers

  /** The word without its upper half for a directive with h and without l. */
  function Loaded(p: Spec, w: nat): nat {
    if 'h' in p.modifiers && 'l' !in p.modifiers then w % 0x1_0000 else w
  }

  /** The number that a signed conversion shows: two's complement of 32 bits, or of 16. */
  function LoadedSigned(p: Spec, w: nat): int {
    if 'h' in p.modifiers && 'l' !in p.modifiers
    then (if w % 0x1_0000 < 0x8000 then w % 0x1_0000 else w % 0x1_0000 - 0x1_0000)
    else (if w < 0x8000_0000 then w else w - 0x1_0000_0000)
  }

  lemma LoadIs(p: Spec, c: char, w: nat)
    requires ProperSpec(p) && w < 0x1_0000_0000
    ensures Load(w, c, FlagsOf(p)) == if c == 'd' || c == 'i' then LoadedSigned(p, w) else Loaded(p, w)
  {
  }

  /** Every numeric directive prints a number that reads back: u, d and i in decimal, d and i with a sign, X, x,
      p and n in hexadecimal, o in octal, whatever the flags and the width. */
  lemma DirectiveReads(p: Spec, c: char, w: nat)
    requires Proper(Directive(p, c)) && w < 0x1_0000_0000 && c in "Xxpndiuo"
    ensures PrintOne(p, c, Number(w)).status == Done
    ensures var text := PrintOne(p, c, Number(w)).text;
            && (c == 'u' ==> ReadNumber(text, 10) == Loaded(p, w))
            && (c == 'd' || c == 'i' ==> ReadNumber(text, 10) == LoadedSigned(p, w))
            && (c == 'X' || c == 'x' || c == 'p' || c == 'n' ==> ReadNumber(text, 16) == Loaded(p, w))
            && (c == 'o' ==> ReadNumber(text, 8) == Loaded(p, w))
  {
    hide ReadNumber, Load, NumberText, Loaded, LoadedSigned, SpecText, Machine;
    OneShown(p, c, Number(w));
    LoadIs(p, c, w);
    var f := FlagsOf(p);
    NumberReads(Load(w, c, f), Radix(c), c == 'X', f.left, f.zero, f.width);
  }

  /** The digits, one by one. */
  lemma DigitTable(d: nat, upper: bool)
    requires d < 16
    ensures DigitChar(d, upper) == (if upper then "0123456789ABCDEF" else "0123456789abcdef")[d]
    ensures DigitValue(DigitChar(d, upper)) == d
  {
  }

  /** A text of these characters only. */
  predicate MadeOf(s: string, chars: string) {
    forall i :: 0 <= i < |s| ==> s[i] in chars
  }

  lemma {:induction false} DigitsMade(v: nat, radix: nat, upper: bool)
    requires 2 <= radix <= 16
    ensures MadeOf(Digits(v, radix, upper), if upper then " -0123456789ABCDEF" else " -0123456789abcdef")
  {
    hide DigitChar;
    if v < radix {
      DigitTable(v, upper);
    } else {
      DigitsSplit(v, radix, upper);
      DigitsMade(v / radix, radix, upper);
      DigitTable(v % radix, upper);
    }
  }

  /** X prints upper-case digits, all other conversions lower-case ones. */
  lemma DigitCase(p: Spec, c: char, w: nat)
    requires Proper(Directive(p, c)) && w < 0x1_0000_0000 && c in "Xxpndiuo"
    ensures MadeOf(PrintOne(p, c, Number(w)).text, if c == 'X' then " -0123456789ABCDEF" else " -0123456789abcdef")
  {
    hide Load, Digits, SpecText, Machine;
    OneShown(p, c, Number(w));
    DigitsMade(Abs(Load(w, c, FlagsOf(p))), Radix(c), c == 'X');
  }

  // ---------------------------------------------------------------------------
  // Width and padding

  /** The same directive without dash, zero and width. */
  function Bare(p: Spec): Spec {
    Spec(false, false, "", p.modifiers)
  }

  /** The width is the decimal number in the directive, as a 32-bit word. */
  lemma {:induction false} WidthValue(width: nat, digits: string)
    requires width < 0x1_0000_0000 && forall i :: 0 <= i < |digits| ==> '0' <= digits[i] <= '9'
    ensures WidthOf(width, digits) < 0x1_0000_0000
    ensures WidthOf(width, digits) == (width * Power10(|digits|) + Decimal(digits)) % 0x1_0000_0000
    decreases |digits|
  {
    if |digits| > 0 {
      hide WidthOf, Decimal, Power10, AddDigit, DecimalDigit;
      var d := DecimalDigit(digits[0]);
      WidthDigit(width, digits);
      DecimalStep(digits);
      WidthValue(AddDigit(width, digits[0]), digits[1..]);
      var p, v := Power10(|digits| - 1), Decimal(digits[1..]);
      Reduce(10 * width + d, p, v);
      Regroup(width, d, p);
    } else {
      assert width * Power10(0) == width;
    }
  }

  function Power10(n: nat): nat {
    if n == 0 then 1 else 10 * Power10(n - 1)
  }

  function DecimalDigit(c: char): nat
    requires '0' <= c <= '9'
  {
    c as nat - '0' as nat
  }

  /** The number that a row of decimal digits stands for. */
  function Decimal(digits: string): nat
    requires forall i :: 0 <= i < |digits| ==> '0' <= digits[i] <= '9'
  {
    if |digits| == 0 then 0
    else
      var d := DecimalDigit(digits[0]);
      d * Power10(|digits| - 1) + Decimal(digits[1..])
  }

  lemma DecimalStep(digits: string)
    requires |digits| > 0 && forall i :: 0 <= i < |digits| ==> '0' <= digits[i] <= '9'
    ensures Decimal(digits) == DecimalDigit(digits[0]) * Power10(|digits| - 1) + Decimal(digits[1..])
    ensures Power10(|digits|) == 10 * Power10(|digits| - 1)
  {
  }

  lemma WidthDigit(width: nat, digits: string)
    requires width < 0x1_0000_0000 && |digits| > 0 && forall i :: 0 <= i < |digits| ==> '0' <= digits[i] <= '9'
    ensures AddDigit(width, digits[0]) == (10 * width + DecimalDigit(digits[0])) % 0x1_0000_0000
    ensures WidthOf(width, digits) == WidthOf(AddDigit(width, digits[0]), digits[1..])
  {
  }

  lemma Regroup(width: nat, d: nat, p: nat)
    ensures (10 * width + d) * p == width * (10 * p) + d * p
  {
  }

  /** A number may be reduced modulo 2^32 before it is multiplied. */
  lemma Reduce(x: nat, p: nat, v: nat)
    ensures (x % 0x1_0000_0000 * p + v) % 0x1_0000_0000 == (x * p + v) % 0x1_0000_0000
  {
    var q, r := x / 0x1_0000_0000, x % 0x1_0000_0000;
    assert x == q * 0x1_0000_0000 + r;
    Spread(q, r, p);
    ModAdd(q * p, r * p + v);
  }

  lemma Spread(q: nat, r: nat, p: nat)
    ensures (q * 0x1_0000_0000 + r) * p == q * p * 0x1_0000_0000 + r * p
  {
  }

  lemma ModAdd(q: nat, x: nat)
    ensures (q * 0x1_0000_0000 + x) % 0x1_0000_0000 == x % 0x1_0000_0000
  {
  }

  /** How many characters are missing up to the width; a character counts as one, also the terminator. */
  function Missing(p: Spec, c: char, bare: string): nat
    requires ProperSpec(p)
  {
    var width := Decimal(p.digits) % 0x1_0000_0000;
    var natural := if c == 'c' then 1 else |bare|;
    if width > natural then width - natural else 0
  }

  /** How width, dash and zero bring the text of a bare directive to its place: with a dash spaces follow it;
      otherwise with a zero, but not for characters and strings, zeroes stand between its sign and its digits;
      otherwise spaces stand before it. */
  lemma Placed(p: Spec, c: char, a: Arg)
    requires Proper(Directive(p, c)) && Takes(c, a)
    ensures Proper(Directive(Bare(p), c)) && PrintOne(p, c, a).status == Done
    ensures var bare := PrintOne(Bare(p), c, a).text;
            var n := Missing(p, c, bare);
            PrintOne(p, c, a).text ==
              if p.left then bare + Repeat(' ', n)
              else if !p.zero || c == 'c' || c == 's' then Repeat(' ', n) + bare
              else if |bare| > 0 && bare[0] == '-' then "-" + Repeat('0', n) + bare[1..]
              else Repeat('0', n) + bare
  {
    hide Shown, NumberText, PlainText, SpecText, Machine, Repeat, WidthOf, Decimal, FlagsOf, CharText;
    BareProper(p, c);
    OneShown(p, c, a);
    OneShown(Bare(p), c, a);
    FlagsIs(p);
    if c == 'c' || c == 's' {
      ShownPlain(c, FlagsOf(p), a);
    } else {
      ShownNumeric(c, FlagsOf(p), a);
    }
  }

  lemma FlagsIs(p: Spec)
    requires ProperSpec(p)
    ensures FlagsOf(Bare(p)) == FlagsOf(p).(left := false, zero := false, width := 0)
    ensures FlagsOf(p).left == p.left && FlagsOf(p).zero == p.zero
    ensures FlagsOf(p).width == Decimal(p.digits) % 0x1_0000_0000
  {
    hide Decimal;
    WidthValue(0, p.digits);
    NoWidth();
  }

  lemma ShownNumeric(c: char, f: Flags, a: Arg)
    requires IsConversion(c) && Fits(c, a) && c != 'c' && c != 's'
    ensures var bare := Shown(c, f.(left := false, zero := false, width := 0), a);
            var n := if f.width > |bare| then f.width - |bare| else 0;
            Shown(c, f, a) ==
              if f.left then bare + Repeat(' ', n)
              else if !f.zero then Repeat(' ', n) + bare
              else if |bare| > 0 && bare[0] == '-' then "-" + Repeat('0', n) + bare[1..]
              else Repeat('0', n) + bare
  {
    hide Load, NumberText, Repeat;
    SameLoad(a.w, c, f, f.(left := false, zero := false, width := 0));
    NumberPlaced(Load(a.w, c, f), Radix(c), c == 'X', f.left, f.zero, f.width);
  }

  lemma ShownPlain(c: char, f: Flags, a: Arg)
    requires (c == 'c' || c == 's') && Fits(c, a)
    ensures IsConversion(c)
    ensures var bare := Shown(c, f.(left := false, zero := false, width := 0), a);
            var natural := if c == 'c' then 1 else |bare|;
            var n := if f.width > natural then f.width - natural else 0;
            Shown(c, f, a) == if f.left then bare + Repeat(' ', n) else Repeat(' ', n) + bare
  {
    hide CharText, PlainText, Repeat;
    var body := if c == 'c' then CharText(a.w) else a.s;
    PlainPlaced(body, if c == 'c' then 1 else |a.s|, f.left, f.width);
  }

  lemma BareProper(p: Spec, c: char)
    requires Proper(Directive(p, c)) && c in "Xxpndiuocs"
    ensures Proper(Directive(Bare(p), c))
  {
  }

  lemma NoWidth()
    ensures WidthOf(0, "") == 0
  {
  }

  lemma SameLoad(w: nat, c: char, f: Flags, g: Flags)
    requires w < WORD && f.long == g.long && f.short == g.short
    ensures Load(w, c, f) == Load(w, c, g)
  {
  }

  lemma NumberPlaced(v: int, radix: nat, upper: bool, left: bool, zero: bool, width: nat)
    requires 2 <= radix <= 16
    ensures var bare := NumberText(v, radix, upper, false, false, 0);
            var n := if width > |bare| then width - |bare| else 0;
            NumberText(v, radix, upper, left, zero, width) ==
              if left then bare + Repeat(' ', n)
              else if !zero then Repeat(' ', n) + bare
              else if |bare| > 0 && bare[0] == '-' then "-" + Repeat('0', n) + bare[1..]
              else Repeat('0', n) + bare
  {
    hide Digits, Repeat;
    NothingRepeated(' ');
    var sign := if v < 0 then "-" else "";
    var body := Digits(Abs(v), radix, upper);
    var bare := sign + body;
    assert NumberText(v, radix, upper, false, false, 0) == bare by {
      Shapes(sign, body, "");
    }
    var n := Pad(width, |bare|);
    Shapes(sign, body, Repeat(if zero && !left then '0' else ' ', n));
  }

  /** The pieces of a number as parts of its bare text. */
  lemma Shapes(sign: string, body: string, pad: string)
    requires (sign == "" || sign == "-") && |body| > 0 && body[0] != '-'
    ensures sign + body + pad == (sign + body) + pad
    ensures pad + sign + body == pad + (sign + body)
    ensures "" + sign + body == sign + body
    ensures var bare := sign + body;
            sign + pad + body == if bare[0] == '-' then "-" + pad + bare[1..] else pad + bare
  {
    assert pad + sign + body == pad + (sign + body);
    if sign == "" {
      assert sign + body == body && sign + pad == pad;
    } else {
      assert (sign + body)[1..] == body;
    }
  }

  lemma NothingRepeated(c: char)
    ensures Repeat(c, 0) == ""
  {
  }

  lemma PlainPlaced(body: string, actual: nat, left: bool, width: nat)
    ensures PlainText(body, actual, false, 0) == body
    ensures var n := if width > actual then width - actual else 0;
            PlainText(body, actual, left, width) == if left then body + Repeat(' ', n) else Repeat(' ', n) + body
  {
    hide Repeat;
    NothingRepeated(' ');
    assert "" + body == body;
  }

  /** A bare %s prints its string, and a bare %c the character of the low byte, none for the terminator. */
  lemma PlainPrints(p: Spec, a: Arg)
    requires ProperSpec(p)
    ensures a.Text? ==> Proper(Directive(Bare(p), 's')) && PrintOne(Bare(p), 's', a).text == a.s
    ensures a.Number? && a.w < 0x1_0000_0000 ==>
              Proper(Directive(Bare(p), 'c')) &&
              PrintOne(Bare(p), 'c', a).text == if a.w % 256 == 0 then "" else [(a.w % 256) as char]
  {
    hide SpecText, Machine, Repeat, WidthOf;
    NoWidth();
    if a.Text? {
      OneShown(Bare(p), 's', a);
      PlainPlaced(a.s, |a.s|, false, 0);
    } else if a.w < 0x1_0000_0000 {
      OneShown(Bare(p), 'c', a);
      PlainPlaced(CharText(a.w), 1, false, 0);
    }
  }
}
