// Formats of do_printf in source/kernel/klib.c: their grammar and what they print.
module PrintfModel {
  import opened CStrings
  import opened Words

  const WORD: nat := 0x1_0000_0000

  /** An argument as it lies on the stack: a 32-bit word, or a pointer to a string. */
  datatype Arg = Number(w: nat) | Text(s: CString)

  predicate ValidArg(a: Arg) {
    a.Number? ==> a.w < WORD
  }

  // ---------------------------------------------------------------------------
  // Numbers

  function DigitChar(d: nat, upper: bool): (c: char)
    requires d < 16
    ensures c != '\0' && c != ' ' && c != '-' && DigitValue(c) == d
  {
    if d < 10 then (d + '0' as nat) as char
    else if upper then (d - 10 + 'A' as nat) as char
    else (d - 10 + 'a' as nat) as char
  }

  function DigitValue(c: char): nat {
    if '0' <= c <= '9' then c as nat - '0' as nat
    else if 'A' <= c <= 'F' then c as nat - 'A' as nat + 10
    else if 'a' <= c <= 'f' then c as nat - 'a' as nat + 10
    else 0
  }

  function Digits(v: nat, radix: nat, upper: bool): (s: CString)
    requires 2 <= radix <= 16
    ensures |s| > 0 && forall i :: 0 <= i < |s| ==> s[i] != ' ' && s[i] != '-'
  {
    if v < radix then [DigitChar(v, upper)]
    else
      Quotient(v, radix);
      Digits(v / radix, radix, upper) + [DigitChar(v % radix, upper)]
  }

  lemma Quotient(v: nat, radix: nat)
    requires radix >= 2 && v > 0
    ensures v / radix < v && v % radix < radix
  {
    DivMod(v, radix);
    AtLeastTwice(v / radix, radix);
  }

  lemma AtLeastTwice(q: nat, radix: nat)
    requires radix >= 2
    ensures q * radix >= 2 * q
  {
  }

  /** The number that a row of digits stands for. */
  function Value(s: string, radix: nat): nat {
    if |s| == 0 then 0 else WithDigit(Value(s[..|s| - 1], radix), radix, DigitValue(s[|s| - 1]))
  }

  /** A number with one more digit behind it. */
  function WithDigit(v: nat, radix: nat, d: nat): nat {
    v * radix + d
  }

  lemma ValueStep(s: string, c: char, radix: nat)
    ensures Value(s + [c], radix) == WithDigit(Value(s, radix), radix, DigitValue(c))
  {
    hide WithDigit;
    assert (s + [c])[..|s|] == s;
  }

  lemma DivMod(v: nat, radix: nat)
    requires radix > 0
    ensures WithDigit(v / radix, radix, v % radix) == v
  {
  }

  lemma {:induction false} DigitsValue(v: nat, radix: nat, upper: bool)
    requires 2 <= radix <= 16
    ensures Value(Digits(v, radix, upper), radix) == v
  {
    hide Digits, Value, DigitChar, DigitValue, WithDigit;
    if v >= radix {
      DigitsSplit(v, radix, upper);
      DigitsValue(v / radix, radix, upper);
      ValueStep(Digits(v / radix, radix, upper), DigitChar(v % radix, upper), radix);
      DivMod(v, radix);
    } else {
      OneDigit(v, radix, upper);
    }
  }

  lemma OneDigit(v: nat, radix: nat, upper: bool)
    requires 2 <= radix <= 16 && v < radix
    ensures Value(Digits(v, radix, upper), radix) == v
  {
    hide DigitChar;
    assert [DigitChar(v, upper)][..0] == "";
  }

  lemma DigitsSplit(v: nat, radix: nat, upper: bool)
    requires 2 <= radix <= 16 && v >= radix
    ensures v / radix < v && v % radix < radix
    ensures Digits(v, radix, upper) == Digits(v / radix, radix, upper) + [DigitChar(v % radix, upper)]
  {
    hide DigitChar;
    Quotient(v, radix);
  }

  /** Three bits at least go into every digit. */
  lemma {:induction false} DigitsShort(v: nat, radix: nat, upper: bool, k: nat)
    requires 8 <= radix <= 16 && v < Pow2(3 * k) && k > 0
    ensures |Digits(v, radix, upper)| <= k
  {
    if v >= radix {
      Pow2Add(3, 3 * (k - 1));
      assert Pow2(3) == 8;
      Smaller(v, radix);
      assert v / 8 < Pow2(3 * (k - 1));
      if k == 1 {
        assert false;
      }
      DigitsShort(v / radix, radix, upper, k - 1);
    }
  }

  lemma Smaller(v: nat, radix: nat)
    requires radix >= 8
    ensures v / radix <= v / 8
  {
    var q := v / radix;
    assert 8 * q <= radix * q <= v;
  }

  /** No number needs more than 11 of the 15 characters that the buffer has room for. */
  lemma WordDigits(v: nat, radix: nat, upper: bool)
    requires 8 <= radix <= 16 && v < WORD
    ensures |Digits(v, radix, upper)| <= 11
  {
    WordMax();
    Pow2Monotone(32, 33);
    DigitsShort(v, radix, upper, 11);
  }

  function Repeat(c: char, n: nat): (s: string)
    ensures |s| == n && forall i :: 0 <= i < n ==> s[i] == c
  {
    seq(n, i => c)
  }

  function Pad(width: nat, actual: nat): nat {
    if width > actual then width - actual else 0
  }

  function Abs(v: int): nat {
    if v < 0 then -v else v
  }

  /** A number with its sign, brought to the width. */
  function NumberText(v: int, radix: nat, upper: bool, left: bool, zero: bool, width: nat): string
    requires 2 <= radix <= 16
  {
    var sign := if v < 0 then "-" else "";
    var body := Digits(Abs(v), radix, upper);
    var pad := Pad(width, |sign| + |body|);
    if left then sign + body + Repeat(' ', pad)
    else if zero then sign + Repeat('0', pad) + body
    else Repeat(' ', pad) + sign + body
  }

  /** A string or a character, brought to the width; actual is the length that is reckoned with. */
  function PlainText(body: string, actual: nat, left: bool, width: nat): string {
    if left then body + Repeat(' ', Pad(width, actual)) else Repeat(' ', Pad(width, actual)) + body
  }

  /** A number takes exactly the larger of its width and its natural length. */
  lemma NumberLength(v: int, radix: nat, upper: bool, left: bool, zero: bool, width: nat)
    requires 2 <= radix <= 16
    ensures var natural := |Digits(Abs(v), radix, upper)| + if v < 0 then 1 else 0;
            |NumberText(v, radix, upper, left, zero, width)| == if width > natural then width else natural
  {
  }

  /** A text without the spaces around it. */
  function Trim(s: string): string {
    if |s| > 0 && s[0] == ' ' then Trim(s[1..])
    else if |s| > 0 && s[|s| - 1] == ' ' then Trim(s[..|s| - 1])
    else s
  }

  /** The number that a text stands for: spaces, a sign, and digits with zeroes before them. */
  function ReadNumber(s: string, radix: nat): int {
    var t := Trim(s);
    if |t| > 0 && t[0] == '-' then 0 - Value(t[1..], radix) else Value(t, radix)
  }

  lemma {:induction false} TrimLeft(n: nat, t: string)
    ensures Trim(Repeat(' ', n) + t) == Trim(t)
  {
    if n == 0 {
      assert Repeat(' ', n) + t == t;
    } else {
      TrimLeft(n - 1, t);
      assert (Repeat(' ', n) + t)[1..] == Repeat(' ', n - 1) + t;
    }
  }

  lemma {:induction false} TrimRight(t: string, n: nat)
    requires |t| > 0 && t[0] != ' '
    ensures Trim(t + Repeat(' ', n)) == Trim(t)
  {
    if n == 0 {
      assert t + Repeat(' ', n) == t;
    } else {
      TrimRight(t, n - 1);
      var s := t + Repeat(' ', n);
      assert s[..|s| - 1] == t + Repeat(' ', n - 1);
    }
  }

  lemma {:induction false} LeadingZeroes(n: nat, body: string, radix: nat)
    ensures Value(Repeat('0', n) + body, radix) == Value(body, radix)
    decreases |body|, n
  {
    var s := Repeat('0', n) + body;
    if |body| > 0 {
      LeadingZeroes(n, body[..|body| - 1], radix);
      assert s[..|s| - 1] == Repeat('0', n) + body[..|body| - 1];
    } else if n > 0 {
      LeadingZeroes(n - 1, body, radix);
      assert s[..|s| - 1] == Repeat('0', n - 1) + body;
    }
  }

  /** What is printed for a number can be read back, whatever the flags and the width. */
  lemma NumberReads(v: int, radix: nat, upper: bool, left: bool, zero: bool, width: nat)
    requires 2 <= radix <= 16
    ensures ReadNumber(NumberText(v, radix, upper, left, zero, width), radix) == v
  {
    hide Digits, Repeat, Value, Trim;
    var sign := if v < 0 then "-" else "";
    var body := Digits(Abs(v), radix, upper);
    var pad := Pad(width, |sign| + |body|);
    DigitsValue(Abs(v), radix, upper);
    if left {
      TrimRight(sign + body, pad);
      ReadSigned(sign, body, v, radix);
    } else if zero {
      LeadingZeroes(pad, body, radix);
      ReadSigned(sign, Repeat('0', pad) + body, v, radix);
      assert sign + (Repeat('0', pad) + body) == sign + Repeat('0', pad) + body;
    } else {
      TrimLeft(pad, sign + body);
      ReadSigned(sign, body, v, radix);
      assert Repeat(' ', pad) + (sign + body) == Repeat(' ', pad) + sign + body;
    }
  }

  lemma ReadSigned(sign: string, body: string, v: int, radix: nat)
    requires sign == if v < 0 then "-" else ""
    requires |body| > 0 && body[0] != ' ' && body[0] != '-' && body[|body| - 1] != ' '
    requires Value(body, radix) == Abs(v)
    ensures Trim(sign + body) == sign + body && ReadNumber(sign + body, radix) == v
  {
    if v < 0 {
      assert (sign + body)[1..] == body;
    } else {
      assert sign + body == body;
    }
  }

  // ---------------------------------------------------------------------------
  // Conversions

  datatype Flags = Flags(left: bool, zero: bool, width: nat, long: bool, short: bool)

  predicate IsNumeric(c: char) {
    c in "Xxpndiuo"
  }

  predicate IsConversion(c: char) {
    IsNumeric(c) || c == 'c' || c == 's'
  }

  predicate IsSigned(c: char) {
    c == 'd' || c == 'i'
  }

  function Radix(c: char): (r: nat)
    ensures 8 <= r <= 16
  {
    if c in "Xxpn" then 16 else if c == 'o' then 8 else 10
  }

  /** A word as a number in two's complement. */
  function Signed(w: nat, size: nat): int {
    if w < size / 2 then w else w - size
  }

  /** The number that a conversion takes from its argument. */
  function Load(w: nat, c: char, f: Flags): (v: int)
    requires w < WORD
    ensures -0x8000_0000 <= v < WORD
  {
    if f.long || !f.short then (if IsSigned(c) then Signed(w, WORD) else w)
    else if IsSigned(c) then Signed(w % 0x1_0000, 0x1_0000)
    else w % 0x1_0000
  }

  /** The text of a character: none for the terminator. */
  function CharText(w: nat): CString {
    if w % 256 == 0 then "" else [(w % 256) as char]
  }

  /** What a conversion prints. */
  function Shown(c: char, f: Flags, a: Arg): string
    requires IsConversion(c) && Fits(c, a)
  {
    if IsNumeric(c) then NumberText(Load(a.w, c, f), Radix(c), c == 'X', f.left, f.zero, f.width)
    else if c == 'c' then PlainText(CharText(a.w), 1, f.left, f.width)
    else PlainText(a.s, |a.s|, f.left, f.width)
  }

  /** The argument is what the conversion takes. */
  predicate Fits(c: char, a: Arg) {
    ValidArg(a) && if c == 's' then a.Text? else a.Number?
  }

  // ---------------------------------------------------------------------------
  // The machine

  datatype State = Plain | Dash | Width(left: bool, zero: bool, width: nat) | Modifiers(flags: Flags)

  /** How a run ends: at the end of the format, past the end of the format, or for want of an
      argument of the right kind. */
  datatype Status = Done | Overrun | NoArgument

  datatype Run = Run(text: string, status: Status)

  function Put(text: string, r: Run): Run {
    r.(text := text + r.text)
  }

  predicate IsDigit(c: char) {
    '0' <= c <= '9'
  }

  predicate IsModifier(c: char) {
    c == 'F' || c == 'N' || c == 'l' || c == 'h'
  }

  function AddDigit(width: nat, c: char): nat
    requires IsDigit(c)
  {
    (10 * width + (c as nat - '0' as nat)) % WORD
  }

  function AddModifier(f: Flags, c: char): Flags {
    if c == 'l' then f.(long := true) else if c == 'h' then f.(short := true) else f
  }

  /** The loop of do_printf, from a state on. */
  function Machine(st: State, fmt: CString, args: seq<Arg>): (r: Run)
    decreases |fmt|, 4
  {
    if |fmt| == 0 then Run("", Done)
    else
      match st
      case Plain =>
        if fmt[0] != '%' then Put([fmt[0]], Machine(Plain, fmt[1..], args)) else AtFlags(false, fmt[1..], args)
      case Dash => AtFlags(true, fmt, args)
      case Width(left, zero, width) => AtWidth(left, zero, width, fmt, args)
      case Modifiers(flags) => AtModifiers(flags, fmt, args)
  }

  /** State 1; the character may be the terminator here and in the states that follow. */
  function AtFlags(left: bool, fmt: CString, args: seq<Arg>): Run
    decreases |fmt|, 3
  {
    match CharAt(fmt, 0)
    case '%' => Put("%", Machine(Plain, fmt[1..], args))
    case '-' => Machine(if left then Plain else Dash, fmt[1..], args)
    case '0' => AtWidth(left, true, 0, fmt[1..], args)
    case _ => AtWidth(left, false, 0, fmt, args)
  }

  function AtWidth(left: bool, zero: bool, width: nat, fmt: CString, args: seq<Arg>): Run
    decreases |fmt|, 2
  {
    if IsDigit(CharAt(fmt, 0)) then Machine(Width(left, zero, AddDigit(width, fmt[0])), fmt[1..], args)
    else AtModifiers(Flags(left, zero, width, false, false), fmt, args)
  }

  function AtModifiers(f: Flags, fmt: CString, args: seq<Arg>): Run
    decreases |fmt|, 1
  {
    if IsModifier(CharAt(fmt, 0)) then Machine(Modifiers(AddModifier(f, fmt[0])), fmt[1..], args)
    else AtConversion(f, fmt, args)
  }

  /** State 4: after the terminator the loop goes on beyond the format. */
  function AtConversion(f: Flags, fmt: CString, args: seq<Arg>): Run
    decreases |fmt|, 0
  {
    if |fmt| == 0 then Run("", Overrun)
    else if !IsConversion(fmt[0]) then Machine(Plain, fmt[1..], args)
    else if |args| == 0 || !Fits(fmt[0], args[0]) then Run("", NoArgument)
    else Put(Shown(fmt[0], f, args[0]), Machine(Plain, fmt[1..], args[1..]))
  }

  // ---------------------------------------------------------------------------
  // The grammar

  /** The start of a directive: what may stand between the percent sign and the conversion. */
  datatype Spec = Spec(left: bool, zero: bool, digits: CString, modifiers: CString)

  predicate ProperSpec(p: Spec) {
    && (forall i :: 0 <= i < |p.digits| ==> IsDigit(p.digits[i]))
    && (forall i :: 0 <= i < |p.modifiers| ==> IsModifier(p.modifiers[i]))
    && (|p.digits| > 0 && p.digits[0] == '0' ==> p.zero)
  }

  function SpecText(p: Spec): (s: CString)
    requires ProperSpec(p)
  {
    "%" + (if p.left then "-" else "") + (if p.zero then "0" else "") + p.digits + p.modifiers
  }

  function WidthOf(width: nat, digits: string): nat
    requires forall i :: 0 <= i < |digits| ==> IsDigit(digits[i])
    decreases |digits|
  {
    if |digits| == 0 then width else WidthOf(AddDigit(width, digits[0]), digits[1..])
  }

  function FlagsOf(p: Spec): Flags
    requires ProperSpec(p)
  {
    Flags(p.left, p.zero, WidthOf(0, p.digits), 'l' in p.modifiers, 'h' in p.modifiers)
  }

  /** The parts of a format. */
  datatype Piece =
    | Literal(c: char)
    | Percent(left: bool)
    | DoubleDash
    | Directive(spec: Spec, conversion: char)

  /** Each part says where it ends. */
  predicate Proper(p: Piece) {
    match p
    case Literal(c) => c != '%' && c != '\0'
    case Percent(_) => true
    case DoubleDash => true
    case Directive(s, c) =>
      && ProperSpec(s) && c != '\0' && !IsModifier(c)
      && (s.modifiers == "" ==> !IsDigit(c))
      && (s.modifiers == "" && s.digits == "" && !s.zero ==> c != '%' && c != '-')
  }

  function PieceText(p: Piece): (s: CString)
    requires Proper(p)
    ensures |s| > 0
  {
    match p
    case Literal(c) => [c]
    case Percent(left) => if left then "%-%" else "%%"
    case DoubleDash => "%--"
    case Directive(s, c) => SpecText(s) + [c]
  }

  /** A format may break off in the middle of a directive. */
  datatype Ending = Complete | Unfinished(spec: Spec)

  predicate ProperEnding(e: Ending) {
    e.Unfinished? ==> ProperSpec(e.spec)
  }

  function EndingText(e: Ending): CString
    requires ProperEnding(e)
  {
    if e.Complete? then "" else SpecText(e.spec)
  }

  /** The format ends with %, %0 or %-0. */
  predicate BreaksOff(e: Ending) {
    e.Unfinished? && e.spec.digits == "" && e.spec.modifiers == "" && (e.spec.zero || !e.spec.left)
  }

  function FormatText(pieces: seq<Piece>, e: Ending): CString
    requires (forall i :: 0 <= i < |pieces| ==> Proper(pieces[i])) && ProperEnding(e)
  {
    if |pieces| == 0 then EndingText(e) else PieceText(pieces[0]) + FormatText(pieces[1..], e)
  }

  /** What a format prints, part by part; a directive with an unknown conversion prints nothing and
      takes no argument. */
  function Printed(pieces: seq<Piece>, e: Ending, args: seq<Arg>): Run
    requires (forall i :: 0 <= i < |pieces| ==> Proper(pieces[i])) && ProperEnding(e)
  {
    if |pieces| == 0 then Run("", if BreaksOff(e) then Overrun else Done)
    else
      assert Proper(pieces[0]);
      match pieces[0]
      case Literal(c) => Put([c], Printed(pieces[1..], e, args))
      case Percent(_) => Put("%", Printed(pieces[1..], e, args))
      case DoubleDash => Printed(pieces[1..], e, args)
      case Directive(s, c) =>
        if !IsConversion(c) then Printed(pieces[1..], e, args)
        else if |args| == 0 || !Fits(c, args[0]) then Run("", NoArgument)
        else Put(Shown(c, FlagsOf(s), args[0]), Printed(pieces[1..], e, args[1..]))
  }

  lemma {:induction false} WidthStep(left: bool, zero: bool, width: nat, digits: CString, rest: CString, args: seq<Arg>)
    requires forall i :: 0 <= i < |digits| ==> IsDigit(digits[i])
    requires |rest| > 0
    ensures AtWidth(left, zero, width, digits + rest, args) == AtWidth(left, zero, WidthOf(width, digits), rest, args)
    decreases |digits|
  {
    var s := digits + rest;
    if |digits| == 0 {
      assert s == rest;
    } else {
      assert s[1..] == digits[1..] + rest;
      WidthStep(left, zero, AddDigit(width, digits[0]), digits[1..], rest, args);
    }
  }

  lemma {:induction false} WidthEnd(left: bool, zero: bool, width: nat, digits: CString, args: seq<Arg>)
    requires forall i :: 0 <= i < |digits| ==> IsDigit(digits[i])
    requires |digits| > 0
    ensures AtWidth(left, zero, width, digits, args) == Run("", Done)
    decreases |digits|
  {
    if |digits| > 1 {
      WidthEnd(left, zero, AddDigit(width, digits[0]), digits[1..], args);
    }
  }

  function AddModifiers(f: Flags, modifiers: string): Flags {
    f.(long := f.long || 'l' in modifiers, short := f.short || 'h' in modifiers)
  }

  lemma {:induction false} ModifierStep(f: Flags, modifiers: CString, rest: CString, args: seq<Arg>)
    requires forall i :: 0 <= i < |modifiers| ==> IsModifier(modifiers[i])
    requires |rest| > 0
    ensures AtModifiers(f, modifiers + rest, args) == AtModifiers(AddModifiers(f, modifiers), rest, args)
    decreases |modifiers|
  {
    var s := modifiers + rest;
    if |modifiers| == 0 {
      assert s == rest;
    } else {
      assert s[1..] == modifiers[1..] + rest;
      assert modifiers == [modifiers[0]] + modifiers[1..];
      assert AddModifiers(AddModifier(f, modifiers[0]), modifiers[1..]) == AddModifiers(f, modifiers);
      ModifierStep(AddModifier(f, modifiers[0]), modifiers[1..], rest, args);
    }
  }

  lemma {:induction false} ModifierEnd(f: Flags, modifiers: CString, args: seq<Arg>)
    requires forall i :: 0 <= i < |modifiers| ==> IsModifier(modifiers[i])
    requires |modifiers| > 0
    ensures AtModifiers(f, modifiers, args) == Run("", Done)
    decreases |modifiers|
  {
    if |modifiers| > 1 {
      ModifierEnd(AddModifier(f, modifiers[0]), modifiers[1..], args);
    }
  }

  /** The machine arrives at the conversion of a directive with the flags of the directive. */
  lemma DirectiveStep(p: Spec, c: char, rest: CString, args: seq<Arg>)
    requires Proper(Directive(p, c))
    ensures Machine(Plain, SpecText(p) + [c] + rest, args) == AtConversion(FlagsOf(p), [c] + rest, args)
  {
    hide Machine, WidthOf;
    var tail: CString := p.digits + (p.modifiers + ([c] + rest));
    var s: CString := SpecText(p) + [c] + rest;
    ToWidth(p, tail, s, args);
    WidthStep(p.left, p.zero, 0, p.digits, p.modifiers + ([c] + rest), args);
    var f := Flags(p.left, p.zero, WidthOf(0, p.digits), false, false);
    ModifierStep(f, p.modifiers, [c] + rest, args);
  }

  /** The flags of a directive lead the machine to its width. */
  lemma ToWidth(p: Spec, tail: CString, s: CString, args: seq<Arg>)
    requires ProperSpec(p) && |tail| > 0
    requires s == "%" + (if p.left then "-" else "") + (if p.zero then "0" else "") + tail
    requires !p.zero ==> tail[0] != '0' && tail[0] != '%' && tail[0] != '-'
    ensures Machine(Plain, s, args) == AtWidth(p.left, p.zero, 0, tail, args)
  {
    hide AtWidth;
    var s1: CString := (if p.zero then "0" else "") + tail;
    FlagsStep(p.left, p.zero, tail, s1, args);
    if p.left {
      assert s[1..] == "-" + s1 && s[1..][1..] == s1;
      assert AtFlags(false, s[1..], args) == Machine(Dash, s1, args) == AtFlags(true, s1, args);
      assert Machine(Plain, s, args) == AtFlags(false, s[1..], args);
    } else {
      assert s[1..] == s1;
    }
  }

  lemma FlagsStep(left: bool, zero: bool, tail: CString, s: CString, args: seq<Arg>)
    requires |tail| > 0 && s == (if zero then "0" else "") + tail
    requires !zero ==> tail[0] != '0' && tail[0] != '%' && tail[0] != '-'
    ensures AtFlags(left, s, args) == AtWidth(left, zero, 0, tail, args)
  {
    hide AtWidth;
    if zero {
      assert s[1..] == tail;
    } else {
      assert s == tail;
    }
  }

  /** What happens when the format breaks off. */
  lemma EndingStep(p: Spec, args: seq<Arg>)
    requires ProperSpec(p)
    ensures Machine(Plain, SpecText(p), args) == Run("", if BreaksOff(Unfinished(p)) then Overrun else Done)
  {
    var tail: CString := p.digits + p.modifiers;
    if |tail| > 0 {
      ToWidth(p, tail, SpecText(p), args);
      TailEnd(p, args);
    } else {
      EmptyTail(p, args);
    }
  }

  lemma TailEnd(p: Spec, args: seq<Arg>)
    requires ProperSpec(p) && |p.digits + p.modifiers| > 0
    ensures AtWidth(p.left, p.zero, 0, p.digits + p.modifiers, args) == Run("", Done)
  {
    if |p.modifiers| > 0 {
      WidthStep(p.left, p.zero, 0, p.digits, p.modifiers, args);
      var f := Flags(p.left, p.zero, WidthOf(0, p.digits), false, false);
      assert IsModifier(p.modifiers[0]);
      ModifierEnd(f, p.modifiers, args);
    } else {
      WidthEnd(p.left, p.zero, 0, p.digits, args);
      assert p.digits + p.modifiers == p.digits;
    }
  }

  lemma EmptyTail(p: Spec, args: seq<Arg>)
    requires ProperSpec(p) && p.digits == "" && p.modifiers == ""
    ensures Machine(Plain, SpecText(p), args) == Run("", if p.zero || !p.left then Overrun else Done)
  {
    var s := SpecText(p);
    assert s == "%" + (if p.left then "-" else "") + if p.zero then "0" else "";
    if p.left {
      assert s[1..][1..] == if p.zero then "0" else "";
      assert Machine(Plain, s, args) == AtFlags(false, s[1..], args) == Machine(Dash, s[1..][1..], args);
    } else {
      assert s[1..] == if p.zero then "0" else "";
    }
    ZeroEnd(p.left, p.zero, args);
  }

  lemma ZeroEnd(left: bool, zero: bool, args: seq<Arg>)
    ensures AtFlags(left, if zero then "0" else "", args) == Run("", Overrun)
  {
    assert AtWidth(left, zero, 0, "", args) == Run("", Overrun);
  }

  /** do_printf prints what the parts of its format say, one after the other. */
  lemma {:induction false} FormatPrints(pieces: seq<Piece>, e: Ending, args: seq<Arg>)
    requires (forall i :: 0 <= i < |pieces| ==> Proper(pieces[i])) && ProperEnding(e)
    ensures Machine(Plain, FormatText(pieces, e), args) == Printed(pieces, e, args)
    decreases |pieces|
  {
    if |pieces| == 0 {
      if e.Unfinished? {
        EndingStep(e.spec, args);
      }
    } else {
      hide Shown, Fits, IsConversion, SpecText, Proper, IsModifier;
      var rest := FormatText(pieces[1..], e);
      assert Proper(pieces[0]);
      FormatPrints(pieces[1..], e, args);
      match pieces[0]
      case Literal(c) => LiteralStep(c, rest, args);
      case Percent(left) => PercentStep(left, rest, args);
      case DoubleDash => DashStep(rest, args);
      case Directive(s, c) =>
        DirectiveStep(s, c, rest, args);
        ConversionStep(FlagsOf(s), c, rest, args);
        if |args| > 0 {
          FormatPrints(pieces[1..], e, args[1..]);
        }
    }
  }

  lemma LiteralStep(c: char, rest: CString, args: seq<Arg>)
    requires c != '%' && c != '\0'
    ensures Machine(Plain, [c] + rest, args) == Put([c], Machine(Plain, rest, args))
  {
    assert ([c] + rest)[1..] == rest;
  }

  lemma PercentStep(left: bool, rest: CString, args: seq<Arg>)
    ensures Machine(Plain, PieceText(Percent(left)) + rest, args) == Put("%", Machine(Plain, rest, args))
  {
    var s: CString := PieceText(Percent(left)) + rest;
    if left {
      var s2: CString := "%" + rest;
      assert s[1..] == "-" + s2 && s[1..][1..] == s2 && s2[1..] == rest;
      assert AtFlags(false, s[1..], args) == Machine(Dash, s2, args) == AtFlags(true, s2, args);
      assert Machine(Plain, s, args) == AtFlags(false, s[1..], args);
    } else {
      assert s[1..][1..] == rest;
    }
  }

  lemma DashStep(rest: CString, args: seq<Arg>)
    ensures Machine(Plain, "%--" + rest, args) == Machine(Plain, rest, args)
  {
    var s: CString := "%--" + rest;
    var s2: CString := "-" + rest;
    assert s[1..] == "-" + s2 && s[1..][1..] == s2 && s2[1..] == rest;
    assert AtFlags(false, s[1..], args) == Machine(Dash, s2, args) == AtFlags(true, s2, args);
    assert Machine(Plain, s, args) == AtFlags(false, s[1..], args);
  }

  lemma ConversionStep(f: Flags, c: char, rest: CString, args: seq<Arg>)
    requires c != '\0'
    ensures AtConversion(f, [c] + rest, args) ==
            if !IsConversion(c) then Machine(Plain, rest, args)
            else if |args| == 0 || !Fits(c, args[0]) then Run("", NoArgument)
            else Put(Shown(c, f, args[0]), Machine(Plain, rest, args[1..]))
  {
    assert ([c] + rest)[1..] == rest;
  }

  /** Every format is made of such parts. */
  lemma {:induction false} Decompose(fmt: CString) returns (pieces: seq<Piece>, e: Ending)
    ensures (forall i :: 0 <= i < |pieces| ==> Proper(pieces[i])) && ProperEnding(e)
    ensures FormatText(pieces, e) == fmt
    decreases |fmt|
  {
    if |fmt| == 0 {
      return [], Complete;
    }
    var first, p := FirstPiece(fmt);
    if first == [] {
      return [], Unfinished(p);
    }
    hide PieceText, Proper, ProperSpec, SpecText, FormatText;
    var n := |PieceText(first[0])|;
    var rest, e' := Decompose(fmt[n..]);
    FormatFirst(first[0], rest, e');
    pieces, e := [first[0]] + rest, e';
  }

  lemma FormatFirst(p: Piece, rest: seq<Piece>, e: Ending)
    requires Proper(p) && (forall i :: 0 <= i < |rest| ==> Proper(rest[i])) && ProperEnding(e)
    ensures forall i :: 0 <= i < |[p] + rest| ==> Proper(([p] + rest)[i])
    ensures FormatText([p] + rest, e) == PieceText(p) + FormatText(rest, e)
  {
    hide PieceText, Proper, ProperEnding;
    assert ([p] + rest)[1..] == rest;
  }

  /** The part at the start of a format, or the directive in which the format breaks off. */
  lemma FirstPiece(fmt: CString) returns (first: seq<Piece>, p: Spec)
    requires |fmt| > 0
    ensures |first| <= 1
    ensures first == [] ==> ProperSpec(p) && SpecText(p) == fmt
    ensures |first| == 1 ==>
              Proper(first[0]) && |PieceText(first[0])| <= |fmt| && PieceText(first[0]) == fmt[..|PieceText(first[0])|]
  {
    p := Spec(false, false, "", "");
    if fmt[0] != '%' {
      first := [Literal(fmt[0])];
    } else if |fmt| > 1 && fmt[1] == '%' {
      first := [Percent(false)];
    } else if |fmt| > 2 && fmt[1] == '-' && fmt[2] == '%' {
      first := [Percent(true)];
    } else if |fmt| > 2 && fmt[1] == '-' && fmt[2] == '-' {
      first := [DoubleDash];
    } else {
      var n;
      p, n := ReadSpec(fmt);
      hide SpecText;
      first := if n == |fmt| then [] else [Directive(p, fmt[n])];
    }
  }

  lemma {:induction false} SpanDigits(s: CString, i: nat) returns (n: nat)
    requires i <= |s|
    ensures i <= n <= |s| && (forall k :: i <= k < n ==> IsDigit(s[k])) && (n < |s| ==> !IsDigit(s[n]))
    decreases |s| - i
  {
    if i == |s| || !IsDigit(s[i]) {
      n := i;
    } else {
      n := SpanDigits(s, i + 1);
    }
  }

  lemma {:induction false} SpanModifiers(s: CString, i: nat) returns (n: nat)
    requires i <= |s|
    ensures i <= n <= |s| && (forall k :: i <= k < n ==> IsModifier(s[k])) && (n < |s| ==> !IsModifier(s[n]))
    decreases |s| - i
  {
    if i == |s| || !IsModifier(s[i]) {
      n := i;
    } else {
      n := SpanModifiers(s, i + 1);
    }
  }

  lemma ReadSpec(fmt: CString) returns (p: Spec, n: nat)
    requires |fmt| > 0 && fmt[0] == '%'
    requires |fmt| > 1 ==> fmt[1] != '%'
    requires |fmt| > 2 && fmt[1] == '-' ==> fmt[2] != '%' && fmt[2] != '-'
    ensures n <= |fmt| && ProperSpec(p) && SpecText(p) == fmt[..n]
    ensures n < |fmt| ==> Proper(Directive(p, fmt[n]))
  {
    hide IsDigit, IsModifier;
    var i := if |fmt| > 1 && fmt[1] == '-' then 2 else 1;
    var j := if i < |fmt| && fmt[i] == '0' then i + 1 else i;
    var k := SpanDigits(fmt, j);
    n := SpanModifiers(fmt, k);
    p := Spec(i == 2, j > i, fmt[j..k], fmt[k..n]);
    assert forall l :: 0 <= l < k - j ==> p.digits[l] == fmt[j + l];
    assert forall l :: 0 <= l < n - k ==> p.modifiers[l] == fmt[k + l];
    SpecSlices(fmt, i, j, k, n);
  }

  lemma SpecSlices(fmt: CString, i: nat, j: nat, k: nat, n: nat)
    requires 1 <= i <= j <= k <= n <= |fmt| && fmt[0] == '%'
    requires i == 1 || (i == 2 && fmt[1] == '-')
    requires j == i || (j == i + 1 && fmt[i] == '0')
    ensures fmt[..n] == "%" + (if i == 2 then "-" else "") + (if j > i then "0" else "") + fmt[j..k] + fmt[k..n]
  {
    assert fmt[..i] == "%" + if i == 2 then "-" else "";
    assert fmt[..j] == fmt[..i] + if j > i then "0" else "";
    assert fmt[..k] == fmt[..j] + fmt[j..k];
    assert fmt[..n] == fmt[..k] + fmt[k..n];
  }

  // ---------------------------------------------------------------------------
  // How a run ends

  /** How far a format has got: in a text, behind "%", "%-" or a zero, or in the width or the
      modifiers of a directive. */
  datatype Scan = InText | Opened | Dashed | Zeroed | InWidth | InModifiers

  function Next(s: Scan, c: char): Scan {
    if s.InText? then (if c == '%' then Opened else InText)
    else if s.Opened? && c == '-' then Dashed
    else if (s.Opened? || s.Dashed?) && c == '0' then Zeroed
    else if !s.InModifiers? && IsDigit(c) then InWidth
    else if IsModifier(c) then InModifiers
    else InText
  }

  /** The conversions of a format, in order; there is none without a directive. */
  function Conversions(s: Scan, fmt: string): (convs: string)
    ensures |convs| <= |fmt|
    decreases |fmt|
  {
    if |fmt| == 0 then ""
    else (if !s.InText? && IsConversion(fmt[0]) then [fmt[0]] else "") + Conversions(Next(s, fmt[0]), fmt[1..])
  }

  function Final(s: Scan, fmt: string): Scan
    decreases |fmt|
  {
    if |fmt| == 0 then s else Final(Next(s, fmt[0]), fmt[1..])
  }

  /** The format ends right behind the percent sign of a directive, or behind the zero that may
      follow it or its dash. */
  predicate CutShort(s: Scan, fmt: string) {
    Final(s, fmt).Opened? || Final(s, fmt).Zeroed?
  }

  /** There is an argument of the right kind for each conversion. */
  predicate ArgsFit(convs: string, args: seq<Arg>) {
    |convs| <= |args| && forall i :: 0 <= i < |convs| ==> Fits(convs[i], args[i])
  }

  /** The status of a run through the rest of a format. */
  function Expected(s: Scan, fmt: string, args: seq<Arg>): Status {
    if !ArgsFit(Conversions(s, fmt), args) then NoArgument else if CutShort(s, fmt) then Overrun else Done
  }

  function ScanOf(st: State): Scan {
    match st
    case Plain => InText
    case Dash => Dashed
    case Width(_, _, _) => InWidth
    case Modifiers(_) => InModifiers
  }

  /** One character of a format. */
  lemma ExpectedStep(s: Scan, fmt: CString, args: seq<Arg>)
    requires |fmt| > 0
    ensures Expected(s, fmt, args) ==
            if s.InText? || !IsConversion(fmt[0]) then Expected(Next(s, fmt[0]), fmt[1..], args)
            else if |args| == 0 || !Fits(fmt[0], args[0]) then NoArgument
            else Expected(InText, fmt[1..], args[1..])
  {
    hide Fits, IsDigit, IsModifier;
    var c, convs := fmt[0], Conversions(s, fmt);
    if !s.InText? && IsConversion(c) {
      ConversionEnds(s, c);
      var rest := Conversions(InText, fmt[1..]);
      assert convs == [c] + rest;
      if |args| > 0 && Fits(c, args[0]) {
        ArgsFirst(c, rest, args);
      }
    } else {
      assert convs == Conversions(Next(s, c), fmt[1..]);
    }
  }

  lemma ArgsFirst(c: char, rest: string, args: seq<Arg>)
    requires |args| > 0 && Fits(c, args[0])
    ensures ArgsFit([c] + rest, args) == ArgsFit(rest, args[1..])
  {
    hide Fits;
    if ArgsFit([c] + rest, args) {
      forall i | 0 <= i < |rest| ensures Fits(rest[i], args[1..][i]) {
        assert Fits(([c] + rest)[i + 1], args[i + 1]);
      }
    }
  }

  lemma ConversionEnds(s: Scan, c: char)
    requires !s.InText? && IsConversion(c)
    ensures Next(s, c) == InText
  {
  }

  /** From every state on, a run ends as the rest of the format and the arguments say. */
  lemma {:induction false} MachineStatus(st: State, fmt: CString, args: seq<Arg>)
    ensures Machine(st, fmt, args).status == Expected(ScanOf(st), fmt, args)
    decreases |fmt|, 4
  {
    hide Expected, AtFlags, AtWidth, AtModifiers;
    if |fmt| == 0 {
      ExpectedEmpty(ScanOf(st), args);
    } else {
      match st
      case Plain =>
        ExpectedStep(InText, fmt, args);
        if fmt[0] != '%' {
          MachineStatus(Plain, fmt[1..], args);
        } else {
          FlagsStatus(false, fmt[1..], args);
        }
      case Dash => FlagsStatus(true, fmt, args);
      case Width(left, zero, width) => WidthStatus(left, zero, width, InWidth, fmt, args);
      case Modifiers(flags) => ModifiersStatus(flags, InModifiers, fmt, args);
    }
  }

  lemma ExpectedEmpty(s: Scan, args: seq<Arg>)
    ensures Expected(s, "", args) == if s.Opened? || s.Zeroed? then Overrun else Done
  {
  }

  lemma FlagsStatus(left: bool, fmt: CString, args: seq<Arg>)
    requires left ==> |fmt| > 0
    ensures AtFlags(left, fmt, args).status == Expected(if left then Dashed else Opened, fmt, args)
    decreases |fmt|, 3
  {
    hide Expected, Machine, AtWidth;
    var s := if left then Dashed else Opened;
    if |fmt| > 0 && fmt[0] in "%-0" {
      ExpectedStep(s, fmt, args);
      if fmt[0] == '%' {
        MachineStatus(Plain, fmt[1..], args);
      } else if fmt[0] == '-' {
        MachineStatus(if left then Plain else Dash, fmt[1..], args);
      } else {
        WidthStatus(left, true, 0, Zeroed, fmt[1..], args);
      }
    } else {
      WidthStatus(left, false, 0, s, fmt, args);
    }
  }

  /** The states from which a width may follow: it has begun, or may begin here. */
  lemma WidthStatus(left: bool, zero: bool, width: nat, s: Scan, fmt: CString, args: seq<Arg>)
    requires !s.InText? && !s.InModifiers?
    requires |fmt| == 0 ==> s.Opened? || s.Zeroed?
    requires s.Opened? || s.Dashed? ==> |fmt| == 0 || fmt[0] !in "%-0"
    ensures AtWidth(left, zero, width, fmt, args).status == Expected(s, fmt, args)
    decreases |fmt|, 2
  {
    hide Expected, Machine, AtModifiers;
    if IsDigit(CharAt(fmt, 0)) {
      ExpectedStep(s, fmt, args);
      MachineStatus(Width(left, zero, AddDigit(width, fmt[0])), fmt[1..], args);
    } else {
      ModifiersStatus(Flags(left, zero, width, false, false), s, fmt, args);
    }
  }

  lemma ModifiersStatus(f: Flags, s: Scan, fmt: CString, args: seq<Arg>)
    requires !s.InText? && (|fmt| == 0 ==> s.Opened? || s.Zeroed?)
    requires |fmt| > 0 && !s.InModifiers? ==> !IsDigit(fmt[0])
    requires s.Opened? || s.Dashed? ==> |fmt| == 0 || fmt[0] !in "%-0"
    ensures AtModifiers(f, fmt, args).status == Expected(s, fmt, args)
    decreases |fmt|, 1
  {
    hide Expected, Machine, Shown, Fits;
    if |fmt| == 0 {
      ExpectedEmpty(s, args);
    } else {
      ExpectedStep(s, fmt, args);
      if IsModifier(fmt[0]) {
        MachineStatus(Modifiers(AddModifier(f, fmt[0])), fmt[1..], args);
      } else if !IsConversion(fmt[0]) {
        MachineStatus(Plain, fmt[1..], args);
      } else if |args| > 0 && Fits(fmt[0], args[0]) {
        MachineStatus(Plain, fmt[1..], args[1..]);
      }
    }
  }

  /** With an argument of the right kind for each conversion, do_printf reads beyond its format if
      and only if the format is cut short; without one, it is for want of an argument that the run
      goes wrong. */
  lemma OverrunExactly(fmt: CString, args: seq<Arg>)
    ensures Machine(Plain, fmt, args).status == NoArgument <==> !ArgsFit(Conversions(InText, fmt), args)
    ensures ArgsFit(Conversions(InText, fmt), args) ==>
              (Machine(Plain, fmt, args).status == Overrun <==> CutShort(InText, fmt))
  {
    hide Machine, ArgsFit, CutShort, Conversions;
    MachineStatus(Plain, fmt, args);
  }
}
