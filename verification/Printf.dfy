// do_printf of source/kernel/klib.c.
module Printf {
  import opened CStrings
  import opened PrintfModel

  const BUFLEN: nat := 16

  /** The output function, and the count of what has been put out. */
  class Printer {
    var out: string
    var count: nat

    constructor ()
      ensures out == "" && count == 0
    {
      out, count := "", 0;
    }

    ghost predicate Valid()
      reads this
    {
      count == |out| % WORD
    }

    /** fn (c, &ptr); count++ */
    method Emit(c: char)
      requires Valid()
      modifies this
      ensures Valid() && out == old(out) + [c]
    {
      out := out + [c];
      count := (count + 1) % WORD;
    }

    /** Padding up to the width that is left over. */
    method EmitPad(c: char, given: nat, actual: nat) returns (rest: nat)
      requires Valid()
      modifies this
      ensures Valid() && out == old(out) + Repeat(c, Pad(given, actual))
      ensures rest == if given > actual then actual else given
    {
      rest := given;
      ghost var n := 0;
      assert out == old(out) + Repeat(c, 0);
      while rest > actual
        invariant Valid() && n + rest == given && rest >= if given > actual then actual else given
        invariant out == old(out) + Repeat(c, n)
      {
        Emit(c);
        assert Repeat(c, n + 1) == Repeat(c, n) + [c];
        rest := rest - 1;
        n := n + 1;
      }
    }

    /** The string at a pointer. */
    method EmitString(s: CString)
      requires Valid()
      modifies this
      ensures Valid() && out == old(out) + s
    {
      var where := 0;
      while CharAt(s, where) != '\0'
        invariant where <= |s| && Valid() && out == old(out) + s[..where]
        decreases |s| - where
      {
        Emit(CharAt(s, where));
        where := where + 1;
      }
    }

    /** From the label EMIT2 on: the padding, the sign, the string; ws says that a minus sign belongs
        to the number, and sign that it has yet to be put out. */
    method EmitPadded(s: CString, f: Flags, sign: bool, actual: nat)
      requires Valid()
      modifies this
      ensures Valid()
      ensures var pad := Pad(f.width, actual);
              out == old(out) + ((if f.left then "" else Repeat(if f.zero then '0' else ' ', pad)) +
                                 (if sign then "-" else "") + s + (if f.left then Repeat(' ', pad) else ""))
    {
      var given := f.width;
      if !f.left {
        given := EmitPad(if f.zero then '0' else ' ', given, actual);
      }
      if sign {
        Emit('-');
      }
      EmitString(s);
      given := if given < actual then 0 else given - actual;
      given := EmitPad(' ', given, 0);
    }
  }

  /** The digits of a number, written into the buffer from its end. */
  method ToDigits(v: nat, radix: nat, upper: bool, buf: array<char>) returns (where: nat)
    requires buf.Length == BUFLEN && 8 <= radix <= 16 && v < WORD
    modifies buf
    ensures 4 <= where < BUFLEN && buf[BUFLEN - 1] == '\0' && buf[where..BUFLEN - 1] == Digits(v, radix, upper)
  {
    hide DigitChar;
    WordDigits(v, radix, upper);
    where := BUFLEN - 1;
    buf[where] := '\0';
    var num: nat := v;
    assert Digits(v, radix, upper) == Digits(num, radix, upper) + buf[where..BUFLEN - 1];
    while true
      invariant 0 < where < BUFLEN && buf[BUFLEN - 1] == '\0' && |Digits(v, radix, upper)| <= 11
      invariant Digits(v, radix, upper) == Digits(num, radix, upper) + buf[where..BUFLEN - 1]
      decreases num
    {
      var temp := num % radix;
      where := where - 1;
      ghost var done := buf[where + 1..BUFLEN - 1];
      buf[where] := DigitChar(temp, upper);
      assert buf[where..BUFLEN - 1] == [DigitChar(temp, upper)] + done;
      if num / radix == 0 {
        SmallDigits(num, radix, upper);
        break;
      }
      DigitsStep(num, radix, upper);
      num := num / radix;
    }
  }

  lemma SmallDigits(v: nat, radix: nat, upper: bool)
    requires 2 <= radix <= 16 && v / radix == 0
    ensures Digits(v, radix, upper) == [DigitChar(v % radix, upper)]
  {
    DivMod(v, radix);
  }

  lemma DigitsStep(v: nat, radix: nat, upper: bool)
    requires 2 <= radix <= 16 && v / radix != 0
    ensures Digits(v, radix, upper) == Digits(v / radix, radix, upper) + [DigitChar(v % radix, upper)]
    ensures v / radix < v
  {
    hide DigitChar;
    if v < radix {
      SmallQuotient(v, radix);
    } else {
      DigitsSplit(v, radix, upper);
    }
  }

  lemma SmallQuotient(v: nat, radix: nat)
    requires v < radix
    ensures v / radix == 0
  {
  }

  /** The pieces of a number in the order in which they are put out. */
  ghost function Layout(body: string, negative: bool, f: Flags): string {
    var pad := Pad(f.width, |body| + if negative then 1 else 0);
    var sign := if negative then "-" else "";
    var fill := if f.left then "" else Repeat(if f.zero then '0' else ' ', pad);
    (if f.zero then sign else "") +
    (fill + (if f.zero then "" else sign) + body + (if f.left then Repeat(' ', pad) else ""))
  }

  lemma LayoutShape(body: string, negative: bool, f: Flags)
    ensures var sign := if negative then "-" else "";
            var pad := Pad(f.width, |sign| + |body|);
            Layout(body, negative, f) ==
              if f.left then sign + body + Repeat(' ', pad)
              else if f.zero then sign + Repeat('0', pad) + body
              else Repeat(' ', pad) + sign + body
  {
    var sign := if negative then "-" else "";
    var pad := Pad(f.width, |sign| + |body|);
    hide Repeat, Pad;
    Shapes(sign, body, Repeat(if f.zero && !f.left then '0' else ' ', pad));
  }

  lemma NumberShape(v: int, radix: nat, upper: bool, f: Flags)
    requires 2 <= radix <= 16
    ensures NumberText(v, radix, upper, f.left, f.zero, f.width) == Layout(Digits(Abs(v), radix, upper), v < 0, f)
  {
    hide Digits, Repeat, Pad, Layout;
    LayoutShape(Digits(Abs(v), radix, upper), v < 0, f);
  }

  lemma Shapes(sign: string, body: string, pad: string)
    ensures sign + body + pad == sign + ("" + "" + body + pad)
    ensures sign + body + pad == "" + ("" + sign + body + pad)
    ensures sign + pad + body == sign + (pad + "" + body + "")
    ensures pad + sign + body == "" + (pad + sign + body + "")
  {
    assert sign + (body + pad) == sign + body + pad;
    assert sign + (pad + body) == sign + pad + body;
    assert "" + "" + body == body && "" + sign == sign && pad + "" == pad;
  }

  lemma Concat(a: string, b: string, c: string)
    ensures a + b + c == a + (b + c) && a + "" == a && "" + a == a && "" + b == b && c + "" == c
    ensures a + (b + c) == a + ("" + b + c) == a + (b + "" + c) == a + (b + c + "") == "" + (a + b + c)
    ensures a + b + c + "" == a + b + c && "" + a + b + c == a + b + c && a + "" + b + c == a + b + c
  {
  }

  /** EMIT: a minus sign before zeroes comes first. */
  method EmitNumber(printer: Printer, s: CString, f: Flags, ws: bool)
    requires printer.Valid()
    modifies printer
    ensures printer.Valid() && printer.out == old(printer.out) + Layout(s, ws, f)
  {
    hide Repeat, Pad;
    var actual := |s|;
    if ws {
      actual := actual + 1;
    }
    if ws && f.zero {
      printer.Emit('-');
    }
    printer.EmitPadded(s, f, ws && !f.zero, actual);
  }

  /** A numeric conversion: DO_NUM. */
  method PrintNumber(printer: Printer, c: char, f: Flags, w: nat)
    requires printer.Valid() && IsNumeric(c) && w < WORD
    modifies printer
    ensures printer.Valid() && printer.out == old(printer.out) + Shown(c, f, Number(w))
  {
    hide Digits, Layout, NumberText, Load, IsNumeric, IsSigned, Radix;
    SignedLoad(w, c, f);
    ShownNumber(c, f, w);
    NumberShape(Load(w, c, f), Radix(c), c == 'X', f);
    var num := Load(w, c, f);
    var ws := false;
    if IsSigned(c) && num < 0 {
      ws := true;
      num := -num;
    }
    var buf := new char[BUFLEN];
    var where := ToDigits(num, Radix(c), c == 'X', buf);
    EmitNumber(printer, buf[where..BUFLEN - 1], f, ws);
  }

  lemma SignedLoad(w: nat, c: char, f: Flags)
    requires w < WORD
    ensures Load(w, c, f) < 0 ==> IsSigned(c)
  {
  }

  lemma ShownNumber(c: char, f: Flags, w: nat)
    requires IsNumeric(c) && w < WORD
    ensures IsConversion(c) && Fits(c, Number(w))
    ensures Shown(c, f, Number(w)) == NumberText(Load(w, c, f), Radix(c), c == 'X', f.left, f.zero, f.width)
  {
  }

  /** The conversions of characters and strings, which are never padded with zeroes. */
  method PrintPlain(printer: Printer, s: CString, f: Flags, actual: nat)
    requires printer.Valid()
    modifies printer
    ensures printer.Valid() && printer.out == old(printer.out) + PlainText(s, actual, f.left, f.width)
  {
    hide Repeat, Pad;
    var pad := Repeat(' ', Pad(f.width, actual));
    Concat(pad, "", s);
    Concat("", s, pad);
    printer.EmitPadded(s, f.(zero := false), false, actual);
  }

  /** State 4: the conversion; ok is false if the argument is missing or of the wrong kind. */
  method Convert(printer: Printer, c: char, f: Flags, args: seq<Arg>) returns (ok: bool, rest: seq<Arg>)
    requires printer.Valid()
    modifies printer
    ensures printer.Valid() && ok == (!IsConversion(c) || (|args| > 0 && Fits(c, args[0])))
    ensures printer.out == old(printer.out) + if ok && IsConversion(c) then Shown(c, f, args[0]) else ""
    ensures rest == if ok && IsConversion(c) then args[1..] else args
  {
    hide NumberText, PlainText, CharText, Load;
    if !IsConversion(c) {
      return true, args;
    }
    if |args| == 0 || !Fits(c, args[0]) {
      return false, args;
    }
    if c == 'c' {
      PrintPlain(printer, CharText(args[0].w), f, 1);
    } else if c == 's' {
      PrintPlain(printer, args[0].s, f, |args[0].s|);
    } else {
      PrintNumber(printer, c, f, args[0].w);
    }
    return true, args[1..];
  }

  function NoFlags(): Flags {
    Flags(false, false, 0, false, false)
  }

  /** What remains to be done, for the variables of the loop of do_printf. */
  ghost function Rest(state: nat, f: Flags, p: CString, args: seq<Arg>): Run {
    match state
    case 0 => Machine(Plain, p, args)
    case 1 => Machine(Dash, p, args)
    case 2 => Machine(Width(f.left, f.zero, f.width), p, args)
    case _ => Machine(Modifiers(f), p, args)
  }

  ghost predicate Agree(state: nat, f: Flags) {
    && (state == 0 ==> f == NoFlags()) && (state == 1 ==> f == NoFlags().(left := true))
    && (state == 2 ==> !f.long && !f.short) && state <= 3
  }

  lemma Gather(out: string, text: string, r: Run)
    ensures Put(out, Put(text, r)) == Put(out + text, r) && Put(out + "", r) == Put(out, r)
  {
    assert out + (text + r.text) == out + text + r.text;
    assert out + "" == out;
  }

  /** do_printf: the result is the number of characters put out, as a 32-bit word. */
  method DoPrintf(fmt: CString, arguments: seq<Arg>) returns (r: Run, count: nat)
    ensures r == Machine(Plain, fmt, arguments) && count == |r.text| % WORD
  {
    var printer := new Printer();
    var p, args, state, f := fmt, arguments, 0, NoFlags();
    var status := Done;
    ghost var all := Machine(Plain, fmt, arguments);
    assert Put("", all) == all;
    while CharAt(p, 0) != '\0'
      invariant printer.Valid() && fresh(printer) && Agree(state, f) && status == Done
      invariant all == Put(printer.out, Rest(state, f, p, args))
      decreases |p|
    {
      state, f, p, args, status := Round(printer, state, f, p, args);
      if status != Done {
        break;
      }
    }
    assert all == Put(printer.out, Run("", status));
    return Run(printer.out, status), printer.count;
  }

  /** One round of the loop of do_printf. */
  method Round(printer: Printer, state: nat, f: Flags, p: CString, args: seq<Arg>)
    returns (state': nat, f': Flags, p': CString, args': seq<Arg>, status: Status)
    requires printer.Valid() && Agree(state, f) && |p| > 0
    modifies printer
    ensures printer.Valid() && Agree(state', f') && (status == Done ==> |p'| < |p|)
    ensures Put(old(printer.out), Rest(state, f, p, args)) ==
            Put(printer.out, if status == Done then Rest(state', f', p', args') else Run("", status))
  {
    state', f', p', args', status := state, f, p, args, Done;
    ghost var rest := Rest(state, f, p, args);
    if state' == 0 {
      if CharAt(p', 0) != '%' {
        printer.Emit(CharAt(p', 0));
        p' := p'[1..];
        Gather(old(printer.out), [p[0]], Rest(0, f', p', args'));
        return;
      }
      state' := 1;
      p' := p'[1..];
    }
    if state' == 1 {
      assert rest == AtFlags(f'.left, p', args');
      if CharAt(p', 0) == '%' {
        printer.Emit('%');
        state', f' := 0, NoFlags();
        p' := p'[1..];
        Gather(old(printer.out), "%", Rest(0, f', p', args'));
        return;
      }
      if CharAt(p', 0) == '-' {
        if f'.left {
          state', f' := 0, NoFlags();
        } else {
          f' := f'.(left := true);
        }
        p' := p'[1..];
        return;
      }
      state' := 2;
      if CharAt(p', 0) == '0' {
        f' := f'.(zero := true);
        p' := p'[1..];
      }
    }
    assert state' == 2 ==> rest == AtWidth(f'.left, f'.zero, f'.width, p', args');
    state', f', p', args', status := Later(printer, state', f', p', args', rest);
  }

  /** The round from state 2 on. */
  method Later(printer: Printer, state: nat, f: Flags, p: CString, args: seq<Arg>, ghost rest: Run)
    returns (state': nat, f': Flags, p': CString, args': seq<Arg>, status: Status)
    requires printer.Valid() && 2 <= state <= 3 && Agree(state, f)
    requires state == 2 ==> rest == AtWidth(f.left, f.zero, f.width, p, args)
    requires state == 3 ==> rest == AtModifiers(f, p, args)
    modifies printer
    ensures printer.Valid() && Agree(state', f') && (status == Done ==> |p'| < |p|)
    ensures Put(old(printer.out), rest) ==
            Put(printer.out, if status == Done then Rest(state', f', p', args') else Run("", status))
  {
    state', f', p', args', status := state, f, p, args, Done;
    if state' == 2 {
      if IsDigit(CharAt(p', 0)) {
        f' := f'.(width := AddDigit(f'.width, p'[0]));
        p' := p'[1..];
        return;
      }
      state' := 3;
    }
    if IsModifier(CharAt(p', 0)) {
      f' := AddModifier(f', p'[0]);
      p' := p'[1..];
      return;
    }
    assert rest == AtConversion(f', p', args');
    var ok;
    ok, args' := Convert(printer, CharAt(p', 0), f', args');
    if !ok {
      status := NoArgument;
      return;
    }
    if |p'| == 0 {
      status := Overrun;
      return;
    }
    Gather(old(printer.out), printer.out[|old(printer.out)|..], Machine(Plain, p'[1..], args'));
    state', f' := 0, NoFlags();
    p' := p'[1..];
  }
}
