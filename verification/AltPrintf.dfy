/** The minimal printf of the library, whose hex conversion works by masks and shifts. */
module AltPrintf {
  import opened Arithmetic
  import opened Numerals
  import opened LogFormat

  /** The four bits of v at a shift of 4k, in place: v & (0xF << 4k). */
  function Masked(v: U32, k: nat): nat
    requires k < 8
  {
    v / Power(16, k) % 16 * Power(16, k)
  }

  /** On 32-bit words the mask is that product, and shifting it down gives the digit. */
  lemma MaskIsDigit(v: bv32)
    ensures v & (0xF << 28) == v / 0x1000_0000 % 16 * 0x1000_0000
    ensures v & (0xF << 24) == v / 0x100_0000 % 16 * 0x100_0000
    ensures v & (0xF << 20) == v / 0x10_0000 % 16 * 0x10_0000
    ensures v & (0xF << 16) == v / 0x1_0000 % 16 * 0x1_0000
    ensures v & (0xF << 12) == v / 0x1000 % 16 * 0x1000
    ensures v & (0xF << 8) == v / 0x100 % 16 * 0x100
    ensures v & (0xF << 4) == v / 0x10 % 16 * 0x10
    ensures v & 0xF == v % 16
  {
  }

  lemma ShiftedDown(v: U32, k: nat)
    requires k < 8
    ensures Masked(v, k) / Power(16, k) == v / Power(16, k) % 16
    ensures Masked(v, k) == 0 <==> v / Power(16, k) % 16 == 0
  {
    DivModUnique(v / Power(16, k) % 16, 0, Power(16, k));
  }

  /** The arguments go with the format. */
  predicate AltMatches(fmt: string, args: seq<Arg>) {
    if fmt == [] then true
    else if fmt[0] != '%' then AltMatches(fmt[1..], args)
    else if |fmt| == 1 then true
    else if fmt[1] in "xcs" then args != [] && Fits(fmt[1], args[0]) && AltMatches(fmt[2..], args[1..])
    else AltMatches(fmt[2..], args)
  }

  function Conversion(letter: char, arg: Arg): string
    requires letter in "xcs" && Fits(letter, arg)
  {
    match arg
    case Word(v) => Written(v, 16, false)
    case Character(c) => [c]
    case Text(s) => s
  }

  /** The output for a format: an unknown directive prints nothing and takes nothing. */
  function AltRender(fmt: string, args: seq<Arg>): string
    requires AltMatches(fmt, args)
  {
    if fmt == [] then []
    else if fmt[0] != '%' then [fmt[0]] + AltRender(fmt[1..], args)
    else if |fmt| == 1 then []
    else if fmt[1] in "xcs" then Conversion(fmt[1], args[0]) + AltRender(fmt[2..], args[1..])
    else (if fmt[1] == '%' then "%" else "") + AltRender(fmt[2..], args)
  }

  class AltPrinter {
    var out: string
    var args: seq<Arg>

    method PutChar(c: char)
      modifies `out
      ensures out == old(out) + [c]
    {
      out := out + [c];
    }

    /** The hex conversion: skip the zero digits at the top, then print what is left. */
    method Hex(v: U32)
      modifies `out
      ensures out == old(out) + Written(v, 16, false)
    {
      if v == 0 {
        PutChar('0');
        return;
      }
      var shift := HighestDigit(v);
      PutFrom(v, shift);
    }

    method PutFrom(v: U32, top: nat)
      requires top < 8
      requires 1 <= v / Power(16, top) < 16
      modifies `out
      ensures out == old(out) + Written(v, 16, false)
    {
      hide Power, Masked, Value, Numeral, Numerals.Chars;
      var k: int := top;
      ghost var digits: seq<nat> := [];
      CharsOfNone(false);
      NothingAbove(v, top);
      while k >= 0
        invariant -1 <= k <= top
        invariant digits == [] <==> k == top
        invariant forall i :: 0 <= i < |digits| ==> digits[i] < 16
        invariant digits != [] ==> digits[0] == v / Power(16, top) % 16
        invariant Value(digits, 16) == v / Power(16, k + 1)
        invariant out == old(out) + Numerals.Chars(digits, false)
      {
        ShiftedDown(v, k);
        OneDown(v, k, digits);
        var digit := Masked(v, k) / Power(16, k);
        var c := if digit <= 9 then '0' as int + digit else 'a' as int + digit - 10;
        CharsAppend(digits, digit, false);
        PutChar(c as char);
        digits := digits + [digit];
        k := k - 1;
      }
      assert Power(16, 0) == 1 by { PowerZero(); }
      NumeralUnique(digits, Numeral(v, 16), v, 16);
    }

    /** The whole of it: the loop over the format. */
    method Printf(fmt: string)
      requires AltMatches(fmt, args)
      modifies this
      ensures out == old(out) + AltRender(fmt, old(args))
    {
      hide AltMatches, AltRender, Fits, Conversion;
      var w := 0;
      assert fmt[0..] == fmt;
      while w < |fmt|
        invariant 0 <= w <= |fmt|
        invariant AltMatches(fmt[w..], args)
        invariant out + AltRender(fmt[w..], args) == old(out) + AltRender(fmt, old(args))
        decreases |fmt| - w
      {
        var c := fmt[w];
        ghost var now := fmt[w..];
        w := w + 1;
        assert fmt[w..] == now[1..];
        Unfold(now, args);
        if c != '%' {
          PutChar(c);
        } else if w < |fmt| {
          c := fmt[w];
          w := w + 1;
          assert c == now[1] && fmt[w..] == now[2..];
          if c == '%' {
            PutChar(c);
          } else if c in "cxs" {
            Convert(c);
          }
        } else {
          break;
        }
      }
      RenderNone(fmt[w..], args);
    }

    method Convert(c: char)
      requires c in "xcs" && args != [] && Fits(c, args[0])
      modifies this
      ensures out == old(out) + Conversion(c, old(args[0])) && args == old(args[1..])
    {
      hide Written;
      var arg := args[0];
      args := args[1..];
      if c == 'c' {
        PutChar(arg.c);
      } else if c == 'x' {
        Hex(arg.v);
      } else {
        var i := 0;
        while i < |arg.s|
          invariant 0 <= i <= |arg.s| && args == old(args[1..])
          invariant out == old(out) + arg.s[..i]
        {
          PutChar(arg.s[i]);
          i := i + 1;
          assert arg.s[..i] == arg.s[..i - 1] + [arg.s[i - 1]];
        }
        assert arg.s[..i] == arg.s;
      }
    }
  }

  lemma Unfold(fmt: string, args: seq<Arg>)
    requires fmt != [] && AltMatches(fmt, args)
    ensures fmt[0] != '%' ==>
              AltMatches(fmt[1..], args) && AltRender(fmt, args) == [fmt[0]] + AltRender(fmt[1..], args)
    ensures fmt[0] == '%' && |fmt| > 1 && fmt[1] in "xcs" ==>
              && args != [] && Fits(fmt[1], args[0]) && AltMatches(fmt[2..], args[1..])
              && AltRender(fmt, args) == Conversion(fmt[1], args[0]) + AltRender(fmt[2..], args[1..])
    ensures fmt[0] == '%' && |fmt| > 1 && fmt[1] !in "xcs" ==>
              && AltMatches(fmt[2..], args)
              && AltRender(fmt, args) == (if fmt[1] == '%' then "%" else "") + AltRender(fmt[2..], args)
    ensures fmt == "%" ==> AltMatches([], args) && AltRender(fmt, args) == AltRender([], args)
  {
  }

  lemma RenderNone(fmt: string, args: seq<Arg>)
    requires fmt == [] && AltMatches(fmt, args)
    ensures AltRender(fmt, args) == []
  {
  }

  /** The place of the first digit that is not zero. */
  method HighestDigit(v: U32) returns (k: nat)
    requires v > 0
    ensures k < 8 && 1 <= v / Power(16, k) < 16
  {
    hide Power, Masked;
    k := 7;
    assert v / Power(16, 8) == 0 by { EightDigits(v); }
    while Masked(v, k) == 0
      invariant k < 8 && v / Power(16, k + 1) == 0
      decreases k
    {
      ShiftedDown(v, k);
      Step(v, k);
      if k == 0 {
        PowerZero();
      }
      k := k - 1;
    }
    ShiftedDown(v, k);
    Step(v, k);
  }

  lemma PowerZero()
    ensures Power(16, 0) == 1
  {
  }

  lemma EightDigits(v: U32)
    ensures v / Power(16, 8) == 0
  {
    assert Power(16, 4) == 0x1_0000;
    assert Power(16, 8) == WORD;
  }

  /** From the digits above place k + 1 to those above place k. */
  lemma Step(v: nat, k: nat)
    ensures v / Power(16, k) == v / Power(16, k + 1) * 16 + v / Power(16, k) % 16
  {
    DivDiv(v, Power(16, k), 16);
  }

  lemma NothingAbove(v: U32, top: nat)
    requires v / Power(16, top) < 16
    ensures v / Power(16, top + 1) == Value([], 16) == 0
  {
    Step(v, top);
  }

  lemma OneDown(v: nat, k: nat, digits: seq<nat>)
    requires Value(digits, 16) == v / Power(16, k + 1)
    ensures Value(digits + [v / Power(16, k) % 16], 16) == v / Power(16, k)
  {
    Step(v, k);
    ValueAppend(digits, v / Power(16, k) % 16, 16);
  }

  /** An unknown letter prints nothing and takes no argument. */
  lemma UnknownPrintsNothing(c: char, rest: string, args: seq<Arg>)
    requires c !in "xcs%"
    ensures AltMatches("%" + [c] + rest, args) <==> AltMatches(rest, args)
    ensures AltMatches(rest, args) ==> AltRender("%" + [c] + rest, args) == AltRender(rest, args)
  {
    var fmt := "%" + [c] + rest;
    assert fmt[1] == c && fmt[2..] == rest;
  }

  /** Every percent sign is followed by one of the letters that the minimal printf knows, or by
      nothing. */
  predicate Plain(fmt: string) {
    if fmt == [] then true
    else if fmt[0] != '%' then Plain(fmt[1..])
    else |fmt| == 1 || (fmt[1] in "xcs%" && Plain(fmt[2..]))
  }

  /** On such formats the two printf's print the same characters from the same arguments: the
      shifts and the divisions make the same hex digits. */
  lemma {:induction false} PrintfsAgree(fmt: string, args: seq<Arg>)
    requires Plain(fmt)
    ensures AltMatches(fmt, args) <==> Matches(fmt, args)
    ensures AltMatches(fmt, args) ==> AltRender(fmt, args) == Render(fmt, args)
    decreases |fmt|
  {
    hide Fits, Field, Conversion, FieldsMatch, RenderFields;
    if fmt == [] {
    } else if fmt[0] != '%' {
      PrintfsAgree(fmt[1..], args);
    } else if |fmt| > 1 {
      var s := fmt[1..];
      assert s[1..] == fmt[2..];
      if s[0] == '%' {
        PrintfsAgree(fmt[2..], args);
      } else {
        PlainDirective(s, args);
        if args != [] && Fits(s[0], args[0]) {
          PrintfsAgree(fmt[2..], args[1..]);
          NoPadding(s[0], args[0]);
        }
      }
    }
  }

  /** Without flag, width and precision a directive is its letter. */
  lemma PlainDirective(s: string, args: seq<Arg>)
    requires s != [] && s[0] in "xcs"
    ensures DirectiveMatches(s, args) <==> args != [] && Fits(s[0], args[0]) && Matches(s[1..], args[1..])
    ensures DirectiveMatches(s, args) ==>
              RenderDirective(s, args) == Field(false, -1, s[0], args[0]) + Render(s[1..], args[1..])
  {
    hide Matches, Render, Field, Fits;
    assert Scan(s, -1, -1) == Fields(-1, s[0], s[1..]);
    assert ScanFits(s, -1, -1);
  }

  lemma NoPadding(letter: char, arg: Arg)
    requires letter in "xcs" && Fits(letter, arg)
    ensures Field(false, -1, letter, arg) == Conversion(letter, arg)
  {
    hide Written;
  }
}
