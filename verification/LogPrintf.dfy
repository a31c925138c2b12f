/** The log printf as it is coded: a state machine over the characters of the format. */
module LogPrintf {
  import opened Arithmetic
  import opened Numerals
  import opened LogFormat

  /** Less than the value there is room for one more place. */
  lemma PlaceGrows(v: U32, p: nat, base: nat)
    requires p >= 1 && base >= 2 && v / (p * base) > 0
    ensures 1 <= p * base <= v && 0 <= v / (p * base) / base < v / (p * base)
    ensures v / (p * base) / base == v / (p * base * base)
  {
    var q := p * base;
    MulLess(0, p, base);
    DivBounds(v, q);
    DivDiv(v, q, base);
    assert base * q == q * base;
    DivBounds(v / q, base);
    if v / q >= base {
      DivLess(v / q, base);
    }
  }

  /** The number of digits of v, and its largest place value.  The place value is kept in a
      32-bit variable and never outgrows it. */
  method CountDigits(v: U32, base: nat) returns (p: U32, count: nat)
    requires 2 <= base <= 16
    ensures count >= 1 && p == Power(base, count - 1)
    ensures v < Power(base, count) && (count > 1 ==> p <= v)
  {
    p, count := 1, 1;
    var shrink := v / base;
    while shrink > 0
      invariant count >= 1 && p == Power(base, count - 1) && p * base == Power(base, count)
      invariant shrink == v / (p * base)
      invariant count > 1 ==> p <= v
      decreases shrink
    {
      PlaceGrows(v, p, base);
      count := count + 1;
      p := p * base % WORD;
      shrink := shrink / base;
    }
    DivBounds(v, p * base);
  }

  /** The digits emitted so far, the value still to print and the number of places left. */
  ghost predicate Emitted(digits: seq<nat>, v: nat, left: nat, whole: nat, base: nat)
    requires base >= 2
  {
    && (forall i :: 0 <= i < |digits| ==> digits[i] < base)
    && v < Power(base, left)
    && Value(digits, base) * Power(base, left) + v == whole
  }

  lemma DigitFits(v: nat, p: nat, base: nat)
    requires p >= 1 && v < p * base
    ensures v / p < base
  {
    DivBounds(v, p);
    if v / p >= base {
      if v / p > base {
        MulLess(base, v / p, p);
      }
    }
  }

  lemma EmitOne(digits: seq<nat>, v: nat, left: nat, whole: nat, base: nat)
    requires base >= 2 && left > 0 && Emitted(digits, v, left, whole, base)
    ensures var p := Power(base, left - 1);
            && v / p < base
            && Emitted(digits + [v / p], v % p, left - 1, whole, base)
  {
    hide Value;
    var p := Power(base, left - 1);
    var d := v / p;
    DigitFits(v, p, base);
    DivBounds(v, p);
    ValueAppend(digits, d, base);
    var e := Value(digits, base);
    Regroup(e, d, base, p);
    assert base * p == p * base;
  }

  lemma EmitNone(v: nat, base: nat, count: nat)
    requires base >= 2 && v < Power(base, count)
    ensures Emitted([], v, count, v, base)
  {
  }

  lemma EmitAll(digits: seq<nat>, v: nat, whole: nat, base: nat)
    requires base >= 2 && Emitted(digits, v, 0, whole, base)
    requires |digits| > 0 && (|digits| > 1 ==> digits[0] != 0)
    ensures IsNumeral(digits, whole, base)
  {
    assert Power(base, 0) == 1;
  }

  /** One digit as the loop makes it: up from '0', and over the gap to the letters. */
  method PutDigit(d: nat, upper: bool) returns (c: char)
    requires d < 16
    ensures c == DigitChar(d, upper)
  {
    var code := d + '0' as int;
    if code > '9' as int {
      code := code + (if upper then 'A' else 'a') as int - '0' as int - 10;
    }
    c := code as char;
  }

  lemma NextPlace(base: nat, left: nat)
    requires base >= 2 && left > 0
    ensures Power(base, left - 1) / base == if left > 1 then Power(base, left - 2) else 0
  {
    if left > 1 {
      DivModUnique(Power(base, left - 2), 0, base);
    }
  }

  datatype State = Chars | FirstFmtChar | OtherFmtChar

  /** One call of the log printf: its local variables, the arguments it has not taken yet, and
      the characters that have gone to the port. */
  class Printer {
    var out: string
    var args: seq<Arg>
    var state: State
    var leadingZero: bool
    var beforeDecimal: int
    var afterDecimal: int
    var base: nat
    var signed: bool
    var upper: bool

    constructor (args: seq<Arg>)
      ensures out == "" && this.args == args
    {
      out := "";
      this.args := args;
      state := Chars;
      leadingZero, signed, upper := false, false, false;
      beforeDecimal, afterDecimal, base := 0, 0, 0;
    }

    method TxChar(c: char)
      modifies `out
      ensures out == old(out) + [c]
    {
      out := out + [c];
    }

    method RepChar(c: char, r: int)
      requires -INT_MAX <= r <= INT_MAX
      modifies `out
      ensures out == old(out) + Repeat(c, r)
    {
      var left := r;
      while left > 0
        invariant left <= Max(r, 0) && (r > 0 ==> 0 <= left)
        invariant out == old(out) + Repeat(c, if r > 0 then r - left else 0)
      {
        left := left - 1;
        TxChar(c);
      }
    }

    /** Prints exactly `count` digits, which are the numeral of v. */
    method PutDigits(v0: U32, p0: U32, ghost count: nat)
      requires 2 <= base <= 16
      requires count >= 1 && p0 == Power(base, count - 1)
      requires v0 < Power(base, count) && (count > 1 ==> p0 <= v0)
      modifies `out
      ensures out == old(out) + Written(v0, base, upper)
      ensures |Numeral(v0, base)| == count
    {
      hide Power, Value, Numeral, Emitted, Numerals.Chars;
      var v: U32, p: U32 := v0, p0;
      ghost var digits: seq<nat> := [];
      ghost var left: nat := count;
      EmitNone(v0, base, count);
      CharsOfNone(upper);
      while p > 0
        invariant |digits| + left == count
        invariant p == if left > 0 then Power(base, left - 1) else 0
        invariant Emitted(digits, v, left, v0, base)
        invariant digits == [] ==> v == v0
        invariant count > 1 && digits != [] ==> digits[0] != 0
        invariant forall i :: 0 <= i < |digits| ==> digits[i] < base
        invariant out == old(out) + Numerals.Chars(digits, upper)
        decreases left
      {
        EmitOne(digits, v, left, v0, base);
        NextPlace(base, left);
        DivBounds(v, p);
        var d := v / p;
        CharsAppend(digits, d, upper);
        var c := PutDigit(d, upper);
        TxChar(c);
        digits := digits + [d];
        v := v % p;
        p := p / base;
        left := left - 1;
      }
      EmitAll(digits, v, v0, base);
      NumeralUnique(digits, Numeral(v0, base), v0, base);
    }

    /** The padding and the sign, in the order that the zero flag asks for. */
    method PutLeader(sign: bool, digitCount: nat)
      requires digitCount <= 32 && -1 <= beforeDecimal <= INT_MAX
      modifies `out, `beforeDecimal
      ensures out == old(out) + Leader(leadingZero, old(beforeDecimal) - digitCount, if sign then "-" else "")
    {
      hide Repeat;
      beforeDecimal := beforeDecimal - digitCount;
      if leadingZero {
        if sign {
          TxChar('-');
          beforeDecimal := beforeDecimal - 1;
        }
        RepChar('0', beforeDecimal);
      } else {
        if sign {
          beforeDecimal := beforeDecimal - 1;
        }
        RepChar(' ', beforeDecimal);
        if sign {
          TxChar('-');
        }
      }
    }

    /** Takes the value, and turns it round if it counts as negative. */
    method StripSign(ghost letter: char) returns (v: U32, sign: bool)
      requires signed == (letter in "di")
      requires args != [] && args[0].Word?
      modifies `args
      ensures v == Magnitude(letter, old(args[0].v))
      ensures sign == Negative(letter, old(args[0].v))
      ensures args == old(args[1..])
    {
      v := args[0].v;
      args := args[1..];
      sign := false;
      if signed && v >= 0x8000_0000 {
        v := (WORD - 1 - v + 1) % WORD;
        sign := true;
      }
    }

    /** The integer conversions, with the base, signedness and case that the letter has set. */
    method IntegerPrint(ghost letter: char)
      requires IsInteger(letter) && base == Base(letter) && signed == (letter in "di") && upper == (letter == 'X')
      requires args != [] && args[0].Word?
      requires -1 <= beforeDecimal <= INT_MAX
      modifies `out, `args, `beforeDecimal
      ensures out == old(out) + Integer(leadingZero, old(beforeDecimal), letter, old(args[0].v))
      ensures args == old(args[1..])
    {
      hide Power, Numeral, Leader, Integer, Repeat, Magnitude, Negative, Written;
      ghost var v0, width := args[0].v, beforeDecimal;
      var v, sign := StripSign(letter);
      var p, digitCount := CountDigits(v, base);
      CountIsSmall(v, base, digitCount);
      PutLeader(sign, digitCount);
      PutDigits(v, p, digitCount);
      IntegerIsLeaderAndDigits(leadingZero, width, letter, v0);
    }

    method CharPrint()
      requires args != [] && args[0].Character?
      requires -1 <= beforeDecimal <= INT_MAX
      modifies `out, `args
      ensures out == old(out) + Field(leadingZero, beforeDecimal, 'c', old(args[0]))
      ensures args == old(args[1..])
    {
      hide Repeat;
      RepChar(' ', beforeDecimal - 1);
      TxChar(args[0].c);
      args := args[1..];
    }

    method StringPrint()
      requires args != [] && Fits('s', args[0])
      requires -1 <= beforeDecimal <= INT_MAX
      modifies `out, `args
      ensures out == old(out) + Field(leadingZero, beforeDecimal, 's', old(args[0]))
      ensures args == old(args[1..])
    {
      hide Repeat;
      var s := args[0].s;
      args := args[1..];
      RepChar(' ', beforeDecimal - |s|);
      var i := 0;
      while i < |s|
        invariant 0 <= i <= |s| && args == old(args[1..])
        invariant out == old(out) + (Repeat(' ', beforeDecimal - |s|) + s[..i])
      {
        TxChar(s[i]);
        i := i + 1;
        assert s[..i] == s[..i - 1] + [s[i - 1]];
      }
      assert s[..i] == s;
    }

    /** The letter of a directive.  An unknown one prints nothing and takes nothing. */
    method Letter(c: char)
      requires Fresh() && -1 <= beforeDecimal <= INT_MAX
      requires TakesArg(c) ==> args != [] && Fits(c, args[0])
      modifies this
      ensures out == old(out) + old(if TakesArg(c) then Field(leadingZero, beforeDecimal, c, args[0]) else "")
      ensures args == old(if TakesArg(c) then args[1..] else args)
      ensures state == Chars
    {
      hide Repeat, Integer;
      if c == 'd' || c == 'i' {
        IntegerPrint(c);
      } else if c == 'u' {
        signed := false;
        IntegerPrint(c);
      } else if c == 'o' {
        signed, base := false, 8;
        IntegerPrint(c);
      } else if c == 'x' {
        signed, base := false, 16;
        IntegerPrint(c);
      } else if c == 'X' {
        signed, base, upper := false, 16, true;
        IntegerPrint(c);
      } else if c == 'c' {
        CharPrint();
      } else if c == 's' {
        StringPrint();
      }
      state := Chars;
    }

    /** The conversion settings are still those that the percent sign put there. */
    ghost predicate Fresh()
      reads this
    {
      base == 10 && signed && !upper
    }

    /** The rest of the format can be printed from here. */
    ghost predicate Expects(s: string)
      reads this
    {
      match state
      case Chars => Matches(s, args)
      case FirstFmtChar =>
        Fresh() && !leadingZero && beforeDecimal == -1 && afterDecimal == -1 && DirectiveMatches(s, args)
      case OtherFmtChar =>
        Fresh() && -1 <= beforeDecimal && -1 <= afterDecimal && FieldsMatch(s, beforeDecimal, afterDecimal, args)
    }

    /** What the rest of the format is meant to print from here. */
    ghost function ToCome(s: string): string
      requires Expects(s)
      reads this
    {
      match state
      case Chars => Render(s, args)
      case FirstFmtChar => RenderDirective(s, args)
      case OtherFmtChar => RenderFields(s, leadingZero, beforeDecimal, afterDecimal, args)
    }

    method OtherChar(c: char, ghost rest: string)
      requires state == OtherFmtChar && Expects([c] + rest)
      modifies this
      ensures Expects(rest) && out + ToCome(rest) == old(out + ToCome([c] + rest))
    {
      hide Field, Fits, TakesArg, Render;
      assert ([c] + rest)[1..] == rest;
      if c == '.' {
        afterDecimal := 0;
      } else if IsDigit(c) {
        var digit := DigitOf(c);
        if afterDecimal < 0 {
          if beforeDecimal < 0 {
            beforeDecimal := 0;
          } else {
            beforeDecimal := beforeDecimal * 10;
          }
          beforeDecimal := beforeDecimal + digit;
        } else {
          afterDecimal := afterDecimal * 10 + digit;
        }
      } else if c == 'l' {
      } else {
        Letter(c);
      }
    }

    /** One turn of the main loop keeps the promise of what will have been printed in the end. */
    method Turn(c: char, ghost rest: string)
      requires Expects([c] + rest)
      modifies this
      ensures Expects(rest) && out + ToCome(rest) == old(out + ToCome([c] + rest))
    {
      hide Scan, ScanFits, Field, Fits, TakesArg;
      assert ([c] + rest)[1..] == rest;
      match state
      case Chars =>
        if c == '%' {
          leadingZero, base, signed, upper := false, 10, true, false;
          beforeDecimal, afterDecimal := -1, -1;
          state := FirstFmtChar;
        } else {
          TxChar(c);
        }
      case FirstFmtChar =>
        if c == '0' {
          leadingZero := true;
          state := OtherFmtChar;
        } else if c == '%' {
          TxChar(c);
          state := Chars;
        } else {
          state := OtherFmtChar;
          OtherChar(c, rest);
        }
      case OtherFmtChar =>
        OtherChar(c, rest);
    }

    /** The state machine prints what the recursive reading of the format says. */
    method Printf(fmt: string)
      requires Matches(fmt, args)
      modifies this
      ensures out == old(out) + Render(fmt, old(args))
    {
      hide Matches, Render;
      state := Chars;
      var w := 0;
      assert fmt[0..] == fmt;
      while w < |fmt|
        invariant 0 <= w <= |fmt|
        invariant Expects(fmt[w..])
        invariant out + ToCome(fmt[w..]) == old(out) + Render(fmt, old(args))
      {
        assert fmt[w..] == [fmt[w]] + fmt[w + 1..];
        Turn(fmt[w], fmt[w + 1..]);
        w := w + 1;
      }
      NothingToCome();
      assert fmt[w..] == [];
    }

    lemma NothingToCome()
      requires Expects([])
      ensures ToCome([]) == []
    {
    }
  }

  /** What goes in front of the digits, given the room that the digits leave in the field. */
  ghost function Leader(zero: bool, room: int, sign: string): string {
    if zero then sign + Repeat('0', room - |sign|) else Repeat(' ', room - |sign|) + sign
  }

  lemma IntegerIsLeaderAndDigits(zero: bool, width: int, letter: char, v: U32)
    ensures var digits := Written(Magnitude(letter, v), Base(letter), letter == 'X');
            Integer(zero, width, letter, v) == Leader(zero, width - |digits|, Sign(letter, v)) + digits
  {
    hide Repeat, Written;
  }

  /** A 32-bit number has at most 32 digits. */
  lemma CountIsSmall(v: U32, base: nat, count: nat)
    requires base >= 2 && count >= 1 && (count > 1 ==> Power(base, count - 1) <= v)
    ensures count <= 32
  {
    if count > 32 {
      PowerGrows(base, count - 1);
      PowerMonotone(count - 1, 32);
      assert Power(2, 32) == WORD by { PowerOfTwo(); }
    }
  }

  lemma PowerOfTwo()
    ensures Power(2, 32) == WORD
  {
    assert Power(2, 8) == 256;
    assert Power(2, 16) == 0x1_0000;
    assert Power(2, 24) == 0x100_0000;
  }

  lemma {:induction false} PowerGrows(base: nat, k: nat)
    requires base >= 2
    ensures Power(base, k) >= Power(2, k)
  {
    if k > 0 {
      PowerGrows(base, k - 1);
      Times(Power(base, k - 1), base);
    }
  }

  lemma {:induction false} PowerMonotone(k: nat, j: nat)
    requires j <= k
    ensures Power(2, j) <= Power(2, k)
  {
    if j < k {
      PowerMonotone(k - 1, j);
    }
  }
}
