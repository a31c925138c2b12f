/** What the log printf is meant to print: a recursive reading of its format strings.  Strings
    are given by their characters, without the terminating null. */
module LogFormat {
  import opened Arithmetic
  import opened Numerals

  /** One element of the argument list. */
  datatype Arg = Word(v: U32) | Character(c: char) | Text(s: string)

  predicate IsDigit(c: char) {
    '0' <= c <= '9'
  }

  function DigitOf(c: char): nat
    requires IsDigit(c)
  {
    c as int - '0' as int
  }

  /** The width or precision after one more digit; -1 stands for "none so far". */
  function WithDigit(field: int, c: char): int
    requires IsDigit(c)
  {
    (if field < 0 then 0 else field * 10) + DigitOf(c)
  }

  /** What follows the flag of a directive: a width, or nothing but the end of the format. */
  datatype Fields = Unfinished | Fields(width: int, letter: char, rest: string)

  function Scan(s: string, width: int, precision: int): (f: Fields)
    ensures f.Fields? ==> |f.rest| < |s|
  {
    if s == [] then Unfinished
    else if s[0] == '.' then Scan(s[1..], width, 0)
    else if IsDigit(s[0]) then
      if precision < 0 then Scan(s[1..], WithDigit(width, s[0]), precision)
      else Scan(s[1..], width, WithDigit(precision, s[0]))
    else if s[0] == 'l' then Scan(s[1..], width, precision)
    else Fields(width, s[0], s[1..])
  }

  /** Every number read on the way fits an int. */
  predicate ScanFits(s: string, width: int, precision: int) {
    width <= INT_MAX && precision <= INT_MAX &&
    if s == [] then true
    else if s[0] == '.' then ScanFits(s[1..], width, 0)
    else if IsDigit(s[0]) then
      if precision < 0 then ScanFits(s[1..], WithDigit(width, s[0]), precision)
      else ScanFits(s[1..], width, WithDigit(precision, s[0]))
    else if s[0] == 'l' then ScanFits(s[1..], width, precision)
    else true
  }

  function Repeat(c: char, n: int): (s: string)
    ensures |s| == Max(n, 0)
  {
    if n <= 0 then [] else Repeat(c, n - 1) + [c]
  }

  predicate IsInteger(letter: char) { letter in "diuoxX" }

  /** The letters that take an argument, and the arguments that go with them. */
  predicate TakesArg(letter: char) { IsInteger(letter) || letter in "cs" }

  predicate Fits(letter: char, arg: Arg) {
    match arg
    case Word(_) => IsInteger(letter)
    case Character(_) => letter == 'c'
    case Text(s) => letter == 's' && |s| < INT_MAX
  }

  function Base(letter: char): (base: nat)
    ensures 2 <= base <= 16
  {
    if letter == 'o' then 8 else if letter in "xX" then 16 else 10
  }

  /** Signed conversions read bit 31 as a sign. */
  predicate Negative(letter: char, v: U32) { letter in "di" && v >= 0x8000_0000 }

  function Magnitude(letter: char, v: U32): U32 {
    if Negative(letter, v) then WORD - v else v
  }

  function Sign(letter: char, v: U32): string {
    if Negative(letter, v) then "-" else ""
  }

  /** An integer in a field: the sign before padding zeros and after padding spaces. */
  function Integer(zero: bool, width: int, letter: char, v: U32): string {
    var digits := Written(Magnitude(letter, v), Base(letter), letter == 'X');
    var pad := width - |digits| - |Sign(letter, v)|;
    if zero then Sign(letter, v) + Repeat('0', pad) + digits
    else Repeat(' ', pad) + Sign(letter, v) + digits
  }

  /** One directive: an unknown letter prints nothing. */
  function Field(zero: bool, width: int, letter: char, arg: Arg): string
    requires Fits(letter, arg)
  {
    match arg
    case Word(v) => Integer(zero, width, letter, v)
    case Character(c) => Repeat(' ', width - 1) + [c]
    case Text(s) => Repeat(' ', width - |s|) + s
  }

  /** What a directive prints without padding. */
  function Natural(letter: char, arg: Arg): string
    requires Fits(letter, arg)
  {
    match arg
    case Word(v) => Sign(letter, v) + Written(Magnitude(letter, v), Base(letter), letter == 'X')
    case Character(c) => [c]
    case Text(s) => s
  }

  /** The arguments go with the format. */
  predicate Matches(fmt: string, args: seq<Arg>)
    decreases |fmt|, 1
  {
    if fmt == [] then true
    else if fmt[0] != '%' then Matches(fmt[1..], args)
    else DirectiveMatches(fmt[1..], args)
  }

  predicate DirectiveMatches(s: string, args: seq<Arg>)
    decreases |s|, 2
  {
    if s == [] then true
    else if s[0] == '%' then Matches(s[1..], args)
    else if s[0] == '0' then FieldsMatch(s[1..], -1, -1, args)
    else FieldsMatch(s, -1, -1, args)
  }

  predicate FieldsMatch(s: string, width: int, precision: int, args: seq<Arg>)
    decreases |s|, 0
  {
    && ScanFits(s, width, precision)
    && match Scan(s, width, precision)
       case Unfinished => true
       case Fields(_, letter, rest) =>
         if TakesArg(letter) then args != [] && Fits(letter, args[0]) && Matches(rest, args[1..])
         else Matches(rest, args)
  }

  /** The output for a format and its arguments. */
  function Render(fmt: string, args: seq<Arg>): string
    requires Matches(fmt, args)
    decreases |fmt|, 1
  {
    if fmt == [] then []
    else if fmt[0] != '%' then [fmt[0]] + Render(fmt[1..], args)
    else RenderDirective(fmt[1..], args)
  }

  /** The same, just after a percent sign. */
  function RenderDirective(s: string, args: seq<Arg>): string
    requires DirectiveMatches(s, args)
    decreases |s|, 2
  {
    if s == [] then []
    else if s[0] == '%' then "%" + Render(s[1..], args)
    else if s[0] == '0' then RenderFields(s[1..], true, -1, -1, args)
    else RenderFields(s, false, -1, -1, args)
  }

  /** The same, after the flag of a directive. */
  function RenderFields(s: string, zero: bool, width: int, precision: int, args: seq<Arg>): string
    requires FieldsMatch(s, width, precision, args)
    decreases |s|, 0
  {
    match Scan(s, width, precision)
    case Unfinished => []
    case Fields(w, letter, rest) =>
      if TakesArg(letter) then Field(zero, w, letter, args[0]) + Render(rest, args[1..])
      else Render(rest, args)
  }

  lemma RepeatChars(c: char, n: int)
    ensures forall i :: 0 <= i < |Repeat(c, n)| ==> Repeat(c, n)[i] == c
  {
  }

  /** `text` at the right end of a field, with `fill` between it and `front`. */
  predicate Filled(f: string, front: string, fill: char, text: string) {
    && |f| >= |front| + |text|
    && f[..|front|] == front
    && f[|f| - |text|..] == text
    && forall i :: |front| <= i < |f| - |text| ==> f[i] == fill
  }

  lemma FilledByRepeat(front: string, fill: char, n: int, text: string)
    ensures Filled(front + Repeat(fill, n) + text, front, fill, text)
  {
    RepeatChars(fill, n);
    var f := front + Repeat(fill, n) + text;
    assert f[..|front|] == front;
    assert f[|f| - |text|..] == text;
    forall i | |front| <= i < |f| - |text| ensures f[i] == fill {
      assert f[i] == Repeat(fill, n)[i - |front|];
    }
  }

  /** Every directive fills exactly its field: as wide as asked for, or as wide as it takes; the
      padding is spaces in front of everything, or zeros between sign and digits. */
  lemma FieldFillsWidth(zero: bool, width: int, letter: char, arg: Arg)
    requires Fits(letter, arg)
    ensures |Field(zero, width, letter, arg)| == Max(width, |Natural(letter, arg)|)
    ensures !(zero && arg.Word?) ==> Filled(Field(zero, width, letter, arg), "", ' ', Natural(letter, arg))
    ensures zero && arg.Word? ==>
              Filled(Field(zero, width, letter, arg), Sign(letter, arg.v), '0',
                     Natural(letter, arg)[|Sign(letter, arg.v)|..])
  {
    hide Repeat, Filled, Written, Integer;
    var n := Natural(letter, arg);
    if arg.Word? {
      if zero {
        IntegerZeros(width, letter, arg.v);
      } else {
        IntegerSpaces(width, letter, arg.v);
      }
    } else {
      FilledByRepeat("", ' ', width - |n|, n);
      assert "" + Repeat(' ', width - |n|) == Repeat(' ', width - |n|);
    }
  }

  lemma SpacesFill(width: int, sign: string, digits: string)
    ensures var n := sign + digits;
            var f := Repeat(' ', width - |digits| - |sign|) + sign + digits;
            |f| == Max(width, |n|) && Filled(f, "", ' ', n)
  {
    hide Repeat, Filled;
    var n, pad := sign + digits, width - |digits| - |sign|;
    FilledByRepeat("", ' ', pad, n);
    assert "" + Repeat(' ', pad) + n == Repeat(' ', pad) + sign + digits;
  }

  lemma ZerosFill(width: int, sign: string, digits: string)
    ensures var n := sign + digits;
            var f := sign + Repeat('0', width - |digits| - |sign|) + digits;
            |f| == Max(width, |n|) && Filled(f, sign, '0', n[|sign|..])
  {
    hide Repeat, Filled;
    FilledByRepeat(sign, '0', width - |digits| - |sign|, digits);
    assert (sign + digits)[|sign|..] == digits;
  }

  lemma IntegerSpaces(width: int, letter: char, v: U32)
    requires Fits(letter, Word(v))
    ensures var f, n := Integer(false, width, letter, v), Natural(letter, Word(v));
            |f| == Max(width, |n|) && Filled(f, "", ' ', n)
  {
    hide Repeat, Filled, Written, Numeral, Sign, Magnitude, Base;
    SpacesFill(width, Sign(letter, v), Written(Magnitude(letter, v), Base(letter), letter == 'X'));
  }

  lemma IntegerZeros(width: int, letter: char, v: U32)
    requires Fits(letter, Word(v))
    ensures var f, n, sign := Integer(true, width, letter, v), Natural(letter, Word(v)), Sign(letter, v);
            |f| == Max(width, |n|) && |sign| <= |n| && Filled(f, sign, '0', n[|sign|..])
  {
    hide Repeat, Filled, Written, Numeral, Sign, Magnitude, Base;
    ZerosFill(width, Sign(letter, v), Written(Magnitude(letter, v), Base(letter), letter == 'X'));
  }

  /** A signed conversion prints the number that the 32 bits stand for, -2^31 included. */
  lemma SignedValue(v: U32)
    ensures var signed := if v < 0x8000_0000 then v else v - WORD;
            && (Negative('d', v) <==> signed < 0)
            && Magnitude('d', v) == (if signed < 0 then -signed else signed)
            && Magnitude('d', 0x8000_0000) == 0x8000_0000
  {
  }
}
