/** The formats of the log printf by their pieces: what each piece is spelled like, and what it is
    meant to print.  Reading a spelled format gives its pieces back. */
module LogSyntax {
  import opened Arithmetic
  import opened Numerals
  import opened LogFormat

  /** A character for itself, a percent sign, or a directive: with or without the flag, a width, a
      point with or without a precision, and an `l`.  -1 stands for no width and no precision. */
  datatype Piece =
    | Plain(c: char)
    | Percent
    | Directive(zero: bool, width: int, point: bool, precision: int, long: bool, letter: char)

  /** Widths have no leading zero, which would be the flag; all but the letter may be missing. */
  predicate Valid(p: Piece) {
    match p
    case Plain(c) => c != '%'
    case Percent => true
    case Directive(zero, width, point, precision, long, letter) =>
      && (width == -1 || 1 <= width <= INT_MAX)
      && (precision == -1 || (point && 0 <= precision <= INT_MAX))
      && !IsDigit(letter) && letter != '.' && letter != 'l'
      && (letter == '%' ==> zero || width != -1 || point || long)
  }

  function Decimal(n: int): string {
    if n < 0 then "" else Written(n, 10, false)
  }

  /** What stands between the flag and the rest of the format. */
  function Body(p: Piece): string
    requires p.Directive?
  {
    Decimal(p.width) + ((if p.point then "." else "") + (Decimal(p.precision) + ((if p.long then "l" else "") + [p.letter])))
  }

  function Spelled(p: Piece): string {
    match p
    case Plain(c) => [c]
    case Percent => "%%"
    case Directive(zero, _, _, _, _, _) => "%" + ((if zero then "0" else "") + Body(p))
  }

  function Format(pieces: seq<Piece>): string {
    if pieces == [] then "" else Spelled(pieces[0]) + Format(pieces[1..])
  }

  predicate Takes(p: Piece) { p.Directive? && TakesArg(p.letter) }

  /** The arguments go with the pieces, one for each directive that takes one. */
  predicate Agree(pieces: seq<Piece>, args: seq<Arg>) {
    if pieces == [] then true
    else if Takes(pieces[0]) then args != [] && Fits(pieces[0].letter, args[0]) && Agree(pieces[1..], args[1..])
    else Agree(pieces[1..], args)
  }

  /** What the pieces print: a directive its argument in a field of its width, whatever precision and
      `l` it has; one with an unknown letter nothing. */
  function Meaning(pieces: seq<Piece>, args: seq<Arg>): string
    requires Agree(pieces, args)
  {
    if pieces == [] then ""
    else
      match pieces[0]
      case Plain(c) => [c] + Meaning(pieces[1..], args)
      case Percent => "%" + Meaning(pieces[1..], args)
      case Directive(zero, width, _, _, _, letter) =>
        if TakesArg(letter) then Field(zero, width, letter, args[0]) + Meaning(pieces[1..], args[1..])
        else Meaning(pieces[1..], args)
  }

  // -----------------------------------------------------------------------------------------
  // Reading numbers
  // -----------------------------------------------------------------------------------------

  predicate Decimals(digits: seq<nat>) {
    digits != [] && forall i :: 0 <= i < |digits| ==> digits[i] < 10
  }

  lemma DigitChars(d: nat)
    requires d < 10
    ensures IsDigit(DigitChar(d, false)) && DigitOf(DigitChar(d, false)) == d
    ensures DigitChar(d, false) == '0' <==> d == 0
  {
  }

  /** One digit of a width, and one of a precision. */
  lemma ScanDigit(d: nat, t: string, width: int, precision: int)
    requires d < 10
    ensures var s := [DigitChar(d, false)] + t;
            && (precision < 0 ==>
                  Scan(s, width, precision) == Scan(t, (if width < 0 then 0 else width * 10) + d, precision))
            && (precision >= 0 ==> Scan(s, width, precision) == Scan(t, width, precision * 10 + d))
            && (precision < 0 ==>
                  (ScanFits(s, width, precision) <==>
                   width <= INT_MAX && ScanFits(t, (if width < 0 then 0 else width * 10) + d, precision)))
            && (precision >= 0 ==>
                  (ScanFits(s, width, precision) <==>
                   width <= INT_MAX && precision <= INT_MAX && ScanFits(t, width, precision * 10 + d)))
  {
    DigitChars(d);
    assert ([DigitChar(d, false)] + t)[1..] == t;
  }

  lemma FitsBounds(t: string, width: int, precision: int)
    requires ScanFits(t, width, precision)
    ensures width <= INT_MAX && precision <= INT_MAX
  {
  }

  /** A width that is written out in decimal is read as that number. */
  lemma {:induction false} ScanWidth(digits: seq<nat>, t: string)
    requires Decimals(digits)
    ensures var n := Value(digits, 10);
            && Scan(Chars(digits, false) + t, -1, -1) == Scan(t, n, -1)
            && (ScanFits(Chars(digits, false) + t, -1, -1) <==> ScanFits(t, n, -1))
    decreases |digits|
  {
    hide Scan, ScanFits;
    var front, d := digits[..|digits| - 1], digits[|digits| - 1];
    assert digits == front + [d];
    CharsAppend(front, d, false);
    var s := [DigitChar(d, false)] + t;
    assert Chars(digits, false) + t == Chars(front, false) + s;
    if front == [] {
      CharsOfNone(false);
      assert Chars(front, false) + s == s;
      ScanDigit(d, t, -1, -1);
    } else {
      ScanWidth(front, s);
      ScanDigit(d, t, Value(front, 10), -1);
      if ScanFits(t, Value(digits, 10), -1) {
        FitsBounds(t, Value(digits, 10), -1);
      }
    }
  }

  lemma {:induction false} ScanPrecision(digits: seq<nat>, t: string, width: int)
    requires forall i :: 0 <= i < |digits| ==> digits[i] < 10
    ensures var n := Value(digits, 10);
            && Scan(Chars(digits, false) + t, width, 0) == Scan(t, width, n)
            && (ScanFits(Chars(digits, false) + t, width, 0) <==> ScanFits(t, width, n))
    decreases |digits|
  {
    hide Scan, ScanFits;
    if digits == [] {
      CharsOfNone(false);
      assert Chars(digits, false) + t == t;
    } else {
      var front, d := digits[..|digits| - 1], digits[|digits| - 1];
      assert digits == front + [d];
      CharsAppend(front, d, false);
      var s := [DigitChar(d, false)] + t;
      assert Chars(digits, false) + t == Chars(front, false) + s;
      ScanPrecision(front, s, width);
      ScanDigit(d, t, width, Value(front, 10));
      if ScanFits(t, width, Value(digits, 10)) {
        FitsBounds(t, width, Value(digits, 10));
      }
    }
  }

  // -----------------------------------------------------------------------------------------
  // Reading directives
  // -----------------------------------------------------------------------------------------

  lemma ScanPoint(t: string, width: int, precision: int)
    ensures Scan("." + t, width, precision) == Scan(t, width, 0)
    ensures ScanFits("." + t, width, precision) <==> width <= INT_MAX && precision <= INT_MAX && ScanFits(t, width, 0)
  {
    assert ("." + t)[1..] == t;
  }

  lemma ScanEnd(p: Piece, rest: string, precision: int)
    requires p.Directive? && Valid(p)
    ensures var t := ((if p.long then "l" else "") + [p.letter]) + rest;
            && Scan(t, p.width, precision) == Fields(p.width, p.letter, rest)
            && (ScanFits(t, p.width, precision) <==> precision <= INT_MAX)
  {
    var t := [p.letter] + rest;
    assert t[1..] == rest;
    assert Scan(t, p.width, precision) == Fields(p.width, p.letter, rest);
    if p.long {
      assert (("l" + [p.letter]) + rest)[1..] == t;
    } else {
      assert ("" + [p.letter]) + rest == t;
    }
  }

  /** After the width. */
  lemma ScanTail(p: Piece, rest: string)
    requires p.Directive? && Valid(p)
    ensures var end := (if p.long then "l" else "") + [p.letter];
            var t := ((if p.point then "." else "") + (Decimal(p.precision) + end)) + rest;
            Scan(t, p.width, -1) == Fields(p.width, p.letter, rest) && ScanFits(t, p.width, -1)
  {
    hide Scan, ScanFits;
    var end := (if p.long then "l" else "") + [p.letter];
    var t := ((if p.point then "." else "") + (Decimal(p.precision) + end)) + rest;
    if !p.point {
      assert t == end + rest;
      ScanEnd(p, rest, -1);
    } else {
      assert t == "." + (Decimal(p.precision) + (end + rest));
      ScanPoint(Decimal(p.precision) + (end + rest), p.width, -1);
      if p.precision < 0 {
        assert Decimal(p.precision) + (end + rest) == end + rest;
        ScanEnd(p, rest, 0);
      } else {
        ScanPrecision(Numeral(p.precision, 10), end + rest, p.width);
        ScanEnd(p, rest, p.precision);
      }
    }
  }

  /** The directive is read as it is spelled. */
  lemma ScanBody(p: Piece, rest: string)
    requires p.Directive? && Valid(p)
    ensures Scan(Body(p) + rest, -1, -1) == Fields(p.width, p.letter, rest)
    ensures ScanFits(Body(p) + rest, -1, -1)
  {
    hide Scan, ScanFits, Numeral;
    var end := (if p.long then "l" else "") + [p.letter];
    var tail := (if p.point then "." else "") + (Decimal(p.precision) + end);
    assert Body(p) + rest == Decimal(p.width) + (tail + rest);
    ScanTail(p, rest);
    if p.width < 0 {
      assert Decimal(p.width) + (tail + rest) == tail + rest;
    } else {
      ScanWidth(Numeral(p.width, 10), tail + rest);
    }
  }

  /** Without the flag, the first character after the percent sign is neither the flag nor another
      percent sign. */
  lemma BodyStarts(p: Piece)
    requires p.Directive? && Valid(p)
    ensures Body(p) != [] && (!p.zero ==> Body(p)[0] != '%' && Body(p)[0] != '0')
  {
    if p.width > 0 {
      var digits := Numeral(p.width, 10);
      assert IsNumeral(digits, p.width, 10);
      FirstDigit(digits, p.width);
      DigitChars(digits[0]);
      assert Body(p)[0] == DigitChar(digits[0], false);
    }
  }

  lemma FirstDigit(digits: seq<nat>, v: nat)
    requires v > 0 && IsNumeral(digits, v, 10)
    ensures 0 < digits[0] < 10
  {
    if |digits| == 1 {
      assert digits[..0] == [] && Value([], 10) == 0;
      assert v == digits[0];
    }
  }

  // -----------------------------------------------------------------------------------------
  // Reading formats
  // -----------------------------------------------------------------------------------------

  lemma AfterPercent(s: string, args: seq<Arg>)
    ensures Matches("%" + s, args) <==> DirectiveMatches(s, args)
    ensures DirectiveMatches(s, args) ==> Render("%" + s, args) == RenderDirective(s, args)
  {
    hide DirectiveMatches, RenderDirective;
    assert ("%" + s)[1..] == s;
  }

  lemma AfterFlag(body: string, zero: bool, args: seq<Arg>)
    requires body != [] && (!zero ==> body[0] != '%' && body[0] != '0')
    ensures var s := (if zero then "0" else "") + body;
            && (DirectiveMatches(s, args) <==> FieldsMatch(body, -1, -1, args))
            && (DirectiveMatches(s, args) ==> RenderDirective(s, args) == RenderFields(body, zero, -1, -1, args))
  {
    hide FieldsMatch, RenderFields, Matches, Render;
    if zero {
      assert ("0" + body)[1..] == body;
    } else {
      assert "" + body == body;
    }
  }

  lemma AfterFields(body: string, zero: bool, width: int, letter: char, rest: string, args: seq<Arg>)
    requires Scan(body, -1, -1) == Fields(width, letter, rest) && ScanFits(body, -1, -1)
    ensures FieldsMatch(body, -1, -1, args) <==>
              if TakesArg(letter) then args != [] && Fits(letter, args[0]) && Matches(rest, args[1..])
              else Matches(rest, args)
    ensures FieldsMatch(body, -1, -1, args) ==>
              RenderFields(body, zero, -1, -1, args)
              == if TakesArg(letter) then Field(zero, width, letter, args[0]) + Render(rest, args[1..])
                 else Render(rest, args)
  {
    hide Scan, ScanFits, Matches, Render, Field, Fits, TakesArg;
  }

  lemma DirectiveMeans(p: Piece, rest: string, args: seq<Arg>)
    requires p.Directive? && Valid(p)
    ensures var fmt := Spelled(p) + rest;
            && (Matches(fmt, args) <==>
                  if TakesArg(p.letter) then args != [] && Fits(p.letter, args[0]) && Matches(rest, args[1..])
                  else Matches(rest, args))
            && (Matches(fmt, args) ==>
                  Render(fmt, args) == if TakesArg(p.letter) then Field(p.zero, p.width, p.letter, args[0]) + Render(rest, args[1..])
                                       else Render(rest, args))
  {
    hide Scan, ScanFits, Body, Field, Fits, TakesArg, Matches, Render, FieldsMatch, RenderFields, DirectiveMatches;
    hide RenderDirective, Valid;
    ScanBody(p, rest);
    BodyStarts(p);
    var body := Body(p) + rest;
    var s := (if p.zero then "0" else "") + body;
    assert Spelled(p) + rest == "%" + s;
    AfterPercent(s, args);
    AfterFlag(body, p.zero, args);
    AfterFields(body, p.zero, p.width, p.letter, rest, args);
  }

  /** The parser reads every spelled format as its pieces: the arguments go with one exactly if they
      go with the other, and then the output is what the pieces mean. */
  lemma {:induction false} FormatsMean(pieces: seq<Piece>, args: seq<Arg>)
    requires forall i :: 0 <= i < |pieces| ==> Valid(pieces[i])
    ensures Matches(Format(pieces), args) <==> Agree(pieces, args)
    ensures Agree(pieces, args) ==> Render(Format(pieces), args) == Meaning(pieces, args)
    decreases |pieces|
  {
    hide Field, Fits, TakesArg, DirectiveMatches, RenderDirective;
    if pieces != [] {
      var p, rest := pieces[0], Format(pieces[1..]);
      match p
      case Plain(c) =>
        assert ([c] + rest)[1..] == rest;
        FormatsMean(pieces[1..], args);
      case Percent =>
        PercentMeans(rest, args);
        FormatsMean(pieces[1..], args);
      case Directive(_, _, _, _, _, letter) =>
        DirectiveMeans(p, rest, args);
        FormatsMean(pieces[1..], args);
        if args != [] {
          FormatsMean(pieces[1..], args[1..]);
        }
    }
  }

  lemma PercentMeans(rest: string, args: seq<Arg>)
    ensures Matches("%%" + rest, args) <==> Matches(rest, args)
    ensures Matches(rest, args) ==> Render("%%" + rest, args) == "%" + Render(rest, args)
  {
    assert ("%%" + rest)[1..] == "%" + rest && ("%" + rest)[1..] == rest;
  }

  /** A directive that the format breaks off prints nothing. */
  lemma CutShortPrintsNothing(zero: bool, width: int, args: seq<Arg>)
    requires width == -1 || 1 <= width <= INT_MAX
    ensures var fmt := "%" + ((if zero then "0" else "") + Decimal(width));
            Matches(fmt, args) && Render(fmt, args) == ""
  {
    var body := Decimal(width);
    var s := (if zero then "0" else "") + body;
    AfterPercent(s, args);
    if width > 0 {
      var digits := Numeral(width, 10);
      ScanWidth(digits, "");
      assert Numerals.Chars(digits, false) + "" == body;
      FirstDigit(digits, width);
      DigitChars(digits[0]);
      AfterFlag(body, zero, args);
    } else if zero {
      assert s == "0" && s[1..] == "";
    }
  }

  /** So a directive with width w prints a field of exactly w characters, or as many as it takes. */
  lemma DirectiveFillsWidth(p: Piece, arg: Arg)
    requires p.Directive? && Valid(p) && TakesArg(p.letter) && Fits(p.letter, arg)
    ensures Matches(Format([p]), [arg])
    ensures |Render(Format([p]), [arg])| == Max(p.width, |Natural(p.letter, arg)|)
  {
    hide Field, Fits, TakesArg, Matches, Render, Natural;
    assert [p][1..] == [] && [arg][1..] == [];
    assert Agree([], []) && Meaning([], []) == "";
    FormatsMean([p], [arg]);
    FieldFillsWidth(p.zero, p.width, p.letter, arg);
    assert Meaning([p], [arg]) == Field(p.zero, p.width, p.letter, arg) + "";
  }

  /** What each conversion prints without padding, for every word. */
  lemma ConversionsMean(v: U32)
    ensures Natural('d', Word(v)) == Natural('i', Word(v))
            == if v < 0x8000_0000 then Written(v, 10, false) else "-" + Written(WORD - v, 10, false)
    ensures Natural('u', Word(v)) == Written(v, 10, false)
    ensures Natural('o', Word(v)) == Written(v, 8, false)
    ensures Natural('x', Word(v)) == Written(v, 16, false)
    ensures Natural('X', Word(v)) == Written(v, 16, true)
  {
    hide Written, Numeral, Numerals.Chars;
    assert Natural('u', Word(v)) == "" + Written(v, 10, false);
    assert Natural('o', Word(v)) == "" + Written(v, 8, false);
    assert Natural('x', Word(v)) == "" + Written(v, 16, false);
    assert Natural('X', Word(v)) == "" + Written(v, 16, true);
    var sign := if v < 0x8000_0000 then "" else "-";
    var size := if v < 0x8000_0000 then v else WORD - v;
    assert Natural('d', Word(v)) == sign + Written(size, 10, false);
    assert Natural('i', Word(v)) == sign + Written(size, 10, false);
  }

  /** Which arguments go with which letters: every word with the integer conversions, every character
      with c, every string of a length that fits an int with s, and nothing else. */
  lemma ArgumentsFit(letter: char, arg: Arg)
    ensures Fits(letter, arg) <==>
              || (letter in {'d', 'i', 'u', 'o', 'x', 'X'} && arg.Word?)
              || (letter == 'c' && arg.Character?)
              || (letter == 's' && arg.Text? && |arg.s| < INT_MAX)
    ensures TakesArg(letter) <==> letter in {'d', 'i', 'u', 'o', 'x', 'X', 'c', 's'}
  {
  }

  /** The digits of a written number. */
  lemma DigitsAre(d: nat)
    requires d < 16
    ensures DigitChar(d, false) == "0123456789abcdef"[d] && DigitChar(d, true) == "0123456789ABCDEF"[d]
  {
  }
}
