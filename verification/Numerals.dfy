/** Positional numerals: what it means for a list of digits to be the numeral of a number. */
module Numerals {

  import opened Arithmetic

  /** The number that a list of digits stands for, most significant digit first. */
  function Value(digits: seq<nat>, base: nat): nat {
    if digits == [] then 0
    else Value(digits[..|digits| - 1], base) * base + digits[|digits| - 1]
  }

  /** The numeral of v: at least one digit, no leading zero unless it is the only digit. */
  predicate IsNumeral(digits: seq<nat>, v: nat, base: nat) {
    && |digits| > 0
    && (forall i :: 0 <= i < |digits| ==> digits[i] < base)
    && (|digits| > 1 ==> digits[0] != 0)
    && Value(digits, base) == v
  }

  lemma ValueAppend(digits: seq<nat>, d: nat, base: nat)
    ensures Value(digits + [d], base) == Value(digits, base) * base + d
  {
    assert (digits + [d])[..|digits|] == digits;
  }

  /** A numeral of two or more digits stands for at least the base. */
  lemma {:induction false} ValueAtLeast(digits: seq<nat>, base: nat)
    requires base >= 2 && |digits| >= 1 && digits[0] != 0
    ensures Value(digits, base) >= 1
    ensures |digits| > 1 ==> Value(digits, base) >= base
  {
    if |digits| > 1 {
      var front := digits[..|digits| - 1];
      ValueAtLeast(front, base);
      MulLess(0, Value(front, base), base);
    } else {
      assert digits[..0] == [];
    }
  }

  lemma NumeralSplit(digits: seq<nat>, v: nat, base: nat)
    requires base >= 2 && IsNumeral(digits, v, base)
    ensures digits[|digits| - 1] == v % base && Value(digits[..|digits| - 1], base) == v / base
    ensures |digits| > 1 <==> v >= base
    ensures |digits| > 1 ==> IsNumeral(digits[..|digits| - 1], v / base, base)
  {
    var front := digits[..|digits| - 1];
    DivModUnique(Value(front, base), digits[|digits| - 1], base);
    if |digits| > 1 {
      ValueAtLeast(digits, base);
    } else {
      assert front == [];
    }
  }

  /** A number has only one numeral. */
  lemma {:induction false} NumeralUnique(a: seq<nat>, b: seq<nat>, v: nat, base: nat)
    requires base >= 2 && IsNumeral(a, v, base) && IsNumeral(b, v, base)
    ensures a == b
    decreases |a|
  {
    NumeralSplit(a, v, base);
    NumeralSplit(b, v, base);
    if |a| > 1 {
      NumeralUnique(a[..|a| - 1], b[..|b| - 1], v / base, base);
    }
    assert a == a[..|a| - 1] + [a[|a| - 1]];
    assert b == b[..|b| - 1] + [b[|b| - 1]];
  }

  /** The numeral of v. */
  function Numeral(v: nat, base: nat): (digits: seq<nat>)
    requires base >= 2
    ensures IsNumeral(digits, v, base)
    decreases v
  {
    if v < base then
      assert [v][..0] == [];
      [v]
    else
      DivLess(v, base);
      ValueAppend(Numeral(v / base, base), v % base, base);
      Numeral(v / base, base) + [v % base]
  }

  lemma DivLess(v: nat, base: nat)
    requires base >= 2 && v >= base
    ensures 0 < v / base < v
  {
    var q := v / base;
    assert v == q * base + v % base;
    if q > 0 {
      MulLess(1, base, q);
    }
  }

  function DigitChar(d: nat, upper: bool): char
    requires d < 16
  {
    if d <= 9 then ('0' as int + d) as char
    else ((if upper then 'A' else 'a') as int + d - 10) as char
  }

  function Chars(digits: seq<nat>, upper: bool): (s: string)
    requires forall i :: 0 <= i < |digits| ==> digits[i] < 16
    ensures |s| == |digits|
    ensures forall i :: 0 <= i < |s| ==> s[i] == DigitChar(digits[i], upper)
  {
    seq(|digits|, i requires 0 <= i < |digits| => DigitChar(digits[i], upper))
  }

  /** A number written out. */
  function Written(v: nat, base: nat, upper: bool): (s: string)
    requires 2 <= base <= 16
    ensures |s| == |Numeral(v, base)| > 0
  {
    Chars(Numeral(v, base), upper)
  }

  function Power(base: nat, k: nat): (p: nat)
    requires base >= 1
    ensures p >= 1
  {
    if k == 0 then 1 else
      MulLess(0, Power(base, k - 1), base);
      Power(base, k - 1) * base
  }

  lemma Nested(q: nat, r: nat, b: nat, s: nat, a: nat, v: nat)
    requires r < b && s < a && v == (q * b + r) * a + s
    ensures b * a >= 1 && v / (b * a) == q
  {
    Regroup(q, r, b, a);
    MulLess(r, b, a);
    MulLess(0, b, a);
    var c := b * a;
    DivModUnique(q, r * a + s, c);
  }

  lemma DivDiv(v: nat, a: nat, b: nat)
    requires a >= 1 && b >= 1
    ensures b * a >= 1 && v / a / b == v / (b * a)
  {
    DivBounds(v, a);
    DivBounds(v / a, b);
    Nested(v / a / b, v / a % b, b, v % a, a, v);
  }

  lemma CharsOfNone(upper: bool)
    ensures Chars([], upper) == []
  {
  }

  lemma CharsAppend(digits: seq<nat>, d: nat, upper: bool)
    requires forall i :: 0 <= i < |digits| ==> digits[i] < 16
    requires d < 16
    ensures Chars(digits + [d], upper) == Chars(digits, upper) + [DigitChar(d, upper)]
  {
  }

}
