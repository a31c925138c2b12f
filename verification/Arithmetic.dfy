/** Machine words, and the facts about products and quotients that the solver has to be told. */
module Arithmetic {

  const WORD := 0x1_0000_0000

  const INT_MAX := 0x7fff_ffff

  type U32 = x: int | 0 <= x < WORD

  predicate Bit(x: bv32, i: bv6)
    requires i < 32
  {
    (x >> i) & 1 == 1
  }

  function Min(a: int, b: int): int {
    if a <= b then a else b
  }

  function Max(a: int, b: int): int {
    if a >= b then a else b
  }

  lemma MulLess(a: nat, b: nat, c: nat)
    requires a < b
    ensures a * c + c <= b * c
  {
    var d := b - a - 1;
    assert d * c >= 0;
    assert b * c == (a + 1 + d) * c == a * c + c + d * c;
  }

  lemma DivModUnique(q: nat, r: nat, base: nat)
    requires r < base
    ensures (q * base + r) / base == q && (q * base + r) % base == r
  {
    var x := q * base + r;
    var k := x / base;
    assert x == k * base + x % base;
    if k < q {
      MulLess(k, q, base);
    } else if k > q {
      MulLess(q, k, base);
    }
  }

  lemma DivBounds(v: nat, d: nat)
    requires d >= 1
    ensures v / d * d + v % d == v && 0 <= v % d < d && 0 <= v / d
    ensures v / d > 0 <==> v >= d
  {
    assert v == v / d * d + v % d;
    if v / d > 0 {
      MulLess(0, v / d, d);
    }
  }

  lemma Regroup(q: nat, r: nat, b: nat, a: nat)
    ensures (q * b + r) * a == q * (b * a) + r * a
  {
  }

  lemma Distribute(a: nat, b: nat, c: nat)
    ensures (a + b) * c == a * c + b * c
  {
  }

  lemma DivMonotone(a: nat, b: nat, d: nat)
    requires d > 0 && a <= b
    ensures 0 <= a / d <= b / d
  {
    DivBounds(a, d);
    DivBounds(b, d);
    if b / d < a / d {
      MulLess(b / d, a / d, d);
    }
  }

  lemma Times(p: nat, base: nat)
    requires base >= 2
    ensures p * base >= p * 2
  {
    if base > 2 {
      MulLess(2, base, p);
    }
  }
}
