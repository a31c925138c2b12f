/** Flushing a range of memory from a cache, line by line. */
module CacheFlush {
  import opened Arithmetic

  /** Rounds of the loop: as many line lengths as reach over the range. */
  function Rounds(len: nat, line: nat): nat
    requires line > 0
  {
    (len + line - 1) / line
  }

  /** One flush a round, and one more if the range does not start on a line. */
  function Flushes(start: nat, len: nat, line: nat): nat
    requires line > 0
  {
    Rounds(len, line) + if start % line != 0 then 1 else 0
  }

  function Address(start: nat, line: nat, k: nat): int { start + k * line }

  function Addresses(start: nat, line: nat, n: nat): (s: seq<int>)
    ensures |s| == n && forall k :: 0 <= k < n ==> s[k] == Address(start, line, k)
  {
    if n == 0 then [] else Addresses(start, line, n - 1) + [Address(start, line, n - 1)]
  }

  /** Lines that the range touches. */
  function Touched(start: nat, len: nat, line: nat): int
    requires line > 0
  {
    if len == 0 then 0 else (start + len - 1) / line - start / line + 1
  }

  lemma RoundsReach(len: nat, line: nat)
    requires line > 0
    ensures var n := Rounds(len, line); n * line >= len && n * line < len + line && (len > 0 ==> n > 0)
  {
    DivBounds(len + line - 1, line);
  }

  lemma RoundsUnique(len: nat, line: nat, n: nat)
    requires line > 0 && len <= n * line < len + line
    ensures n == Rounds(len, line)
  {
    DivModUnique(n, len + line - 1 - n * line, line);
  }

  /** The end of the range lies above the last address that the loop can reach without wrapping
      around, but not above the top: the loop jumps over it. */
  predicate Overruns(start: nat, len: nat, line: nat)
    requires line > 0
  {
    WORD - line + start % line < start + len < WORD
  }

  /** What is flushed.  The end of a range that reaches the top of the address space wraps around to
      below the start, and the loop makes no round. */
  function Flushed(start: nat, len: nat, line: nat): seq<int>
    requires line > 0
  {
    if start + len < WORD then Addresses(start, line, Flushes(start, len, line))
    else if start % line != 0 then [start]
    else []
  }

  /** Addresses that lie equally far into their lines: the largest one below the top. */
  lemma TopOfClass(start: nat, line: nat, i: nat)
    requires line > 0 && WORD % line == 0 && i % line == start % line
    ensures i < WORD <==> i <= WORD - line + start % line
  {
    var q, top := i / line, WORD / line;
    DivBounds(i, line);
    DivBounds(WORD, line);
    if q < top {
      MulLess(q, top, line);
    } else if q > top {
      MulLess(top, q, line);
    }
  }

  /** The next one, around the top. */
  lemma NextOfClass(line: nat, i: nat)
    requires line > 0 && WORD % line == 0
    ensures (i + line) % line == i % line
    ensures i >= WORD ==> (i - WORD) % line == i % line
  {
    var q, top := i / line, WORD / line;
    DivBounds(i, line);
    DivBounds(WORD, line);
    Onwards(q, line);
    DivModUnique(q + 1, i % line, line);
    if i >= WORD {
      if q < top {
        MulLess(q, top, line);
      }
      Distribute(q - top, top, line);
      DivModUnique(q - top, i % line, line);
    }
  }

  lemma AddressesAre(start: nat, line: nat, n: nat)
    ensures n == 0 ==> Addresses(start, line, n) == []
    ensures n > 0 ==> Addresses(start, line, n) == Addresses(start, line, n - 1) + [Address(start, line, n - 1)]
  {
  }

  lemma FlushedIs(start: nat, len: nat, line: nat)
    requires line > 0 && start + len < WORD
    ensures var n := Rounds(len, line);
            Flushed(start, len, line) == Addresses(start, line, n) + if start % line != 0 then [Address(start, line, n)] else []
  {
  }

  lemma FlushedAtTop(start: nat, len: nat, line: nat)
    requires line > 0
    ensures start + len >= WORD ==> Flushed(start, len, line) == if start % line != 0 then [start] else []
  {
  }

  lemma BelowTop(start: nat, len: nat, line: nat, i: nat)
    requires line > 0 && WORD % line == 0 && i % line == start % line
    requires !Overruns(start, len, line)
    ensures i < start + len < WORD ==> i + line < WORD
  {
    var q, top := i / line, WORD / line;
    DivBounds(i, line);
    DivBounds(WORD, line);
    Onwards(q, line);
    if q + 1 < top {
      MulLess(q + 1, top, line);
    } else if q + 1 > top {
      MulLess(top, q + 1, line);
    }
  }

  lemma AddressIs(start: nat, line: nat, n: nat)
    ensures Address(start, line, n) == start + n * line
    ensures Address(start, line, 0) == start
  {
  }

  lemma NextAddress(start: nat, line: nat, n: nat)
    ensures Address(start, line, n + 1) == Address(start, line, n) + line
  {
    Onwards(n, line);
  }

  function Wrapped(x: int): (y: int)
    requires 0 <= x < 2 * WORD
    ensures 0 <= y < WORD && y == if x < WORD then x else x - WORD
  {
    x % WORD
  }

  lemma EndWraps(start: U32, len: U32)
    ensures (start + len) % WORD == if start + len < WORD then start + len else start + len - WORD
  {
  }

  lemma EnoughRounds(len: nat, line: nat, rounds: nat, patience: nat, more: bool)
    requires line > 0 && patience >= Rounds(len, line)
    requires more ==> rounds == patience && rounds * line < len
    requires !more ==> len <= rounds * line && (rounds == 0 || rounds * line < len + line)
    ensures !more && rounds == Rounds(len, line)
  {
    RoundsReach(len, line);
    if more {
      if Rounds(len, line) < rounds {
        MulLess(Rounds(len, line), rounds, line);
      }
    } else {
      RoundsUnique(len, line, rounds);
    }
  }

  lemma FewerRounds(a: nat, b: nat, line: nat)
    requires line > 0 && a <= b
    ensures Rounds(a, line) <= Rounds(b, line)
  {
    DivMonotone(a + line - 1, b + line - 1, line);
  }

  /** The loop, with addresses of 32 bits.  A line length is a power of two, so the remainder is the
      mask of the code.  The loop ends exactly if it does not jump over the end of the range, which
      however many rounds we watch. */
  method FlushRange(start: U32, len: U32, line: nat, patience: nat) returns (ended: bool, flushed: seq<int>)
    requires line > 0 && WORD % line == 0 && patience >= Rounds(len, line)
    ensures ended <==> !Overruns(start, len, line)
    ensures ended ==> flushed == Flushed(start, len, line)
    ensures forall k :: 0 <= k < |flushed| ==> 0 <= flushed[k] < WORD
  {
    hide Flushes, Rounds, Addresses, Flushed, Address;
    FlushedAtTop(start, len, line);
    flushed := [];
    var end := (start + len) % WORD;
    var i := start;
    var rounds := 0;
    EndWraps(start, len);
    AddressesAre(start, line, 0);
    AddressIs(start, line, 0);
    while i < end && rounds < patience
      invariant 0 <= i < WORD && i % line == start % line && 0 <= rounds <= patience
      invariant start + len >= WORD ==> rounds == 0
      invariant rounds == 0 ==> i == start && flushed == []
      invariant !Overruns(start, len, line) ==> i == Address(start, line, rounds) && (rounds == 0 || i < end + line)
      invariant !Overruns(start, len, line) ==> flushed == Addresses(start, line, rounds)
      invariant forall k :: 0 <= k < |flushed| ==> 0 <= flushed[k] < WORD
      decreases patience - rounds
    {
      AddressesAre(start, line, rounds + 1);
      flushed := flushed + [i];
      NextAddress(start, line, rounds);
      if !Overruns(start, len, line) {
        BelowTop(start, len, line, i);
      }
      NextOfClass(line, i);
      NextOfClass(line, i + line);
      i := Wrapped(i + line);
      rounds := rounds + 1;
    }
    ended := i >= end;
    TopOfClass(start, line, i);
    AddressIs(start, line, rounds);
    if !Overruns(start, len, line) && start + len < WORD {
      EnoughRounds(len, line, rounds, patience, i < end);
      FlushedIs(start, len, line);
    }
    if start % line != 0 {
      flushed := flushed + [i];
    }
  }

  lemma Onwards(n: int, line: nat)
    ensures (n + 1) * line == n * line + line
  {
  }

  lemma LineOfAddress(start: nat, line: nat, k: nat)
    requires line > 0
    ensures Address(start, line, k) / line == start / line + k
  {
    DivBounds(start, line);
    Distribute(start / line, k, line);
    DivModUnique(start / line + k, start % line, line);
  }

  /** The flushes hit consecutive lines from that of the start on, each once. */
  lemma LinesInOrder(start: nat, len: nat, line: nat)
    requires line > 0
    ensures forall k :: 0 <= k < Flushes(start, len, line) ==>
                          Addresses(start, line, Flushes(start, len, line))[k] / line == start / line + k
  {
    forall k | 0 <= k < Flushes(start, len, line)
      ensures Addresses(start, line, Flushes(start, len, line))[k] / line == start / line + k
    {
      LineOfAddress(start, line, k);
    }
  }

  /** They are the lines that the range touches and at most one more; there is one more exactly
      if the range starts inside a line and, unless it is empty, ends before the last round. */
  lemma FlushesAreTouched(start: nat, len: nat, line: nat)
    requires line > 0
    ensures var t, f := Touched(start, len, line), Flushes(start, len, line);
            && t <= f <= t + 1
            && (f == t + 1 <==> start % line != 0 && (len == 0 || start % line + len <= Rounds(len, line) * line))
  {
    RoundsReach(len, line);
    if len == 0 {
      RoundsUnique(0, line, 0);
    } else {
      TouchedIs(start, len, line);
    }
  }

  lemma TouchedIs(start: nat, len: nat, line: nat)
    requires line > 0 && len > 0
    ensures var n := Rounds(len, line);
            Touched(start, len, line) == if start % line + len <= n * line then n else n + 1
  {
    var q, r, n := start / line, start % line, Rounds(len, line);
    DivBounds(start, line);
    RoundsReach(len, line);
    Onwards(n - 1, line);
    LastLine(q, r, len, line, if r + len <= n * line then n - 1 else n);
  }

  /** The last byte of the range lies m lines after the first. */
  lemma LastLine(q: nat, r: nat, len: nat, line: nat, m: nat)
    requires r < line && len > 0
    requires m * line < r + len <= m * line + line
    ensures (q * line + r + len - 1) / line == q + m
  {
    Distribute(q, m, line);
    DivModUnique(q + m, r + len - 1 - m * line, line);
  }

  /** Every byte of the range is in a line that is flushed. */
  lemma EveryByteFlushed(start: nat, len: nat, line: nat, a: nat)
    requires line > 0 && start <= a < start + len
    ensures HitsByte(Addresses(start, line, Flushes(start, len, line)), line, a)
  {
    FlushesAreTouched(start, len, line);
    LinesInOrder(start, len, line);
    DivMonotone(start, a, line);
    DivMonotone(a, start + len - 1, line);
    var k := a / line - start / line;
    assert Addresses(start, line, Flushes(start, len, line))[k] / line == a / line;
  }

  /** A flush of this range hits the given index of a cache of so many lines. */
  predicate HitsIndex(start: nat, len: nat, line: nat, lines: nat, index: nat)
    requires line > 0 && lines > 0
  {
    exists k: nat :: k < Flushes(start, len, line) && Address(start, line, k) / line % lines == index
  }

  /** As many flushes as there are lines in the cache hit every index. */
  lemma ManyHitAll(start: nat, len: nat, line: nat, lines: nat, index: nat)
    requires line > 0 && lines > 0 && Flushes(start, len, line) >= lines
    ensures HitsIndex(start, len, line, lines, index) <==> index < lines
  {
    hide Flushes;
    if index < lines {
      var first := start / line;
      var k := (index - first) % lines;
      LineOfAddress(start, line, k);
      SameIndex(first, k, lines, index);
      assert Address(start, line, k) / line % lines == index;
    }
  }

  /** Where flushing goes by index, cutting the range down to the cache loses no index. */
  lemma TrimmingLosesNoIndex(start: nat, len: nat, line: nat, lines: nat, index: nat)
    requires line > 0 && lines > 0 && len > lines * line
    ensures HitsIndex(start, lines * line, line, lines, index) <==> HitsIndex(start, len, line, lines, index)
    ensures HitsIndex(start, lines * line, line, lines, index) <==> index < lines
  {
    hide HitsIndex;
    RoundsUnique(lines * line, line, lines);
    RoundsReach(len, line);
    if Rounds(len, line) < lines {
      MulLess(Rounds(len, line), lines, line);
    }
    ManyHitAll(start, lines * line, line, lines, index);
    ManyHitAll(start, len, line, lines, index);
  }

  lemma SameIndex(first: nat, k: nat, lines: nat, index: nat)
    requires index < lines && k == (index - first) % lines
    ensures (first + k) % lines == index
  {
    var j := (index - first) / lines;
    assert index - first == j * lines + k;
    if j <= 0 {
      assert first + k == (-j) * lines + index;
      DivModUnique(-j, index, lines);
    } else {
      MulLess(0, j, lines);
    }
  }

  /** The length that is flushed when the range is cut down to a cache of so many lines. */
  function Trimmed(len: nat, line: nat, lines: nat): nat {
    if len > lines * line then lines * line else len
  }

  /** The lines that a list of flushed addresses hits, by index. */
  ghost predicate ListHits(flushed: seq<int>, line: nat, lines: nat, index: nat)
    requires line > 0 && lines > 0
  {
    exists k :: 0 <= k < |flushed| && flushed[k] >= 0 && flushed[k] / line % lines == index
  }

  lemma ListHitsIs(start: nat, len: nat, line: nat, lines: nat, index: nat)
    requires line > 0 && lines > 0
    ensures ListHits(Addresses(start, line, Flushes(start, len, line)), line, lines, index)
            <==> HitsIndex(start, len, line, lines, index)
  {
    hide Flushes;
    var n := Flushes(start, len, line);
    var f := Addresses(start, line, n);
    if HitsIndex(start, len, line, lines, index) {
      var k: nat :| k < n && Address(start, line, k) / line % lines == index;
      assert f[k] == Address(start, line, k) >= 0;
    }
    if ListHits(f, line, lines, index) {
      var k :| 0 <= k < |f| && f[k] >= 0 && f[k] / line % lines == index;
      assert f[k] == Address(start, line, k);
    }
  }

  /** What is flushed of the trimmed range hits the same indices as the whole range would. */
  lemma TrimmedHitsSame(start: nat, len: nat, line: nat, lines: nat)
    requires line > 0 && lines > 0
    ensures var f := Addresses(start, line, Flushes(start, Trimmed(len, line, lines), line));
            forall index: nat :: ListHits(f, line, lines, index) <==> HitsIndex(start, len, line, lines, index)
  {
    var f := Addresses(start, line, Flushes(start, Trimmed(len, line, lines), line));
    forall index: nat ensures ListHits(f, line, lines, index) <==> HitsIndex(start, len, line, lines, index) {
      hide Flushes, ListHits, HitsIndex;
      ListHitsIs(start, Trimmed(len, line, lines), line, lines, index);
      if len > lines * line {
        TrimmingLosesNoIndex(start, len, line, lines, index);
      }
    }
  }

  /** The instruction cache, of `lines` lines: the range is cut down to its size, and every index is
      hit that the whole range would hit, as long as what is left ends below the top. */
  method IcacheFlush(start: U32, len: U32, line: nat, lines: nat, patience: nat) returns (ended: bool, flushed: seq<int>)
    requires line > 0 && lines > 0 && WORD % line == 0 && patience >= Rounds(Trimmed(len, line, lines), line)
    ensures ended <==> !Overruns(start, Trimmed(len, line, lines), line)
    ensures ended ==> flushed == Flushed(start, Trimmed(len, line, lines), line)
    ensures ended && start + Trimmed(len, line, lines) < WORD ==>
              forall index: nat :: ListHits(flushed, line, lines, index) <==> HitsIndex(start, len, line, lines, index)
  {
    hide HitsIndex, ListHits;
    TrimmedHitsSame(start, len, line, lines);
    ended, flushed := FlushRange(start, if len > lines * line then lines * line else len, line, patience);
  }

  /** The data cache: with flush-by-address the range is left as it is; with flush-by-index it is cut
      down like that of the instruction cache. */
  method DcacheFlush(start: U32, len: U32, line: nat, lines: nat, byAddress: bool, patience: nat)
    returns (ended: bool, flushed: seq<int>)
    requires line > 0 && lines > 0 && WORD % line == 0 && patience >= Rounds(len, line)
    ensures var n := if byAddress then len else Trimmed(len, line, lines);
            && (ended <==> !Overruns(start, n, line))
            && (ended ==> flushed == Flushed(start, n, line))
    ensures byAddress && ended ==> (AllFlushed(start, len, line, flushed) <==> ReachesEnd(start, len, line))
    ensures !byAddress && ended && start + Trimmed(len, line, lines) < WORD ==>
              forall index: nat :: ListHits(flushed, line, lines, index) <==> HitsIndex(start, len, line, lines, index)
  {
    hide HitsIndex, ListHits, AllFlushed, ReachesEnd;
    TrimmedHitsSame(start, len, line, lines);
    FewerRounds(Trimmed(len, line, lines), len, line);
    ended, flushed := FlushRange(start, if !byAddress && len > lines * line then lines * line else len, line, patience);
    AllFlushedExactly(start, len, line);
  }

  /** One of the addresses hits the line of byte a. */
  ghost predicate HitsByte(flushed: seq<int>, line: nat, a: nat)
    requires line > 0
  {
    exists k :: 0 <= k < |flushed| && flushed[k] / line == a / line
  }

  /** Every byte of the range lies in a line that one of the addresses hits. */
  ghost predicate AllFlushed(start: nat, len: nat, line: nat, flushed: seq<int>)
    requires line > 0
  {
    forall a :: start <= a < start + len ==> HitsByte(flushed, line, a)
  }

  /** The range ends below the top, or starts inside the last line and ends with it. */
  predicate ReachesEnd(start: nat, len: nat, line: nat)
    requires line > 0
  {
    start + len < WORD || (start % line != 0 && (start + len - 1) / line == start / line)
  }

  lemma LastByte(start: nat, len: nat, line: nat, flushed: seq<int>)
    requires line > 0
    ensures AllFlushed(start, len, line, flushed) && len > 0 ==> HitsByte(flushed, line, start + len - 1)
  {
  }

  /** What is flushed covers the range exactly then: a range that reaches the top is lost. */
  lemma AllFlushedExactly(start: U32, len: U32, line: nat)
    requires line > 0
    ensures AllFlushed(start, len, line, Flushed(start, len, line)) <==> ReachesEnd(start, len, line)
  {
    hide Flushes, Addresses;
    var f := Flushed(start, len, line);
    LastByte(start, len, line, f);
    if start + len < WORD {
      forall a | start <= a < start + len ensures HitsByte(f, line, a) {
        EveryByteFlushed(start, len, line, a);
      }
    } else if ReachesEnd(start, len, line) {
      forall a | start <= a < start + len ensures HitsByte(f, line, a) {
        DivMonotone(start, a, line);
        DivMonotone(a, start + len - 1, line);
        assert f[0] / line == a / line;
      }
    }
  }

  /** The last line of the address space, 32 bytes long: half of it hangs the loop, all of it is not
      flushed at all. */
  lemma LastLineIsLost()
    ensures Overruns(0xffff_ffe0, 16, 32)
    ensures !Overruns(0xffff_ffe0, 32, 32) && Flushed(0xffff_ffe0, 32, 32) == []
  {
  }
}
