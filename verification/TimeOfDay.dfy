/** The time of day, kept as an offset from the tick counter. */
module TimeOfDay {
  import opened Errno
  import opened Arithmetic

  const US := 1_000_000

  /** A signed 32-bit variable after the assignment of an unsigned result. */
  type S32 = x: int | -0x8000_0000 <= x < 0x8000_0000

  function ToS32(x: int): (r: S32)
    ensures -0x8000_0000 <= x < 0x8000_0000 ==> r == x
  {
    (x + 0x8000_0000) % WORD - 0x8000_0000
  }

  lemma ToS32Step(x: int, y: int)
    ensures ToS32(ToS32(x) + y) == ToS32(x + y)
  {
    var a, b := x + 0x8000_0000, ToS32(x) + 0x8000_0000;
    assert a == a / WORD * WORD + b;
    assert (b + y) % WORD == (a + y) % WORD by {
      assert b + y == a + y - a / WORD * WORD;
      ModShift(a + y, a / WORD);
    }
  }

  lemma ModShift(x: int, k: int)
    ensures (x - k * WORD) % WORD == x % WORD
  {
    var r := x % WORD;
    var q := x / WORD;
    assert x - k * WORD == (q - k) * WORD + r;
  }

  datatype Time = Time(sec: S32, usec: S32)

  predicate Normal(t: Time) { 0 <= t.sec && 0 <= t.usec < US }

  function Micros(t: Time): int { t.sec * US + t.usec }

  /** Microseconds in a tick, rounded down. */
  function TickLength(rate: nat): nat
    requires rate > 0
  {
    US / rate
  }

  /** What the two loops of the getter leave: the same instant with microseconds in range, or
      zero for one that is negative and reached from below. */
  function Carried(sec: int, usec: int): Time {
    if usec >= 0 then Time(ToS32(sec + usec / US), usec % US)
    else
      var borrow := (US - 1 - usec) / US;
      if sec >= borrow then Time(ToS32(sec - borrow), usec + borrow * US) else Time(0, 0)
  }

  /** The offset that a set at tick n leaves; its product is 32 bits wide. */
  function OffsetOf(t: Time, n: U32, rate: U32): Time
    requires rate > 0
  {
    Time(ToS32(t.sec - n / rate), ToS32(t.usec - n * TickLength(rate) % WORD % US))
  }

  /** The time that a get at tick n reads; its product is 64 bits wide. */
  function TimeAt(offset: Time, n: U32, rate: U32): Time
    requires rate > 0
  {
    Carried(ToS32(offset.sec + n / rate), ToS32(offset.usec + n * TickLength(rate) % US))
  }

  class TimeVal {
    var sec: S32
    var usec: S32

    function Value(): Time
      reads this
    {
      Time(sec, usec)
    }
  }

  class TimeZone {
    var minutesWest: int
    var dstTime: int
  }

  class WallClock {
    var nticks: U32
    var tickRate: U32
    var errno: int
    const reset: TimeVal
    const zone: TimeZone

    constructor (tickRate: U32)
      ensures nticks == 0 && this.tickRate == tickRate && fresh(reset) && fresh(zone)
      ensures reset.Value() == Time(0, 0) && zone.minutesWest == 0 && zone.dstTime == 0
    {
      nticks, this.tickRate, errno := 0, tickRate, 0;
      reset := new TimeVal;
      zone := new TimeZone;
      new;
      reset.sec, reset.usec := 0, 0;
      zone.minutesWest, zone.dstTime := 0, 0;
    }

    method SetTimeOfDay(t: TimeVal, tz: TimeZone) returns (status: int)
      requires t != reset && tz != zone
      modifies `errno, reset, zone
      ensures tickRate == 0 ==>
                status == -1 && errno == ENOSYS && reset.Value() == old(reset.Value()) &&
                zone.minutesWest == old(zone.minutesWest) && zone.dstTime == old(zone.dstTime)
      ensures tickRate > 0 ==>
                status == 0 && errno == old(errno) && reset.Value() == OffsetOf(t.Value(), nticks, tickRate) &&
                zone.minutesWest == tz.minutesWest && zone.dstTime == tz.dstTime
    {
      if tickRate > 0 {
        reset.sec := ToS32(t.sec - nticks / tickRate);
        reset.usec := ToS32(t.usec - nticks * (US / tickRate) % WORD % US);
        zone.minutesWest := tz.minutesWest;
        zone.dstTime := tz.dstTime;
        return 0;
      }
      errno := ENOSYS;
      return -1;
    }

    method GetTimeOfDay(t: TimeVal, tz: TimeZone?) returns (status: int)
      requires t != reset && tz != zone
      modifies t, tz
      ensures tickRate == 0 ==>
                status == -ENOTSUP && t.Value() == old(t.Value()) &&
                (tz != null ==> tz.minutesWest == old(tz.minutesWest) && tz.dstTime == old(tz.dstTime))
      ensures tickRate > 0 ==>
                status == 0 && t.Value() == TimeAt(reset.Value(), nticks, tickRate) &&
                (tz != null ==> tz.minutesWest == zone.minutesWest && tz.dstTime == zone.dstTime)
    {
      if tickRate > 0 {
        t.sec := ToS32(reset.sec + nticks / tickRate);
        t.usec := ToS32(reset.usec + nticks * (US / tickRate) % US);
        Carry(t);
        if tz != null {
          tz.minutesWest := zone.minutesWest;
          tz.dstTime := zone.dstTime;
        }
        return 0;
      }
      return -ENOTSUP;
    }
  }

  /** First, seconds are borrowed until the microseconds are not negative, or none are left. */
  method Borrow(t: TimeVal)
    modifies t
    ensures t.Value() == old(if t.usec < 0 then Carried(t.sec, t.usec) else t.Value())
  {
    ghost var sec0, usec0 := t.sec, t.usec;
    ghost var k := 0;
    while t.usec < 0
      invariant k >= 0 && t.usec == usec0 + k * US
      invariant t.sec == sec0 - k && (k > 0 ==> t.sec >= 0 && t.usec < US)
      decreases US - t.usec
    {
      if t.sec <= 0 {
        t.sec := 0;
        t.usec := 0;
        break;
      } else {
        t.sec := t.sec - 1;
        t.usec := t.usec + US;
        k := k + 1;
      }
    }
    BorrowExact(sec0, usec0, k, t.sec, t.usec);
  }

  /** Then seconds are carried out of too many microseconds. */
  method Carry(t: TimeVal)
    modifies t
    ensures t.Value() == old(Carried(t.sec, t.usec))
  {
    Borrow(t);
    ghost var sec1, usec1 := t.sec, t.usec;
    ghost var j := 0;
    while t.usec >= US
      invariant j >= 0 && 0 <= t.usec == usec1 - j * US
      invariant t.sec == ToS32(sec1 + j)
      decreases t.usec
    {
      ToS32Step(sec1 + j, 1);
      t.sec := ToS32(t.sec + 1);
      t.usec := t.usec - US;
      j := j + 1;
    }
  }

  lemma BorrowExact(sec0: S32, usec0: S32, k: int, sec: S32, usec: S32)
    requires usec0 >= 0 ==> k == 0
    requires k >= 0 && (k > 0 ==> usec0 + k * US < US)
    requires (usec == usec0 + k * US >= 0 && sec == sec0 - k && (k > 0 ==> sec >= 0)) ||
             (sec == 0 && usec == 0 && usec0 + k * US < 0 && sec0 - k <= 0)
    ensures usec0 < 0 ==> Time(sec, usec) == Carried(sec0, usec0)
    ensures usec0 >= 0 ==> sec == sec0 && usec == usec0
  {
  }

  // -----------------------------------------------------------------------------------------
  // A get undoes a set
  // -----------------------------------------------------------------------------------------

  /** The 32-bit product of the setter has lost no part of a second. */
  predicate SetterExact(n: U32, rate: U32)
    requires rate > 0
  {
    n * TickLength(rate) / WORD % 15625 == 0
  }

  /** 2^32 is 967296 modulo a million, whose greatest common divisor with a million is 64. */
  lemma WrapLosesNothing(q: nat)
    ensures q * 967296 % US == 0 <==> q % 15625 == 0
  {
    if q * 967296 % US == 0 {
      var m := q * 967296 / US;
      assert q * 15114 == 15625 * m;
      var j := 12659 * m - q * 12245;
      assert q == 15625 * j;
      DivModUnique(j, 0, 15625);
    }
    if q % 15625 == 0 {
      var j := q / 15625;
      assert q * 967296 == j * 15114 * US;
      DivModUnique(j * 15114, 0, US);
    }
  }

  /** What the 32-bit product leaves of the microseconds, against the 64-bit one. */
  lemma SetterGap(n: U32, rate: U32)
    requires rate > 0
    ensures var x := n * TickLength(rate); SetterExact(n, rate) <==> x % WORD % US == x % US
  {
    var x := n * TickLength(rate);
    var q := x / WORD;
    WrapLosesNothing(q);
    assert x == q * WORD + x % WORD;
    assert x - x % WORD == q * 4294 * US + q * 967296;
    SameMod(x, x % WORD, q * 4294, q * 967296);
  }

  lemma SameMod(x: int, y: int, k: int, d: int)
    requires x - y == k * US + d
    ensures x % US == y % US <==> d % US == 0
  {
  }

  /** The carry loops keep the instant, unless it lies before zero. */
  lemma CarryKeepsInstant(sec: int, usec: int)
    requires 0 <= sec < 0x7fff_ffff && -US < usec < 2 * US
    ensures var r, total := Carried(sec, usec), sec * US + usec;
            if total >= 0 then Normal(r) && Micros(r) == total else r == Time(0, 0)
  {
  }

  /** Whatever was set: borrowing keeps every instant that is not before zero, and so does carrying,
      as long as the seconds fit. */
  lemma CarryExactly(sec: S32, usec: S32)
    ensures var r, total := Carried(sec, usec), sec * US + usec;
            && 0 <= r.usec < US
            && (usec < 0 ==> if total >= 0 then Normal(r) && Micros(r) == total else r == Time(0, 0))
            && (usec >= 0 ==> (Micros(r) == total <==> total < 0x8000_0000 * US))
  {
    DivMod(usec);
  }

  lemma DivMod(usec: int)
    ensures usec == usec / US * US + usec % US && 0 <= usec % US < US
  {
  }

  lemma TicksInSeconds(n: nat, rate: nat)
    requires rate > 0 && US % rate == 0
    ensures n * TickLength(rate) == n / rate * US + n * TickLength(rate) % US
  {
    var step := TickLength(rate);
    var q, r := n / rate, n % rate;
    DivBounds(n, rate);
    DivBounds(US, rate);
    Regroup(q, r, rate, step);
    MulLess(r, rate, step);
    assert rate * step == US && r * step >= 0;
    DivModUnique(q, r * step, US);
  }

  /** After a set, a get reads the time that was set and the ticks since then, exactly when the
      32-bit product of the setter has lost no part of a second.  Between different ticks that
      takes a tick of a whole number of microseconds; on the same tick it does not matter. */
  lemma SetThenGet(t: Time, n0: U32, n1: U32, rate: U32)
    requires Normal(t) && rate > 0 && n0 <= n1
    requires n0 == n1 || US % rate == 0
    requires t.sec + n1 / rate - n0 / rate < 0x7fff_ffff
    ensures var r := TimeAt(OffsetOf(t, n0, rate), n1, rate);
            var want := Micros(t) + (n1 - n0) * TickLength(rate);
            && (SetterExact(n0, rate) ==> Normal(r) && Micros(r) == want)
            && (want > 0 && Micros(r) == want ==> SetterExact(n0, rate))
  {
    hide SetterExact, Carried;
    var step := TickLength(rate);
    var p0, p1 := n0 * step, n1 * step;
    SetterGap(n0, rate);
    DivMonotone(n0, n1, rate);
    var sec := t.sec + n1 / rate - n0 / rate;
    var usec := t.usec - p0 % WORD % US + p1 % US;
    ToS32Step(t.sec - n0 / rate, n1 / rate);
    assert TimeAt(OffsetOf(t, n0, rate), n1, rate) == Carried(sec, usec);
    CarryKeepsInstant(sec, usec);
    assert p1 - p0 == (n1 / rate - n0 / rate) * US + (p1 % US - p0 % US) by {
      if n0 != n1 {
        TicksInSeconds(n0, rate);
        TicksInSeconds(n1, rate);
      }
    }
    assert (n1 - n0) * step == p1 - p0;
    assert p1 >= p0 by {
      if n0 < n1 { MulLess(n0, n1, step); }
    }
  }

  /** Successive gets do not run backwards when the rate divides a million. */
  lemma GetsAreMonotone(t: Time, n0: U32, n1: U32, n2: U32, rate: U32)
    requires Normal(t) && rate > 0 && n0 <= n1 <= n2 && US % rate == 0
    requires SetterExact(n0, rate)
    requires t.sec + n2 / rate - n0 / rate < 0x7fff_ffff
    ensures var o := OffsetOf(t, n0, rate);
            Micros(TimeAt(o, n1, rate)) + (n2 - n1) * TickLength(rate) == Micros(TimeAt(o, n2, rate))
  {
    hide SetterExact, TimeAt, OffsetOf, TickLength;
    DivMonotone(n1, n2, rate);
    SetThenGet(t, n0, n1, rate);
    SetThenGet(t, n0, n2, rate);
    var step := TickLength(rate);
    assert (n2 - n1) * step == (n2 - n0) * step - (n1 - n0) * step;
  }

  /** Seventy-two minutes after a reset at a hundred ticks a second the product has wrapped: a
      get on the very tick of the set is a third of a second out. */
  lemma WrappedSetIsLost()
    ensures var t := Time(1000, 0);
            && !SetterExact(429_497, 100)
            && TimeAt(OffsetOf(t, 429_497, 100), 429_497, 100) == Time(1000, 967_296)
  {
    assert TickLength(100) == 10_000;
    assert 429_497 * 10_000 == 4_294_970_000;
    assert 4_294_970_000 / WORD == 1;
    assert 4_294_970_000 % WORD == 2704;
    assert 4_294_970_000 % US == 970_000;
  }

  // -----------------------------------------------------------------------------------------
  // When the clock runs backwards by itself
  // -----------------------------------------------------------------------------------------

  /** The time since the reset at tick n, seconds and microseconds computed apart. */
  function Uptime(n: nat, rate: nat): int
    requires rate > 0
  {
    n / rate * US + n * TickLength(rate) % US
  }

  /** What a get reads at tick n if the time was never set. */
  function ReadAt(n: U32, rate: U32): int
    requires rate > 0
  {
    Micros(TimeAt(Time(0, 0), n, rate))
  }

  /** A get without a set reads the uptime exactly as long as the seconds fit; later it reads a
      negative time. */
  lemma UptimeIsRead(n: U32, rate: U32)
    requires rate > 0
    ensures ReadAt(n, rate) == Uptime(n, rate) - (if n / rate < 0x8000_0000 then 0 else WORD * US)
    ensures ReadAt(n, rate) >= 0 <==> n / rate < 0x8000_0000
    ensures 0 <= TimeAt(Time(0, 0), n, rate).usec < US
  {
    QuotientAtMost(n, rate);
    ReadParts(n, rate);
    CarriedInSeconds(n / rate, n * TickLength(rate) % US);
    hide TimeAt, Carried, ToS32, TickLength;
  }

  lemma QuotientAtMost(n: nat, d: nat)
    requires d > 0
    ensures 0 <= n / d <= n
  {
    DivBounds(n, d);
    if d > 1 {
      Times(n / d, d);
    }
  }

  lemma ReadParts(n: U32, rate: U32)
    requires rate > 0
    ensures TimeAt(Time(0, 0), n, rate) == Carried(ToS32(n / rate), n * TickLength(rate) % US)
  {
    hide Carried, TickLength;
  }

  lemma CarriedInSeconds(sec: nat, usec: nat)
    requires sec < WORD && usec < US
    ensures var r := Carried(ToS32(sec), usec);
            && Micros(r) == sec * US + usec - (if sec < 0x8000_0000 then 0 else WORD * US)
            && (Micros(r) >= 0 <==> sec < 0x8000_0000)
            && r.usec == usec
  {
  }

  /** No tick takes the time back, until the tick counter itself wraps. */
  ghost predicate Forwards(rate: U32)
    requires rate > 0
  {
    forall n: nat :: n + 1 < WORD ==> ReadAt(n, rate) <= ReadAt(n + 1, rate)
  }

  lemma SecondsFit(n: U32, rate: U32)
    requires rate > 1
    ensures n / rate < 0x8000_0000
  {
    DivBounds(n, rate);
    Times(n / rate, rate);
  }

  /** The seconds and the microseconds are computed apart, and the seconds in 31 bits, so the time
      steps back unless the rate divides a million and is not one, or is so high that ticks have
      no length at all. */
  lemma ForwardsExactly(rate: U32)
    requires rate > 0
    ensures Forwards(rate) <==> (US % rate == 0 && rate > 1) || rate > US
  {
    hide TimeAt, ReadAt, Uptime;
    if rate == 1 {
      SecondsRunOut();
    } else if US % rate == 0 || rate > US {
      forall n: nat | n + 1 < WORD ensures ReadAt(n, rate) <= ReadAt(n + 1, rate) {
        UptimeGrows(n, rate);
        SecondsFit(n, rate);
        SecondsFit(n + 1, rate);
        UptimeIsRead(n, rate);
        UptimeIsRead(n + 1, rate);
      }
    } else {
      var n := StepBack(rate);
      SecondsFit(n, rate);
      SecondsFit(n + 1, rate);
      UptimeIsRead(n, rate);
      UptimeIsRead(n + 1, rate);
      assert ReadAt(n, rate) > ReadAt(n + 1, rate);
    }
  }

  lemma UptimeGrows(n: nat, rate: nat)
    requires rate > 0 && (US % rate == 0 || rate > US)
    ensures Uptime(n, rate) <= Uptime(n + 1, rate)
  {
    DivMonotone(n, n + 1, rate);
    if US % rate == 0 {
      TicksInSeconds(n, rate);
      TicksInSeconds(n + 1, rate);
      MulLess(n, n + 1, TickLength(rate));
    } else {
      assert TickLength(rate) == 0;
    }
  }

  /** At one tick a second the seconds turn negative after 2^31 ticks. */
  lemma SecondsRunOut()
    ensures TimeAt(Time(0, 0), 0x7fff_ffff, 1) == Time(0x7fff_ffff, 0)
    ensures TimeAt(Time(0, 0), 0x8000_0000, 1) == Time(-0x8000_0000, 0)
    ensures ReadAt(0x7fff_ffff, 1) > ReadAt(0x7fff_ffff + 1, 1)
  {
    assert TickLength(1) == US;
    DivModUnique(0x7fff_ffff, 0, US);
    DivModUnique(0x8000_0000, 0, US);
  }

  lemma StepBack(rate: nat) returns (n: nat)
    requires 0 < rate <= US && US % rate != 0
    ensures n + 1 < WORD && Uptime(n, rate) > Uptime(n + 1, rate)
  {
    var step := TickLength(rate);
    DivBounds(US, rate);
    DivBounds(US - 1, step);
    n := (US - 1) / step;
    Lengths(rate, step);
    // the last tick before the microseconds wrap, inside the second second
    WithinSecond(n, rate, step);
    assert (n + 1) * step == n * step + step;
    DivModUnique(0, n * step, US);
    DivModUnique(1, (n + 1) * step - US, US);
  }

  lemma Lengths(rate: nat, step: nat)
    requires 0 < rate <= US && US % rate != 0 && step == US / rate
    ensures rate >= 2 && 1 <= step <= US / 2 && rate * step < US < rate * step + rate
  {
    DivBounds(US, rate);
    if step > US / 2 {
      MulLess(1, rate, step);
    }
    assert rate * step == step * rate;
  }

  lemma WithinSecond(n: nat, rate: nat, step: nat)
    requires rate >= 2 && 1 <= step && rate * step < US < rate * step + rate && step <= US / 2
    requires n == (US - 1) / step
    ensures n * step < US <= n * step + step
    ensures n / rate == 1 && (n + 1) / rate == 1 && n < US
  {
    DivBounds(US - 1, step);
    assert (n + 1) * step == n * step + step;
    if n + 1 < rate {
      MulLess(n + 1, rate, step);
    }
    NotSoFar(n, rate, step);
    DivModUnique(1, n - rate, rate);
    DivModUnique(1, n + 1 - rate, rate);
  }

  lemma NotSoFar(n: nat, rate: nat, step: nat)
    requires rate >= 2 && step >= 1
    requires n * step < US < rate * step + rate
    ensures n + 1 < 2 * rate && n < US
  {
    assert n * (step - 1) >= 0;
    if step >= 2 && n >= rate {
      var e := n - rate;
      Times(e, step);
      Distribute(rate, e, step);
    }
  }
}
