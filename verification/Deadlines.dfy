/** Deadlines on a monotonic clock: normalised time stamps, their difference in milliseconds as a 32-bit
    integer, and the timeout predicate on it. */
module Deadlines {
  import opened Wrappers

  const MILLION: int := 1000000
  const BILLION: int := 1000000000
  const TWO_31: int := 0x8000_0000
  const TWO_32: int := 0x1_0000_0000

  /** A timer with this much time left, or more, counts as expired. */
  const TIMER_MAX_INTERVAL: int := 86400000

  newtype uint32 = x: int | 0 <= x < 0x1_0000_0000

  /** A `struct timespec`. */
  datatype Time = Time(sec: int, nsec: int)

  predicate Normal(t: Time) {
    0 <= t.nsec < BILLION
  }

  /** What a time stamp means, in nanoseconds. */
  function Nanos(t: Time): int {
    t.sec * BILLION + t.nsec
  }

  /** Conversion of a long to an int. */
  function ToInt32(x: int): (r: int)
    ensures -0x8000_0000 <= r < 0x8000_0000 && (r - x) % 0x1_0000_0000 == 0
    ensures -0x8000_0000 <= x < 0x8000_0000 <==> r == x
  {
    (x + TWO_31) % TWO_32 - TWO_31
  }

  /** Division that truncates toward zero. */
  function TruncDiv(a: int, b: int): int
    requires 0 < b
  {
    if a < 0 then -(-a / b) else a / b
  }

  /** From `start` to `stop`. */
  function IntvMs(start: Time, stop: Time): int {
    if stop.nsec - start.nsec < 0 then
      var intvMs := ToInt32((stop.sec - start.sec - 1) * 1000);
      ToInt32(intvMs + TruncDiv(stop.nsec - start.nsec + BILLION, MILLION))
    else
      var intvMs := ToInt32((stop.sec - start.sec) * 1000);
      ToInt32(intvMs + TruncDiv(stop.nsec - start.nsec, MILLION))
  }

  predicate IsTimeout(curr: Time, tmr: Time) {
    var intv := IntvMs(curr, tmr);
    intv <= 0 || intv >= TIMER_MAX_INTERVAL
  }

  /** A time stamp that is updated through a pointer. */
  class Timer {
    var sec: int
    var nsec: int

    function Value(): Time
      reads this
    {
      Time(sec, nsec)
    }

    constructor (t: Time)
      ensures Value() == t
    {
      sec, nsec := t.sec, t.nsec;
    }

    /** Add up to about two seconds. The carry is missed at exactly one second and is never more than one. */
    method AddNs(ns: int)
      modifies this
      ensures var sum := old(nsec) + ns;
        && (0 <= nsec < 1000000000 <==> 0 <= sum && sum != 1000000000)
        && (sec * 1000000000 + nsec == old(sec) * 1000000000 + sum <==> sum < 2000000000)
        && sec == old(sec) + (if sum > 1000000000 then 1 else 0)
        && nsec == (if sum > 1000000000 then sum % 1000000000 else sum)
    {
      nsec := nsec + ns;
      if nsec > BILLION {
        sec := sec + 1;
        nsec := nsec % BILLION;
      }
    }
  }

  /** `t` is normalised and lies exactly `ms` milliseconds after `now`. */
  predicate Reached(t: Time, now: Time, ms: int) {
    Normal(t) && Nanos(t) == Nanos(now) + ms * MILLION
  }

  /** Set a timer `ms` milliseconds after now; `now` is what the clock says, if it can be read. */
  method SetMs(tmr: Timer?, now: Option<Time>, ms: uint32) returns (res: int)
    modifies tmr
    ensures res == if tmr == null || now == None then -1 else 0
    ensures tmr != null && now == None ==> tmr.Value() == old(tmr.Value())
    ensures tmr != null && now.Some? && Normal(now.value) ==> Reached(tmr.Value(), now.value, ms as int)
    ensures tmr != null && now.Some? && 0 <= now.value.nsec < 1000000000 ==>
      && 0 <= tmr.nsec < 1000000000
      && (tmr.sec - now.value.sec) * 1000000000 + tmr.nsec - now.value.nsec == ms as int * 1000000
  {
    if tmr == null {
      return -1;
    }
    if now == None {
      return -1;
    }
    var left := ms;
    tmr.sec, tmr.nsec := now.value.sec, now.value.nsec;
    tmr.sec := tmr.sec + (left / 1000) as int;
    left := left % 1000;
    tmr.nsec := tmr.nsec + (left * 1000000) as int;
    tmr.sec := tmr.sec + TruncDiv(tmr.nsec, BILLION);
    tmr.nsec := tmr.nsec % BILLION;
    res := 0;
  }

  /** There is one such time stamp. */
  lemma ReachedOnce(t: Time, u: Time, now: Time, ms: int)
    requires Reached(t, now, ms) && Reached(u, now, ms)
    ensures t == u
  {
  }

  // ---- differences ----

  lemma Multiples(a: int, b: int, c: int)
    requires a % TWO_32 == 0 && b % TWO_32 == 0 && c % TWO_32 == 0
    ensures (a + b + c) % TWO_32 == 0
  {
    assert a + b + c == TWO_32 * (a / TWO_32 + b / TWO_32 + c / TWO_32);
  }

  lemma ToInt32Unique(x: int, y: int)
    requires (x - y) % TWO_32 == 0
    ensures ToInt32(x) == ToInt32(y)
  {
    hide ToInt32;
    var d := ToInt32(x) - ToInt32(y);
    assert (y - ToInt32(y)) == -(ToInt32(y) - y);
    Multiples(ToInt32(x) - x, x - y, -(ToInt32(y) - y));
    assert d == TWO_32 * (d / TWO_32);
  }

  lemma ToInt32Add(x: int, y: int)
    ensures ToInt32(ToInt32(x) + y) == ToInt32(x + y)
  {
    ToInt32Unique(ToInt32(x) + y, x + y);
  }

  /** The difference in whole milliseconds, rounded down. */
  function Millis(start: Time, stop: Time): (ms: int)
    ensures ms * 1000000 <= (stop.sec - start.sec) * 1000000000 + stop.nsec - start.nsec < (ms + 1) * 1000000
  {
    (Nanos(stop) - Nanos(start)) / MILLION
  }

  lemma WholeSeconds(secs: int, ns: int)
    requires 0 <= ns
    ensures (secs * BILLION + ns) / MILLION == secs * 1000 + ns / MILLION && TruncDiv(ns, MILLION) == ns / MILLION
  {
  }

  /** On normalised times the interval is the difference rounded down, negative or not, cut to 32 bits; and
      the true difference exactly when that fits. */
  lemma IntvIsFloor(start: Time, stop: Time)
    requires Normal(start) && Normal(stop)
    ensures IntvMs(start, stop) == ToInt32(Millis(start, stop))
    ensures IntvMs(start, stop) == Millis(start, stop) <==> -0x8000_0000 <= Millis(start, stop) < 0x8000_0000
  {
    hide ToInt32;
    var borrow := if stop.nsec - start.nsec < 0 then 1 else 0;
    var secs, ns := stop.sec - start.sec - borrow, stop.nsec - start.nsec + borrow * BILLION;
    WholeSeconds(secs, ns);
    ToInt32Add(secs * 1000, ns / MILLION);
  }

  /** Under 2147482 seconds apart nothing is cut. */
  lemma IntvFits(start: Time, stop: Time)
    requires Normal(start) && Normal(stop) && -2147482 <= stop.sec - start.sec <= 2147482
    ensures IntvMs(start, stop) == Millis(start, stop)
  {
    IntvIsFloor(start, stop);
  }

  /** Adjacent intervals add up to the whole, or fall one millisecond short of it. */
  lemma IntvCompose(a: Time, b: Time, c: Time)
    requires Normal(a) && Normal(b) && Normal(c)
    ensures var sum := IntvMs(a, b) + IntvMs(b, c);
      IntvMs(a, c) == ToInt32(sum) || IntvMs(a, c) == ToInt32(sum + 1)
  {
    IntvIsFloor(a, b);
    IntvIsFloor(b, c);
    IntvIsFloor(a, c);
    var d := Millis(a, c) - Millis(a, b) - Millis(b, c);
    assert d == 0 || d == 1;
    ToInt32Add(Millis(a, b), IntvMs(b, c) + d);
    ToInt32Add(Millis(b, c), Millis(a, b) + d);
  }

  // ---- deadlines ----

  lemma Expired(ms: int)
    ensures 0 < ToInt32(ms) < 86400000 <==> 1 <= ms % 0x1_0000_0000 < 86400000
  {
  }

  /** The timer is running exactly when, after cutting to 32 bits, between one millisecond and a day is left. */
  lemma RunningExactly(curr: Time, tmr: Time)
    requires Normal(curr) && Normal(tmr)
    ensures !IsTimeout(curr, tmr) <==> 1 <= Millis(curr, tmr) % 0x1_0000_0000 < 86400000
  {
    hide IntvMs, Millis, ToInt32;
    IntvIsFloor(curr, tmr);
    Expired(Millis(curr, tmr));
  }

  /** The timer set at `start` for `ms`, looked at any later: as long as its deadline is no more than
      2^32 - 86400000 ms past, it counts as expired exactly when less than one millisecond is left, or a day
      or more. */
  lemma DeadlineExactly(start: Time, ms: uint32, tmr: Time, curr: Time)
    requires Normal(start) && Normal(curr) && Reached(tmr, start, ms as int) && Nanos(start) <= Nanos(curr)
    requires Millis(curr, tmr) >= 86400000 - 0x1_0000_0000
    ensures var left := Nanos(tmr) - Nanos(curr);
      IsTimeout(curr, tmr) <==> left < 1000000 || left >= 86400000 * 1000000
  {
    RunningExactly(curr, tmr);
  }

  /** A timer set for less than a day does not expire before its last millisecond, and then stays expired. */
  lemma StaysExpired(start: Time, ms: uint32, tmr: Time, curr: Time, later: Time)
    requires Normal(start) && Normal(curr) && Normal(later)
    requires Reached(tmr, start, ms as int) && ms as int < 86400000
    requires Nanos(start) <= Nanos(curr) <= Nanos(later) && Millis(later, tmr) >= 86400000 - 0x1_0000_0000
    ensures IsTimeout(curr, tmr) <==> Nanos(curr) > Nanos(start) + (ms as int - 1) * 1000000
    ensures IsTimeout(curr, tmr) ==> IsTimeout(later, tmr)
  {
    DeadlineExactly(start, ms, tmr, curr);
    DeadlineExactly(start, ms, tmr, later);
  }

  /** A timer set for a day or more reports a timeout at once. */
  lemma LongTimer(start: Time, ms: uint32, tmr: Time)
    requires Normal(start) && Reached(tmr, start, ms as int)
    ensures IsTimeout(start, tmr) <==> ms == 0 || ms as int >= 86400000
  {
    DeadlineExactly(start, ms, tmr, start);
  }

  /** The bound is exact: one millisecond further past its deadline, every timer counts as running again. */
  lemma RunsAgain(tmr: Time, curr: Time)
    requires Normal(tmr) && Normal(curr) && Millis(curr, tmr) == 86400000 - 0x1_0000_0000 - 1
    ensures !IsTimeout(curr, tmr)
  {
    RunningExactly(curr, tmr);
  }

  /** A time stamp that reaches exactly one second keeps it in its nanoseconds. */
  method OneSecond(sec: int) returns (t: Timer)
    ensures t.nsec == 1000000000 && t.sec == sec
  {
    t := new Timer(Time(sec, BILLION - 1));
    t.AddNs(1);
  }
}
