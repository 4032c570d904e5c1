/** The millisecond clock difference and the timers driven by it. */
module Timer {
  import opened Common

  // ---- the 32-bit clock ----

  const TWO31: int := 0x8000_0000
  const TWO32: int := 0x1_0000_0000

  /** The conversion of a true millisecond count to int32_t. */
  function Wrap(t: int): int {
    (t + TWO31) % TWO32 - TWO31
  }

  /** How often the clock has wrapped at time t. */
  function Epoch(t: int): int {
    (t + TWO31) / TWO32
  }

  /** The first branch subtracts and adds as unsigned 32-bit numbers, then converts back. The second
      is a signed subtraction, which the program needs not to overflow. */
  function GetTimeDiff(oldTime: int, newTime: int): int {
    if oldTime > newTime then Wrap((0xFFFF_FFFF - oldTime % TWO32 + newTime % TWO32) % TWO32)
    else newTime - oldTime
  }

  /** For any two true times less than 2^31 apart, the difference taken from the wrapped clock is the
      true one, less one if the clock wrapped in between; so it is exact if and only if it did not. */
  lemma TimeDiffOfWrappedClock(t: int, d: int)
    requires 0 <= d < TWO31
    ensures t == Wrap(t) + 0x1_0000_0000 * Epoch(t) && -0x8000_0000 <= Wrap(t) < 0x8000_0000
    ensures Epoch(t) <= Epoch(t + d) <= Epoch(t) + 1
    ensures GetTimeDiff(Wrap(t), Wrap(t + d)) == d - (Epoch(t + d) - Epoch(t))
    ensures 0 <= GetTimeDiff(Wrap(t), Wrap(t + d))
  {
  }

  // ---- PeriodicTimer ----

  /** The timer's remaining time after an Update by diff, and whether it fired. */
  function Tick(remaining: int, period: int, diff: int): (int, bool) {
    if remaining - diff > 0 then (remaining - diff, false)
    else (remaining - diff + if period > diff then period else diff, true)
  }

  class PeriodicTimer {
    var period: int
    var expireTime: int

    constructor (period: int, startTime: int)
      ensures this.period == period && expireTime == startTime
    {
      this.period, expireTime := period, startTime;
    }

    method Update(diff: int) returns (fired: bool)
      modifies this`expireTime
      ensures (expireTime, fired) == Tick(old(expireTime), period, diff)
    {
      expireTime := expireTime - diff;
      if expireTime > 0 { return false; }
      expireTime := expireTime + if period > diff then period else diff;
      return true;
    }

    method TUpdate(diff: int)
      modifies this`expireTime
      ensures expireTime == old(expireTime) - diff
    {
      expireTime := expireTime - diff;
    }

    method TPassed() returns (passed: bool)
      ensures passed <==> expireTime <= 0
    {
      passed := expireTime <= 0;
    }

    method TReset(diff: int, period: int)
      modifies this`expireTime
      ensures expireTime == old(expireTime) + if period > diff then period else diff
    {
      expireTime := expireTime + if period > diff then period else diff;
    }

    /** The tracker interface, used as Update is meant to be, does exactly what Update does. */
    method TrackerRound(diff: int) returns (fired: bool)
      modifies this`expireTime
      ensures (expireTime, fired) == Tick(old(expireTime), period, diff)
    {
      TUpdate(diff);
      fired := TPassed();
      if fired { TReset(diff, period); }
    }
  }

  /** The remaining time after a sequence of updates, and how often the timer fired. */
  function Ticks(remaining: int, period: int, diffs: seq<int>): (int, nat)
    decreases |diffs|
  {
    if diffs == [] then (remaining, 0)
    else
      var (next, fired) := Tick(remaining, period, diffs[0]);
      var (last, fires) := Ticks(next, period, diffs[1..]);
      (last, fires + if fired then 1 else 0)
  }

  /** How often a timer started at start should have fired by time total. */
  function Due(start: int, period: int, total: int): int
    requires period > 0
  {
    if total < start then 0 else (total - start) / period + 1
  }

  lemma {:induction false} TicksBalance(remaining: int, period: int, diffs: seq<int>)
    requires remaining > 0 && period > 0
    requires forall i :: 0 <= i < |diffs| ==> 0 <= diffs[i] <= period
    ensures var (last, fires) := Ticks(remaining, period, diffs);
      && last == remaining + fires * period - Sum(diffs)
      && 0 < last && (fires > 0 ==> last <= period) && (fires == 0 ==> last <= remaining)
      && (remaining <= period ==> last <= period)
    decreases |diffs|
  {
    if diffs != [] {
      var (next, fired) := Tick(remaining, period, diffs[0]);
      TicksBalance(next, period, diffs[1..]);
      var (last, fires) := Ticks(next, period, diffs[1..]);
      if fired { assert (fires + 1) * period == fires * period + period; }
    }
  }

  /** With updates of at most a period each, the timer fires exactly as often as its schedule says,
      however the time is split over the updates. */
  lemma FiresOnSchedule(start: int, period: int, diffs: seq<int>)
    requires start > 0 && period > 0
    requires forall i :: 0 <= i < |diffs| ==> 0 <= diffs[i] <= period
    ensures Ticks(start, period, diffs).1 == Due(start, period, Sum(diffs))
  {
    TicksBalance(start, period, diffs);
    var (last, fires) := Ticks(start, period, diffs);
    var total := Sum(diffs);
    if fires > 0 {
      assert (fires - 1) * period == fires * period - period;
      DivModUnique(total - start, period, fires - 1, total - start - period * (fires - 1));
      TimesMonotone(period, 0, fires - 1);
    }
  }

  /** An update longer than the period counts as one period. */
  function Capped(diffs: seq<int>, period: int): seq<int> {
    seq(|diffs|, i requires 0 <= i < |diffs| => if diffs[i] > period then period else diffs[i])
  }

  lemma {:induction false} LongUpdatesCountAsOnePeriod(remaining: int, period: int, diffs: seq<int>)
    requires 0 < remaining <= period
    requires forall i :: 0 <= i < |diffs| ==> 0 <= diffs[i]
    ensures Ticks(remaining, period, diffs) == Ticks(remaining, period, Capped(diffs, period))
    decreases |diffs|
  {
    if diffs != [] {
      assert Capped(diffs, period)[1..] == Capped(diffs[1..], period);
      LongUpdatesCountAsOnePeriod(Tick(remaining, period, diffs[0]).0, period, diffs[1..]);
    }
  }

  lemma {:induction false} CappedSum(diffs: seq<int>, period: int)
    requires period > 0 && forall i :: 0 <= i < |diffs| ==> 0 <= diffs[i]
    ensures 0 <= Sum(Capped(diffs, period)) <= Sum(diffs)
    decreases |diffs|
  {
    if diffs != [] {
      assert Capped(diffs, period)[1..] == Capped(diffs[1..], period);
      CappedSum(diffs[1..], period);
    }
  }

  /** For updates of any length and a start of at most a period, the timer always has a remaining time
      in (0, period], fires exactly on the schedule of the capped updates, and so never ahead of the
      schedule of the true time. */
  lemma NeverAheadOfSchedule(start: int, period: int, diffs: seq<int>)
    requires 0 < start <= period
    requires forall i :: 0 <= i < |diffs| ==> 0 <= diffs[i]
    ensures var (last, fires) := Ticks(start, period, diffs);
      && 0 < last <= period
      && fires == Due(start, period, Sum(Capped(diffs, period)))
      && fires <= Due(start, period, Sum(diffs))
  {
    var capped := Capped(diffs, period);
    LongUpdatesCountAsOnePeriod(start, period, diffs);
    FiresOnSchedule(start, period, capped);
    TicksBalance(start, period, capped);
    CappedSum(diffs, period);
    var a, b := Sum(capped) - start, Sum(diffs) - start;
    if a >= 0 {
      DivMonotone(a, b, period);
    } else if b >= 0 {
      DivMonotone(0, b, period);
    }
  }

  // ---- IntervalTimer ----

  datatype IntervalOp = Update(diff: int) | Reset

  function Clocked(interval: int, current: int, op: IntervalOp): int
    requires interval > 0
  {
    match op
    case Update(diff) => if current + diff < 0 then 0 else current + diff
    case Reset => if current >= interval then current % interval else current
  }

  class IntervalTimer {
    var interval: int
    var current: int

    constructor ()
      ensures interval == 0 && current == 0
    {
      interval, current := 0, 0;
    }

    method Update(diff: int)
      modifies this`current
      ensures interval > 0 ==> current == Clocked(interval, old(current), IntervalOp.Update(diff))
      ensures current >= 0
    {
      current := current + diff;
      if current < 0 { current := 0; }
    }

    method Passed() returns (passed: bool)
      ensures passed <==> current >= interval
    {
      passed := current >= interval;
    }

    /** A zero interval would divide by zero here. */
    method Reset()
      requires interval != 0 || current < interval
      modifies this`current
      ensures current == if old(current) >= interval then Remainder(old(current), interval) else old(current)
      ensures interval > 0 ==> current == Clocked(interval, old(current), IntervalOp.Reset)
    {
      if current >= interval {
        current := Remainder(current, interval);
      }
    }

    method SetCurrent(current: int)
      modifies this`current
      ensures this.current == current
    {
      this.current := current;
    }

    method SetInterval(interval: int)
      modifies this`interval
      ensures this.interval == interval
    {
      this.interval := interval;
    }
  }

  /** The remainder of a division that truncates toward zero. */
  function Remainder(a: int, b: int): (r: int)
    requires b != 0
    ensures (a >= 0 ==> 0 <= r < (if b > 0 then b else -b)) && (a <= 0 ==> (if b > 0 then -b else b) < r <= 0)
  {
    if a >= 0 then a % b else -((-a) % b)
  }

  function Quotient(a: int, b: int): int
    requires b != 0
  {
    if a >= 0 then a / b else -((-a) / b)
  }

  lemma RemainderOfQuotient(a: int, b: int)
    requires b != 0
    ensures a == Quotient(a, b) * b + Remainder(a, b)
  {
    if a < 0 {
      assert -a == ((-a) / b) * b + (-a) % b;
    }
  }

  function ClockedAll(interval: int, current: int, ops: seq<IntervalOp>): int
    requires interval > 0
    decreases |ops|
  {
    if ops == [] then current else ClockedAll(interval, Clocked(interval, current, ops[0]), ops[1..])
  }

  function Total(ops: seq<IntervalOp>): int {
    if ops == [] then 0 else (match ops[0] case Update(d) => d case Reset => 0) + Total(ops[1..])
  }

  // ---- when the interval has passed ----

  ghost predicate OnlyUpdates(ops: seq<IntervalOp>) {
    forall i :: 0 <= i < |ops| ==> ops[i].Update?
  }

  /** The least of all values the unclamped sum goes through. */
  function Lowest(start: int, ops: seq<IntervalOp>): int
    decreases |ops|
  {
    if ops == [] then start
    else
      var rest := Lowest(start + (match ops[0] case Update(d) => d case Reset => 0), ops[1..]);
      if start < rest then start else rest
  }

  lemma {:induction false} LowestShifts(start: int, more: int, ops: seq<IntervalOp>)
    ensures Lowest(start + more, ops) == Lowest(start, ops) + more
    decreases |ops|
  {
    if ops != [] {
      LowestShifts(start + (match ops[0] case Update(d) => d case Reset => 0), more, ops[1..]);
    }
  }

  /** Between resets the timer holds the sum of the updates, raised by what the clamping at zero has kept
      from going below it. */
  lemma {:induction false} UpdatesAddUp(interval: int, start: int, ops: seq<IntervalOp>)
    requires interval > 0 && start >= 0 && OnlyUpdates(ops)
    ensures ClockedAll(interval, start, ops) ==
      start + Total(ops) - if Lowest(start, ops) < 0 then Lowest(start, ops) else 0
    decreases |ops|
  {
    if ops != [] {
      var next := Clocked(interval, start, ops[0]);
      UpdatesAddUp(interval, next, ops[1..]);
      LowestShifts(start + ops[0].diff, next - (start + ops[0].diff), ops[1..]);
      LowestAtMostStart(start + ops[0].diff, ops[1..]);
    }
  }

  lemma {:induction false} LowestAtMostStart(start: int, ops: seq<IntervalOp>)
    ensures Lowest(start, ops) <= start
  {
  }

  lemma {:induction false} ClockedConcat(interval: int, current: int, a: seq<IntervalOp>, b: seq<IntervalOp>)
    requires interval > 0
    ensures ClockedAll(interval, current, a + b) == ClockedAll(interval, ClockedAll(interval, current, a), b)
    decreases |a|
  {
    if a == [] {
      assert a + b == b;
    } else {
      assert (a + b)[1..] == a[1..] + b;
      ClockedConcat(interval, Clocked(interval, current, a[0]), a[1..], b);
    }
  }

  /** So the interval has passed exactly when the time since the last reset, on top of what that left of
      all the time before, has reached it. */
  lemma TimeSinceReset(interval: int, start: int, before: seq<IntervalOp>, since: seq<IntervalOp>)
    requires interval > 0 && start >= 0 && OnlyUpdates(since)
    requires forall i :: 0 <= i < |before| && before[i].Update? ==> before[i].diff >= 0
    requires forall i :: 0 <= i < |since| ==> since[i].diff >= 0
    ensures ClockedAll(interval, start, before + [Reset] + since) ==
      (start + Total(before)) % interval + Total(since)
  {
    ClockedConcat(interval, start, before + [Reset], since);
    ClockedConcat(interval, start, before, [Reset]);
    ResetsLoseNothing(interval, start, before);
    assert [IntervalOp.Reset][1..] == [];
    var left := (start + Total(before)) % interval;
    UpdatesAddUp(interval, left, since);
    GrowingIsNeverLower(left, since);
  }

  lemma {:induction false} GrowingIsNeverLower(start: int, ops: seq<IntervalOp>)
    requires start >= 0 && forall i :: 0 <= i < |ops| && ops[i].Update? ==> ops[i].diff >= 0
    ensures Lowest(start, ops) == start
    decreases |ops|
  {
    if ops != [] {
      GrowingIsNeverLower(start + (match ops[0] case Update(d) => d case Reset => 0), ops[1..]);
    }
  }

  lemma ModAdd(x: int, d: int, m: int)
    requires m > 0
    ensures (x % m + d) % m == (x + d) % m
  {
    var q := x / m;
    assert x + d == m * q + (x % m + d);
    ModShift(x % m + d, q, m);
  }

  lemma ModShift(x: int, q: int, m: int)
    requires m > 0
    ensures (m * q + x) % m == x % m
  {
    assert m * (q + x / m) == m * q + m * (x / m);
    DivModUnique(m * q + x, m, q + x / m, x % m);
  }

  lemma {:induction false} CongruentAlways(interval: int, current: int, ops: seq<IntervalOp>)
    requires interval > 0 && current >= 0
    requires forall i :: 0 <= i < |ops| && ops[i].Update? ==> ops[i].diff >= 0
    ensures var end := ClockedAll(interval, current, ops);
      end >= 0 && end % interval == (current + Total(ops)) % interval
    decreases |ops|
  {
    if ops != [] {
      var next := Clocked(interval, current, ops[0]);
      CongruentAlways(interval, next, ops[1..]);
      if ops[0].Reset? {
        ModAdd(current, Total(ops[1..]), interval);
        ModAdd(next, Total(ops[1..]), interval);
      }
    }
  }

  /** However Update and Reset are interleaved, a final Reset leaves the total time modulo the interval:
      resetting loses no time. */
  lemma ResetsLoseNothing(interval: int, start: int, ops: seq<IntervalOp>)
    requires interval > 0 && start >= 0
    requires forall i :: 0 <= i < |ops| && ops[i].Update? ==> ops[i].diff >= 0
    ensures Clocked(interval, ClockedAll(interval, start, ops), Reset) == (start + Total(ops)) % interval
  {
    CongruentAlways(interval, start, ops);
    SmallRemainder(ClockedAll(interval, start, ops), interval);
  }

  lemma SmallRemainder(x: int, m: int)
    requires m > 0 && x >= 0
    ensures Clocked(m, x, Reset) == x % m
  {
  }
}
