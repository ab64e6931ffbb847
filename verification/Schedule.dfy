/** Ticks of one host: where they fall, and how failures thin them out. */
module Schedule {

  const MAX := 0x7FFF_FFFF_FFFF_FFFF

  /** Nanoseconds in 64 bits: a sum that left the range would not verify. */
  newtype Duration = x: int | -MAX - 1 <= x <= MAX

  newtype Uint64 = x: int | 0 <= x <= 0xFFFF_FFFF_FFFF_FFFF

  datatype Failure = NoFailure | Upstream | Local

  const MAX_BACKOFF: Duration := 8
  const MINUTE: Duration := 60_000_000_000

  // Back-off

  /** How many passes in a row have failed upstream, up to now. */
  function Trailing(history: seq<Failure>): nat {
    if history == [] || !history[|history| - 1].Upstream? then 0 else 1 + Trailing(history[..|history| - 1])
  }

  function Min(a: nat, b: nat): nat {
    if a < b then a else b
  }

  function Power2(n: nat): nat {
    if n == 0 then 1 else 2 * Power2(n - 1)
  }

  // Ticks

  /** An instant, in nanoseconds since the epoch. */
  type Instant = int

  ghost predicate OnTick(t: Instant, interval: int, offset: int)
    requires interval > 0
  {
    (t - offset) % interval == 0
  }

  /** The first tick after an instant. */
  ghost predicate IsNextTick(t: Instant, now: Instant, interval: int, offset: int)
    requires interval > 0
  {
    && t > now && OnTick(t, interval, offset)
    && forall other :: now < other < t ==> !OnTick(other, interval, offset)
  }

  /** Subtracting instants saturates. */
  function SinceEpoch(now: Instant): Duration {
    if now > MAX then MAX as Duration else if now < -MAX - 1 then (-MAX - 1) as Duration else now as Duration
  }

  /** The sign of a remainder is the sign of what was divided. */
  function Truncated(a: int, b: int): int
    requires b > 0
  {
    if a >= 0 then a % b else -(-a % b)
  }

  function Remainder(a: Duration, b: Duration): (r: Duration)
    requires b > 0
    ensures -b < r < b && (a >= 0 ==> r >= 0)
  {
    Truncated(a as int, b as int) as Duration
  }

  lemma MultipleOf(k: int, b: int)
    requires b > 0
    ensures (k * b) % b == 0
  {
    var d := k - k * b / b;
    assert d * b == k * b % b;
    assert d >= 1 ==> d * b >= b;
    assert d <= -1 ==> d * b <= -b;
  }

  lemma SumOfMultiples(a: int, c: int, b: int)
    requires b > 0 && a % b == 0 && c % b == 0
    ensures (a + c) % b == 0 && (a - c) % b == 0
  {
    var i, j := a / b, c / b;
    assert a + c == (i + j) * b && a - c == (i - j) * b;
    MultipleOf(i + j, b);
    MultipleOf(i - j, b);
  }

  lemma DropRemainder(a: int, b: int)
    requires b > 0
    ensures (a - a % b) % b == 0 && (a - Truncated(a, b)) % b == 0
  {
    MultipleOf(a / b, b);
    MultipleOf(-a / b, b);
    SumOfMultiples(0, (-a / b) * b, b);
    assert a - a % b == (a / b) * b;
    assert -a - -a % b == (-a / b) * b;
  }

  /** From the phase of an instant to the delay until the next tick. */
  lemma TickAfterDelay(elapsed: int, phase: int, offset: int, interval: int, delay: int)
    requires interval > 0 && 0 <= phase < interval && (elapsed - phase) % interval == 0
    requires delay == offset % interval - phase + if offset % interval <= phase then interval else 0
    ensures 0 < delay <= interval
    ensures IsNextTick(elapsed + delay, elapsed, interval, offset)
  {
    var o, next := offset % interval, elapsed + delay;
    DropRemainder(offset, interval);
    MultipleOf(1, interval);
    SumOfMultiples(elapsed - phase, offset - o, interval);
    SumOfMultiples(elapsed - phase - (offset - o), if o <= phase then interval else 0, interval);
    forall other | elapsed < other < next ensures !OnTick(other, interval, offset) {
      if OnTick(other, interval, offset) {
        SumOfMultiples(next - offset, other - offset, interval);
        SmallMultiple(next - other, interval);
      }
    }
  }

  lemma SmallMultiple(a: int, b: int)
    requires 0 < a < b
    ensures a % b == a
  {
    assert a == 0 * b + a;
  }

  class Schedule {
    const interval: Duration
    const offset: Duration
    var upstreamFailures: int
    ghost var history: seq<Failure>

    /** The count tells everything the history can still matter for. */
    ghost predicate Valid()
      reads this
    {
      && interval > 0 && offset >= 0
      && upstreamFailures == Min(3, Trailing(history))
    }

    constructor (hash: Uint64, interval: Duration, splay: Duration)
      ensures Valid() && history == []
      ensures this.interval == if interval <= 0 then 60 * 1_000_000_000 else interval
      ensures if splay > 0 then offset as int == hash as int % splay as int else offset == 0
      ensures splay > 0 ==> 0 <= offset < splay
    {
      this.interval := if interval <= 0 then MINUTE else interval;
      offset := if splay > 0 then (hash % splay as Uint64) as Duration else 0;
      upstreamFailures, history := 0, [];
    }

    /** Doubles with each upstream failure in a row, up to the ceiling. */
    function Backoff(): (multiplier: Duration)
      requires Valid()
      reads this
      ensures multiplier as int == Power2(Min(3, Trailing(history)))
      ensures 1 <= multiplier <= MAX_BACKOFF
    {
      assert Power2(0) == 1 && Power2(1) == 2 && Power2(2) == 4 && Power2(3) == 8;
      if upstreamFailures == 0 then 1
      else if upstreamFailures >= 3 then MAX_BACKOFF
      else Power2(upstreamFailures) as Duration
    }

    method Record(failure: Failure)
      requires Valid()
      modifies this
      ensures Valid() && history == old(history) + [failure]
    {
      assert (history + [failure])[..|history|] == history;
      match failure {
        case Upstream =>
          if Backoff() < MAX_BACKOFF {
            upstreamFailures := upstreamFailures + 1;
          }
        case _ =>
          upstreamFailures := 0;
      }
      history := history + [failure];
    }

    /** The interval, backed off, or the longest there is. */
    function BackedOff(): (r: Duration)
      requires Valid()
      reads this
      ensures r >= interval
      ensures r as int ==
        if interval as int * Backoff() as int <= MAX then interval as int * Backoff() as int else MAX
    {
      if interval > MAX as Duration / Backoff() then MAX as Duration else interval * Backoff()
    }

    /** The least tick later than now, so none is made up for. */
    method Next(now: Instant) returns (next: Instant)
      requires Valid()
      ensures 0 < next - now <= BackedOff() as int
      ensures SinceEpoch(now) as int == now ==> IsNextTick(next, now, BackedOff() as int, offset as int)
      ensures IsNextTick(next - now + SinceEpoch(now) as int, SinceEpoch(now) as int, BackedOff() as int, offset as int)
    {
      var interval := BackedOff();
      var elapsed := SinceEpoch(now);
      var phase := Remainder(elapsed, interval);
      ghost var was := phase;
      if phase < 0 {
        phase := phase + interval;
      }
      var delay := Remainder(offset, interval) - phase;
      if delay <= 0 {
        delay := delay + interval;
      }
      DropRemainder(elapsed as int, interval as int);
      MultipleOf(1, interval as int);
      SumOfMultiples(elapsed as int - Truncated(elapsed as int, interval as int), if phase != was then interval as int else 0, interval as int);
      TickAfterDelay(elapsed as int, phase as int, offset as int, interval as int, delay as int);
      return now + delay as int;
    }

    /** The time until that tick. */
    method Wait(now: Instant) returns (wait: Duration)
      requires Valid()
      ensures 0 < wait <= BackedOff()
      ensures SinceEpoch(now) as int == now ==> IsNextTick(now + wait as int, now, BackedOff() as int, offset as int)
      ensures IsNextTick(wait as int + SinceEpoch(now) as int, SinceEpoch(now) as int, BackedOff() as int, offset as int)
    {
      var next := Next(now);
      return (next - now) as Duration;
    }
  }

  /** Backed-off ticks are ticks of the plain schedule exactly when the wide interval is made of whole intervals. */
  lemma {:induction false} BackedOffTicks(interval: int, wide: int, offset: int)
    requires interval > 0 && wide > 0
    ensures (forall t :: OnTick(t, wide, offset) ==> OnTick(t, interval, offset)) <==> wide % interval == 0
  {
    if wide % interval == 0 {
      forall t | OnTick(t, wide, offset) ensures OnTick(t, interval, offset) {
        var turns, parts := (t - offset) / wide, wide / interval;
        assert t - offset == turns * (parts * interval) == (turns * parts) * interval;
        MultipleOf(turns * parts, interval);
      }
    } else {
      MultipleOf(1, wide);
      assert OnTick(offset + wide, wide, offset) && !OnTick(offset + wide, interval, offset);
    }
  }

  /** Unless the interval saturated, a host that backed off still runs on its own ticks. */
  lemma {:induction false} BackedOffHostKeepsItsTicks(s: Schedule, next: Instant)
    requires s.Valid() && s.interval as int * s.Backoff() as int <= MAX
    requires OnTick(next, s.BackedOff() as int, s.offset as int)
    ensures OnTick(next, s.interval as int, s.offset as int)
  {
    MultipleOf(s.Backoff() as int, s.interval as int);
    BackedOffTicks(s.interval as int, s.BackedOff() as int, s.offset as int);
  }

  /** Saturated, it may not: an interval of half the range cannot double, and its ticks drift. */
  lemma SaturationLeavesTheTicks()
    ensures exists t :: OnTick(t, MAX, 0) && !OnTick(t, 0x4000_0000_0000_0000, 0)
  {
    BackedOffTicks(0x4000_0000_0000_0000, MAX, 0);
  }
}
