/**
 * Integer time arithmetic of base/time/time.h: a `TimeDelta` is a signed
 * 64-bit count of microseconds, a `TimeTicks` a signed 64-bit tick count in
 * microseconds. Both are plain values; every operator returns a new value.
 *
 * Signed 64-bit overflow is undefined behaviour in C++, so every operation
 * whose result would leave the int64 range demands, in its `requires`, that
 * it does not.
 */
module Time {

  import opened Truncation

  /** The C++ `int64_t` range. */
  newtype int64 = x: int | -0x8000_0000_0000_0000 <= x < 0x8000_0000_0000_0000

  predicate InInt64(x: int) {
    -0x8000_0000_0000_0000 <= x < 0x8000_0000_0000_0000
  }

  // Unit constants of class Time.
  const kMillisecondsPerSecond: int64 := 1000
  const kMicrosecondsPerMillisecond: int64 := 1000
  const kMicrosecondsPerSecond: int64 := kMicrosecondsPerMillisecond * kMillisecondsPerSecond
  const kMicrosecondsPerMinute: int64 := kMicrosecondsPerSecond * 60
  const kMicrosecondsPerHour: int64 := kMicrosecondsPerMinute * 60
  const kMicrosecondsPerDay: int64 := kMicrosecondsPerHour * 24
  const kMicrosecondsPerWeek: int64 := kMicrosecondsPerDay * 7
  const kNanosecondsPerMicrosecond: int64 := 1000
  const kNanosecondsPerSecond: int64 := kNanosecondsPerMicrosecond * kMicrosecondsPerSecond

  // ------------------------------------------------------------------
  // TimeDelta
  // ------------------------------------------------------------------

  datatype TimeDelta = TimeDelta(delta: int64)

  /** The public default constructor. */
  function NewTimeDelta(): (r: TimeDelta)
    ensures InMicroseconds(r) == 0 && InMilliseconds(r) == 0
  {
    TimeDelta(0)
  }

  function DeltaEq(a: TimeDelta, b: TimeDelta): bool { a.delta == b.delta }
  function DeltaNe(a: TimeDelta, b: TimeDelta): bool { a.delta != b.delta }
  function DeltaLt(a: TimeDelta, b: TimeDelta): bool { a.delta < b.delta }
  function DeltaLe(a: TimeDelta, b: TimeDelta): bool { a.delta <= b.delta }
  function DeltaGt(a: TimeDelta, b: TimeDelta): bool { a.delta > b.delta }
  function DeltaGe(a: TimeDelta, b: TimeDelta): bool { a.delta >= b.delta }

  /** `operator+`; the sum must fit in int64. */
  function AddDelta(a: TimeDelta, b: TimeDelta): (r: TimeDelta)
    requires InInt64(a.delta as int + b.delta as int)
    ensures InInt64(r.delta as int - b.delta as int) && SubDelta(r, b) == a
    ensures InInt64(r.delta as int - a.delta as int) && SubDelta(r, a) == b
  {
    TimeDelta(a.delta + b.delta)
  }

  /** `operator-`; the difference must fit in int64. */
  function SubDelta(a: TimeDelta, b: TimeDelta): TimeDelta
    requires InInt64(a.delta as int - b.delta as int)
  {
    TimeDelta(a.delta - b.delta)
  }

  /** `FromMilliseconds`; the microsecond count must fit in int64. */
  function FromMilliseconds(ms: int64): (r: TimeDelta)
    requires InInt64(ms as int * kMicrosecondsPerMillisecond as int)
    ensures InMilliseconds(r) == ms
    ensures InMicroseconds(r) as int == ms as int * 1000
  {
    TDivExact(ms as int, 1000);
    TimeDelta(ms * kMicrosecondsPerMillisecond)
  }

  /** `FromMicroseconds` stores its argument unchanged. */
  function FromMicroseconds(us: int64): (r: TimeDelta)
    ensures InMicroseconds(r) == us
    ensures InMilliseconds(r) as int == TDiv(us as int, 1000)
  {
    TimeDelta(us)
  }

  /** `InMilliseconds`: whole milliseconds, truncated toward zero. */
  function InMilliseconds(d: TimeDelta): int64 {
    TDivBound(d.delta as int, kMicrosecondsPerMillisecond as int);
    TDiv(d.delta as int, kMicrosecondsPerMillisecond as int) as int64
  }

  /**
   * `InMicroseconds` as the source writes it: the stored microsecond count
   * multiplied by kMicrosecondsPerMillisecond. It overflows for every
   * |delta| above 2^63 / 1000.
   */
  function InMicrosecondsAsWritten(d: TimeDelta): (r: int64)
    requires InInt64(d.delta as int * 1000)
    ensures r as int == 1000 * InMicroseconds(d) as int
  {
    d.delta * kMicrosecondsPerMillisecond
  }

  /** `InMicroseconds` as evidently intended: the stored count itself. */
  function InMicroseconds(d: TimeDelta): int64 {
    d.delta
  }

  /** The written `InMicroseconds` does not invert `FromMicroseconds`: 1 us reads back as 1000 us. */
  lemma InMicrosecondsAsWrittenBreaksRoundTrip()
    ensures InMicrosecondsAsWritten(FromMicroseconds(1)) == 1000
    ensures InMicrosecondsAsWritten(FromMicroseconds(1)) != 1
  {
  }

  /** The corrected `InMicroseconds` inverts `FromMicroseconds` and agrees with `FromMilliseconds`. */
  lemma MicrosecondsRoundTrip(us: int64, ms: int64)
    requires InInt64(ms as int * 1000)
    ensures InMicroseconds(FromMicroseconds(us)) == us
    ensures InMicroseconds(FromMilliseconds(ms)) as int == 1000 * ms as int
  {
  }

  /** `FromMilliseconds(ms).InMilliseconds() == ms` whenever the conversion does not overflow. */
  lemma MillisecondsRoundTrip(ms: int64)
    requires InInt64(ms as int * 1000)
    ensures InMilliseconds(FromMilliseconds(ms)) == ms
  {
  }

  /** `(a + b) - b == a` for every pair whose sum is representable. */
  lemma DeltaAddSub(a: TimeDelta, b: TimeDelta)
    requires InInt64(a.delta as int + b.delta as int)
    ensures SubDelta(AddDelta(a, b), b) == a
  {
  }

  /**
   * The six comparisons are the order of the stored integer: equality is value
   * equality, `!=` its negation, exactly one of `<`, `==`, `>` holds, and
   * `<=`/`>=` are the negations of `>`/`<`. The order is that of the
   * microsecond counts.
   */
  lemma DeltaComparisonsAreTotalOrder(a: TimeDelta, b: TimeDelta)
    ensures DeltaEq(a, b) <==> a == b
    ensures DeltaNe(a, b) <==> !DeltaEq(a, b)
    ensures DeltaLe(a, b) <==> !DeltaGt(a, b)
    ensures DeltaGe(a, b) <==> !DeltaLt(a, b)
    ensures DeltaGt(a, b) <==> DeltaLt(b, a)
    ensures (if DeltaLt(a, b) then 1 else 0) + (if DeltaEq(a, b) then 1 else 0) + (if DeltaGt(a, b) then 1 else 0) == 1
    ensures DeltaLt(a, b) <==> InMicroseconds(a) < InMicroseconds(b)
  {
  }

  /** The default TimeDelta is zero: it is the identity of `+` and `-`. */
  lemma DefaultTimeDeltaIsZero(a: TimeDelta)
    ensures AddDelta(NewTimeDelta(), a) == a
    ensures SubDelta(a, NewTimeDelta()) == a
    ensures InMicroseconds(NewTimeDelta()) == 0 && InMilliseconds(NewTimeDelta()) == 0
  {
  }

  // ------------------------------------------------------------------
  // TimeTicks
  // ------------------------------------------------------------------

  datatype TimeTicks = TimeTicks(ticks: int64)

  /** The public default constructor, delegating to `TimeTicks(0)`. */
  function NewTimeTicks(): (r: TimeTicks)
    ensures r.ticks == 0
  {
    TimeTicks(0)
  }

  function TicksEq(a: TimeTicks, b: TimeTicks): bool { a.ticks == b.ticks }
  function TicksNe(a: TimeTicks, b: TimeTicks): bool { a.ticks != b.ticks }
  function TicksLt(a: TimeTicks, b: TimeTicks): bool { a.ticks < b.ticks }
  function TicksLe(a: TimeTicks, b: TimeTicks): bool { a.ticks <= b.ticks }
  function TicksGt(a: TimeTicks, b: TimeTicks): bool { a.ticks > b.ticks }
  function TicksGe(a: TimeTicks, b: TimeTicks): bool { a.ticks >= b.ticks }

  /** `TimeTicks + TimeDelta`. */
  function TicksPlus(t: TimeTicks, d: TimeDelta): (r: TimeTicks)
    requires InInt64(t.ticks as int + d.delta as int)
    ensures InInt64(r.ticks as int - t.ticks as int) && TicksDiff(r, t) == d
    ensures InInt64(r.ticks as int - d.delta as int) && TicksMinus(r, d) == t
    ensures TicksLt(t, r) <==> DeltaLt(NewTimeDelta(), d)
  {
    TimeTicks(t.ticks + d.delta)
  }

  /** `TimeTicks - TimeDelta`. */
  function TicksMinus(t: TimeTicks, d: TimeDelta): TimeTicks
    requires InInt64(t.ticks as int - d.delta as int)
  {
    TimeTicks(t.ticks - d.delta)
  }

  /** `TimeTicks - TimeTicks`, built through `FromMicroseconds`. */
  function TicksDiff(a: TimeTicks, b: TimeTicks): TimeDelta
    requires InInt64(a.ticks as int - b.ticks as int)
  {
    FromMicroseconds(a.ticks - b.ticks)
  }

  /** `(t + d) - t == d`. */
  lemma TicksAddDiff(t: TimeTicks, d: TimeDelta)
    requires InInt64(t.ticks as int + d.delta as int)
    ensures TicksDiff(TicksPlus(t, d), t) == d
  {
  }

  /** `(t + d) - d == t`. */
  lemma TicksAddSub(t: TimeTicks, d: TimeDelta)
    requires InInt64(t.ticks as int + d.delta as int)
    ensures TicksMinus(TicksPlus(t, d), d) == t
  {
  }

  /** The TimeTicks comparisons are the order of the stored tick count. */
  lemma TicksComparisonsAreTotalOrder(a: TimeTicks, b: TimeTicks)
    ensures TicksEq(a, b) <==> a == b
    ensures TicksNe(a, b) <==> !TicksEq(a, b)
    ensures TicksLe(a, b) <==> !TicksGt(a, b)
    ensures TicksGe(a, b) <==> !TicksLt(a, b)
    ensures TicksGt(a, b) <==> TicksLt(b, a)
    ensures (if TicksLt(a, b) then 1 else 0) + (if TicksEq(a, b) then 1 else 0) + (if TicksGt(a, b) then 1 else 0) == 1
  {
  }

  /** The default TimeTicks is tick zero. */
  lemma DefaultTimeTicksIsZero(t: TimeTicks)
    ensures TicksPlus(NewTimeTicks(), FromMicroseconds(t.ticks)) == t
    ensures TicksLe(NewTimeTicks(), t) <==> t.ticks >= 0
  {
  }
}
