/** The span start time: the query has already finished when its event is
    observed, so the start is the captured moment moved back by the query's
    duration. Both clock components are moved back independently. */
module Timing {
  /** A clock reading: wall-clock nanoseconds since the epoch and a monotonic
      nanosecond counter. */
  datatype Moment = Moment(epochNs: int, monotonicNs: int)

  const MillisToNanos := 1000000

  /** The smallest and largest PHP integers on a 64-bit build. */
  const MinInt64 := -0x8000_0000_0000_0000
  const MaxInt64 := 0x7FFF_FFFF_FFFF_FFFF

  predicate InInt64(x: int) { MinInt64 <= x <= MaxInt64 }

  /** The start moment of a query that took durationNs and ended at now. */
  function Backdate(now: Moment, durationNs: int): (start: Moment)
    ensures start.epochNs + durationNs == now.epochNs
    ensures start.monotonicNs + durationNs == now.monotonicNs
  {
    Moment(now.epochNs - durationNs, now.monotonicNs - durationNs)
  }

  /** The inverse of Backdate: the moment durationNs after start. */
  function Advance(start: Moment, durationNs: int): (later: Moment)
    ensures later.epochNs - durationNs == start.epochNs
    ensures later.monotonicNs - durationNs == start.monotonicNs
  {
    Moment(start.epochNs + durationNs, start.monotonicNs + durationNs)
  }

  /** Moving back and then forward by the same duration returns to the moment. */
  lemma AdvanceBackdate(now: Moment, durationNs: int)
    ensures Advance(Backdate(now, durationNs), durationNs) == now
  {
  }

  /** A query that took no time starts at the moment it was observed. */
  lemma ZeroDurationKeepsMoment(now: Moment)
    ensures Backdate(now, 0) == now
  {
  }

  /** The offset between the wall clock and the monotonic clock is the same at
      the start as at the end. */
  lemma BackdateKeepsOffset(now: Moment, durationNs: int)
    ensures Backdate(now, durationNs).epochNs - Backdate(now, durationNs).monotonicNs
         == now.epochNs - now.monotonicNs
  {
  }

  /** No borrow or carry: each start component depends only on the same
      component of the captured moment. */
  lemma BackdateComponentsIndependent(a: Moment, b: Moment, durationNs: int)
    ensures a.epochNs == b.epochNs ==> Backdate(a, durationNs).epochNs == Backdate(b, durationNs).epochNs
    ensures a.monotonicNs == b.monotonicNs ==> Backdate(a, durationNs).monotonicNs == Backdate(b, durationNs).monotonicNs
  {
  }

  /** For non-negative clock readings and a non-negative duration, both
      subtractions stay within PHP's 64-bit integers. */
  lemma BackdateStaysInInt64(now: Moment, durationNs: int)
    requires 0 <= now.epochNs <= MaxInt64 && 0 <= now.monotonicNs <= MaxInt64
    requires 0 <= durationNs <= MaxInt64
    ensures InInt64(Backdate(now, durationNs).epochNs)
    ensures InInt64(Backdate(now, durationNs).monotonicNs)
  {
  }
}
