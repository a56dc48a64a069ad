/** Reading the running 64-bit global timer through its two 32-bit registers, and
    the delay loop built on it. */
module GlobalTimer {

  const HALF := 0x1_0000_0000
  const TIME_RANGE := 0x1_0000_0000_0000_0000
  const COUNTS_PER_USECOND := 333

  /** The counter's value at each register read; it may advance by any amount from
      one read to the next, but does not run backwards or overflow. */
  type Trace = nat -> nat

  ghost predicate Running(trace: Trace) {
    (forall k: nat :: trace(k) < TIME_RANGE) && (forall j: nat, k: nat :: j <= k ==> trace(j) <= trace(k))
  }

  class Timer {
    const trace: Trace
    var now: nat

    constructor (trace: Trace)
      ensures this.trace == trace && now == 0
    {
      this.trace, now := trace, 0;
    }

    method ReadUpper() returns (v: nat)
      modifies this
      ensures now == old(now) + 1 && v == trace(old(now)) / 0x1_0000_0000
    {
      v := Upper(trace(now));
      now := now + 1;
    }

    method ReadLower() returns (v: nat)
      modifies this
      ensures now == old(now) + 1 && v == trace(old(now)) % 0x1_0000_0000
    {
      v := Lower(trace(now));
      now := now + 1;
    }

    /** One round of the loop: upper half, lower half, upper half again.  Equal
        upper halves belong to the value between them; unequal ones have grown. */
    method Round() returns (high: nat, low: nat, again: nat)
      requires Running(trace)
      modifies this
      ensures now == old(now) + 3 && again < HALF
      ensures high == Upper(trace(old(now))) <= again == Upper(trace(now - 1))
      ensures again == high ==> high * HALF + low == trace(now - 2)
    {
      high := ReadUpper();
      low := ReadLower();
      again := ReadUpper();
      UpperGrows(trace, now - 3, now - 1);
      UpperBound(trace, now - 1);
      if again == high {
        WholeSample(trace, now - 3, now - 2, now - 1);
      }
    }

    /** `XTime_GetTime`: the result is the value that the counter had at the last
        but one read, and never a mixture of two values.  The loop ends because
        each retry has seen the upper half grow. */
    method GetTime() returns (time: nat)
      requires Running(trace)
      modifies this
      ensures now >= old(now) + 3 && time == trace(now - 2)
    {
      var high, low, again := Round();
      while again != high
        invariant old(now) + 3 <= now && high <= again == Upper(trace(now - 1)) < HALF
        invariant again == high ==> high * HALF + low == trace(now - 2)
        decreases HALF - high
      {
        UpperGrows(trace, now - 1, now);
        high, low, again := Round();
      }
      time := high * HALF + low;
    }

    /** `usleep`; `horizon` is a read at which the running counter would be at its
        last value.  On return the time from a first sample to a last one, both of
        values the counter really had, is at least 333 ticks for each microsecond
        if and only if the end time did not overflow 64 bits. */
    method Usleep(useconds: nat, ghost horizon: nat) returns (r: int, ghost first: nat, ghost last: nat)
      requires Running(trace) && useconds < HALF && trace(horizon) == TIME_RANGE - 1
      modifies this
      ensures r == 0 && old(now) < first < last < now
      ensures trace(first) <= trace(last)
      ensures trace(last) - trace(first) >= COUNTS_PER_USECOND * useconds
        <==> trace(first) + COUNTS_PER_USECOND * useconds < TIME_RANGE
    {
      var tCur := GetTime();
      first := now - 2;
      var tEnd := (tCur + useconds * COUNTS_PER_USECOND) % TIME_RANGE;
      tCur := GetTime();
      while tCur < tEnd
        invariant first + 3 <= now && tCur == trace(now - 2) && tEnd < TIME_RANGE
        decreases horizon + 2 - now
      {
        NotYet(trace, horizon, now - 2);
        tCur := GetTime();
      }
      last := now - 2;
      DelayExact(trace(first), trace(last), COUNTS_PER_USECOND * useconds);
      r := 0;
    }
  }

  function Upper(t: nat): nat { t / HALF }

  function Lower(t: nat): nat { t % HALF }

  lemma NotYet(trace: Trace, horizon: nat, k: nat)
    requires Running(trace) && trace(horizon) == TIME_RANGE - 1 && trace(k) < TIME_RANGE - 1
    ensures k < horizon
  {}

  /** Waiting until the counter is at least the end time cut to 64 bits waits for
      `ticks` exactly when nothing was cut off. */
  lemma DelayExact(from: nat, to: nat, ticks: nat)
    requires from <= to < TIME_RANGE && ticks < TIME_RANGE
    requires to >= (from + ticks) % TIME_RANGE
    ensures to - from >= ticks <==> from + ticks < TIME_RANGE
  {}

  /** A call for one microsecond at the counter's last value may return at once. */
  lemma DelayCutShort()
    ensures var from, ticks := TIME_RANGE - 1, COUNTS_PER_USECOND;
      from >= (from + ticks) % TIME_RANGE && from - from < ticks
  {}

  /** The clock ticks 666666687 times in two seconds, which is more than 333 times
      in each microsecond, so a call is short by a third of a tick for each. */
  lemma TruncatedRate(useconds: nat)
    requires useconds > 0
    ensures 2_000_000 * (COUNTS_PER_USECOND * useconds) < 666_666_687 * useconds
    ensures COUNTS_PER_USECOND == 666_666_687 / 2_000_000
  {}

  lemma UpperGrows(trace: Trace, j: nat, k: nat)
    requires Running(trace) && j <= k
    ensures Upper(trace(j)) <= Upper(trace(k))
  {}

  lemma UpperBound(trace: Trace, k: nat)
    requires Running(trace)
    ensures Upper(trace(k)) < HALF
  {}

  /** Equal upper halves around the read of the lower half belong to its value. */
  lemma WholeSample(trace: Trace, i: nat, j: nat, k: nat)
    requires Running(trace) && i <= j <= k && Upper(trace(i)) == Upper(trace(k))
    ensures Upper(trace(i)) * HALF + Lower(trace(j)) == trace(j)
  {
    UpperGrows(trace, i, j);
    UpperGrows(trace, j, k);
  }
}
