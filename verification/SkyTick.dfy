/** Millisecond ticks that wrap at 32 bits, and the timed polling of a file lock. */
module SkyTick {

  const WRAP: nat := 0x1_0000_0000

  const UINT32_MAX: nat := 0xFFFF_FFFF

  const INFINITE: nat := UINT32_MAX

  type Tick = x: nat | x < WRAP

  /** What `clock_gettime` says: seconds, and nanoseconds below 10^9. */
  datatype Timespec = Timespec(sec: nat, nsec: Nanos)

  type Nanos = x: nat | x < 1_000_000_000

  /** In milliseconds, before they are cut to 32 bits. */
  function Millis(t: Timespec): nat {
    t.sec * 1000 + t.nsec / (1000 * 1000)
  }

  /** That is the whole time in nanoseconds, rounded down to milliseconds. */
  lemma MillisRoundDown(t: Timespec)
    ensures var time := 1_000_000_000 * t.sec + t.nsec;
            1_000_000 * Millis(t) <= time < 1_000_000 * (Millis(t) + 1)
  {
  }

  /** Milliseconds as kept in 32 bits. */
  function TickOf(ms: nat): Tick {
    ms % WRAP
  }

  /** Below 2^32 ms the tick is the reading itself, and it starts again every 2^32 ms. */
  lemma TickIsReading(ms: nat)
    ensures ms < WRAP ==> TickOf(ms) == ms
    ensures TickOf(ms + WRAP) == TickOf(ms)
  {
  }

  /** Subtraction modulo 2^32, in every case: the special treatment of an early tick of 0 makes
      no difference. */
  method SystickDiff(early: Tick, later: Tick) returns (diff: Tick)
    ensures diff == (later - early) % WRAP
  {
    diff := 0;
    if early != 0 {
      if later < early {
        diff := UINT32_MAX - early;
        diff := diff + later;
        diff := diff + 1;
      } else {
        diff := later - early;
      }
    } else {
      diff := later;
    }
  }

  /** The difference of two ticks is the time between them, as far as 32 bits can tell. */
  lemma DiffOfTicks(start: nat, now: nat)
    requires start <= now
    ensures (TickOf(now) - TickOf(start)) % WRAP == (now - start) % WRAP
  {
  }

  /** The n-th read of a clock. */
  function Read(clock: nat -> Timespec, n: nat): nat {
    Millis(clock(n))
  }

  /** A clock read again and again: it never goes back, it moves on within `stall` reads, and no
      two successive reads are 2^32 ms apart. */
  ghost predicate Running(clock: nat -> Timespec, stall: nat) {
    && (forall n: nat, k: nat :: k == n + 1 ==> Read(clock, n) <= Read(clock, k) < Read(clock, n) + WRAP)
    && (forall n: nat, k: nat :: k == n + stall ==> Read(clock, n) < Read(clock, k))
  }

  /** The first non-zero tick from read number `first` on: below 2^32 ms, the reading itself.
      The loop ends because the tick stays 0 only while the clock stands still. */
  method SystickGet(clock: nat -> Timespec, first: nat, ghost stall: nat) returns (tick: Tick, count: nat)
    requires Running(clock, stall)
    ensures tick != 0 && 1 <= count <= stall + 1
    ensures tick == TickOf(Read(clock, first + count - 1))
    ensures Read(clock, first + count - 1) < WRAP ==> tick == Read(clock, first + count - 1)
    ensures forall k: nat :: first <= k < first + count - 1 ==> TickOf(Read(clock, k)) == 0
  {
    hide TickOf, Read;
    tick := TickOf(Read(clock, first));
    count := 1;
    while tick == 0
      invariant 1 <= count && tick == TickOf(Read(clock, first + count - 1))
      invariant forall k: nat :: first <= k < first + count - 1 ==> TickOf(Read(clock, k)) == 0
      invariant tick == 0 ==> Read(clock, first + count - 1) == Read(clock, first)
      invariant count <= stall + 1
      decreases stall + 1 - count
    {
      var before := first + count - 1;
      assert count - 1 != stall by {
        assert Read(clock, first) < Read(clock, first + stall);
      }
      assert Read(clock, before) <= Read(clock, before + 1) < Read(clock, before) + WRAP;
      tick := TickOf(Read(clock, before + 1));
      count := count + 1;
      if tick == 0 {
        ZeroTicksStandStill(Read(clock, before), Read(clock, before + 1));
      }
    }
    TickIsReading(Read(clock, first + count - 1));
  }

  lemma ZeroTicksStandStill(a: nat, b: nat)
    requires a <= b < a + WRAP && TickOf(a) == 0 && TickOf(b) == 0
    ensures a == b
  {
  }
}
