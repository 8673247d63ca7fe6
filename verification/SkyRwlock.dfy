/** Taking a file lock: blocking, at once or never, or by polling every 100 ms until a time-out
    measured in wrapping ticks. The lock itself is an oracle: `acquire(k)` says whether the
    k-th non-blocking attempt gets it. */
module SkyRwlock {
  import opened Prelude
  import opened SkyTick

  /** `clock(0)` is read before the polling starts, `clock(k)` after the k-th failed attempt and
      its sleep: between 100 and `slowest` milliseconds later than the one before. */
  ghost predicate Paced(clock: nat -> nat, slowest: nat) {
    forall j: nat, k: nat :: k == j + 1 ==> clock(j) + 100 <= clock(k) <= clock(j) + slowest
  }

  /** True time since the polling started. */
  function Elapsed(clock: nat -> nat, k: nat): int {
    clock(k) - clock(0)
  }

  lemma {:induction false} ElapsedBounds(clock: nat -> nat, slowest: nat, k: nat)
    requires Paced(clock, slowest)
    ensures 100 * k <= Elapsed(clock, k)
    ensures k > 0 ==> 0 <= Elapsed(clock, k - 1) && Elapsed(clock, k) <= Elapsed(clock, k - 1) + slowest
  {
    if k > 0 {
      ElapsedBounds(clock, slowest, k - 1);
      assert clock(k - 1) + 100 <= clock(k) <= clock(k - 1) + slowest;
    }
  }

  /** `sky_systick_elapsed`. */
  method SystickElapsed(last: Tick, now: Tick) returns (elapsed: Tick)
    ensures elapsed == (now - last) % WRAP
  {
    elapsed := SystickDiff(last, now);
  }

  /** The latest moment before the time-out at which a failed attempt can end: each round takes
      at least 100 ms, so no more than `(timeout - 1) / 100` of them fit. */
  function LatestWait(timeout: Tick, slowest: nat): nat
    requires timeout > 0
  {
    Min(timeout - 1, (timeout - 1) / 100 * slowest)
  }

  /** One more round after that moment still ends within 32 bits of milliseconds. */
  predicate InTime(timeout: Tick, slowest: nat)
    requires timeout > 0
  {
    LatestWait(timeout, slowest) + slowest < WRAP
  }

  lemma TimesAtMost(a: nat, b: nat, c: nat)
    requires a <= b
    ensures a * c <= b * c
  {
  }

  lemma {:induction false} ElapsedAtMost(clock: nat -> nat, slowest: nat, k: nat)
    requires Paced(clock, slowest)
    ensures Elapsed(clock, k) <= k * slowest
  {
    if k > 0 {
      ElapsedAtMost(clock, slowest, k - 1);
      ElapsedBounds(clock, slowest, k);
      assert k * slowest == (k - 1) * slowest + slowest;
    }
  }

  lemma WaitsAtMostLatest(clock: nat -> nat, timeout: Tick, slowest: nat, k: nat)
    requires timeout > 0 && Paced(clock, slowest) && Elapsed(clock, k) < timeout
    ensures Elapsed(clock, k) <= LatestWait(timeout, slowest)
  {
    ElapsedAtMost(clock, slowest, k);
    ElapsedBounds(clock, slowest, k);
    TimesAtMost(k, (timeout - 1) / 100, slowest);
  }

  lemma RoundEndsInTime(clock: nat -> nat, timeout: Tick, slowest: nat, k: nat)
    requires timeout > 0 && Paced(clock, slowest) && InTime(timeout, slowest) && Elapsed(clock, k) < timeout
    ensures 0 <= Elapsed(clock, k + 1) < WRAP
  {
    hide LatestWait;
    ElapsedBounds(clock, slowest, k + 1);
    WaitsAtMostLatest(clock, timeout, slowest, k);
  }

  /** Up to the first attempt past the time-out, the difference of ticks is the true time. */
  lemma TicksTellTime(clock: nat -> nat, timeout: Tick, slowest: nat, k: nat)
    requires timeout > 0 && Paced(clock, slowest) && InTime(timeout, slowest) && Elapsed(clock, k) < timeout
    ensures (TickOf(clock(k + 1)) - TickOf(clock(0))) % WRAP == Elapsed(clock, k + 1)
  {
    hide InTime;
    RoundEndsInTime(clock, timeout, slowest, k);
    DiffOfTicks(clock(0), clock(k + 1));
  }

  /** The loop is sure to end: the rounds are in time, or they all take exactly 100 ms and the
      time-out leaves room for the largest value such rounds can reach modulo 2^32. */
  predicate SurelyEnds(timeout: Tick, slowest: nat)
    requires timeout > 0
  {
    InTime(timeout, slowest) || (slowest == 100 && timeout <= WRAP - 4)
  }

  /** Whether the loop goes on after its k-th failed attempt. */
  predicate GoesOn(clock: nat -> nat, timeout: Tick, k: nat) {
    (TickOf(clock(k)) - TickOf(clock(0))) % WRAP < timeout
  }

  /** The round of a steady clock in which the elapsed time is 4 short of a multiple of 2^32. */
  const LAST_STEADY: nat := 1030792151

  /** The polling branch. It succeeds exactly when its last attempt does, and gives up exactly
      when the ticks say so. With rounds in time it ends within one attempt per 100 ms of the
      time-out, and gives up neither before the time-out nor later than one round after it, even
      if the tick wraps meanwhile. */
  method Poll(acquire: nat -> bool, clock: nat -> nat, timeout: Tick, ghost slowest: nat)
      returns (acquired: bool, attempts: nat)
    requires timeout > 0 && Paced(clock, slowest) && SurelyEnds(timeout, slowest)
    ensures 1 <= attempts <= if InTime(timeout, slowest) then (timeout + 99) / 100 else LAST_STEADY
    ensures acquired == acquire(attempts)
    ensures forall k: nat :: 1 <= k < attempts ==> !acquire(k) && GoesOn(clock, timeout, k)
    ensures !acquired ==> !GoesOn(clock, timeout, attempts)
    ensures InTime(timeout, slowest) ==>
      && (forall k: nat :: 1 <= k < attempts ==> Elapsed(clock, k) < timeout)
      && (!acquired ==> timeout <= Elapsed(clock, attempts) < timeout + slowest)
  {
    hide InTime, LatestWait, TickOf, Paced;
    ghost var inTime := InTime(timeout, slowest);
    var tick := TickOf(clock(0));
    attempts := 0;
    while true
      invariant forall k: nat :: 1 <= k <= attempts ==> !acquire(k) && GoesOn(clock, timeout, k)
      invariant inTime ==> 100 * attempts < timeout
      invariant inTime ==> forall k: nat :: k <= attempts ==> Elapsed(clock, k) < timeout
      invariant !inTime ==> attempts < LAST_STEADY
      decreases (if inTime then timeout else 100 * LAST_STEADY) - 100 * attempts
    {
      attempts := attempts + 1;
      acquired := acquire(attempts);
      if acquired {
        break;
      }
      ElapsedBounds(clock, slowest, attempts);
      if inTime {
        TicksTellTime(clock, timeout, slowest, attempts - 1);
      } else if attempts == LAST_STEADY {
        SteadyEnds(clock, timeout);
      }
      var elapsed := SystickElapsed(tick, TickOf(clock(attempts)));
      if !(elapsed < timeout) {
        break;
      }
    }
  }

  lemma SteadyEnds(clock: nat -> nat, timeout: Tick)
    requires Paced(clock, 100) && timeout <= WRAP - 4
    ensures !GoesOn(clock, timeout, LAST_STEADY)
  {
    ElapsedBounds(clock, 100, LAST_STEADY);
    ElapsedAtMost(clock, 100, LAST_STEADY);
    DiffOfTicks(clock(0), clock(LAST_STEADY));
  }

  /** `sky_rwlock_wrlock` and `sky_rwlock_rdlock` on a file lock; they differ only in the kind of
      lock asked for. `granted` is how the blocking call ends. */
  method LockFile(granted: bool, acquire: nat -> bool, clock: nat -> nat, timeout: Tick, ghost slowest: nat)
      returns (acquired: bool, attempts: nat)
    requires timeout != 0 && timeout != INFINITE ==> Paced(clock, slowest) && SurelyEnds(timeout, slowest)
    ensures timeout == INFINITE ==> acquired == granted && attempts == 0
    ensures timeout == 0 ==> acquired == acquire(1) && attempts == 1
    ensures timeout != 0 && timeout != INFINITE ==>
      && 1 <= attempts && acquired == acquire(attempts)
      && (forall k: nat :: 1 <= k < attempts ==> !acquire(k) && GoesOn(clock, timeout, k))
      && (!acquired ==> !GoesOn(clock, timeout, attempts))
      && (InTime(timeout, slowest) ==> attempts <= (timeout + 99) / 100)
      && (InTime(timeout, slowest) && !acquired ==> timeout <= Elapsed(clock, attempts) < timeout + slowest)
  {
    if timeout == INFINITE {
      return granted, 0;
    }
    if timeout == 0 {
      return acquire(1), 1;
    }
    acquired, attempts := Poll(acquire, clock, timeout, slowest);
  }

  // ----- when 32 bits are not enough -----------------------------------------------------

  /** The loop decides as the true time would have it exactly when that time fits in 32 bits,
      or has run past them into the last stretch, from the time-out on, of a later wrap. */
  lemma DecidesRightExactlyWhen(clock: nat -> nat, timeout: Tick, k: nat)
    requires clock(0) <= clock(k)
    ensures (GoesOn(clock, timeout, k) <==> Elapsed(clock, k) < timeout) <==>
            Elapsed(clock, k) < WRAP || Elapsed(clock, k) % WRAP >= timeout
  {
    DiffOfTicks(clock(0), clock(k));
  }

  /** A clock as the loop can meet it: of this pace, and never read as 0, the value that
      `sky_systick_get` does not return. */
  ghost predicate Readable(clock: nat -> nat, slowest: nat) {
    && Paced(clock, slowest)
    && (forall k: nat :: TickOf(clock(k)) != 0)
  }

  /** On every such clock, the loop stops at the first attempt that ends past the time-out. */
  ghost predicate ExpiresInTime(timeout: Tick, slowest: nat) {
    forall clock: nat -> nat, k: nat {:trigger Elapsed(clock, k), Readable(clock, slowest)} ::
      Readable(clock, slowest) && Elapsed(clock, k) < timeout <= Elapsed(clock, k + 1) ==>
        !GoesOn(clock, timeout, k + 1)
  }

  lemma ShortRoundsExpire(clock: nat -> nat, timeout: Tick, slowest: nat, k: nat)
    requires timeout > 0 && Paced(clock, slowest) && InTime(timeout, slowest)
    requires Elapsed(clock, k) < timeout <= Elapsed(clock, k + 1)
    ensures !GoesOn(clock, timeout, k + 1)
  {
    hide InTime, TickOf;
    TicksTellTime(clock, timeout, slowest, k);
  }

  /** Some attempt is the first to end past the time-out. */
  lemma FirstPast(clock: nat -> nat, timeout: Tick, slowest: nat) returns (k: nat)
    requires timeout > 0 && Paced(clock, slowest)
    ensures Elapsed(clock, k) < timeout <= Elapsed(clock, k + 1)
  {
    k := 0;
    while Elapsed(clock, k + 1) < timeout
      invariant Elapsed(clock, k) < timeout
      decreases timeout - 100 * k
    {
      k := k + 1;
      ElapsedBounds(clock, slowest, k);
    }
  }

  lemma FoursAdded(x: nat, y: nat)
    ensures (x + 4 * y) % 4 == x % 4
  {
  }

  /** 2^32 is a multiple of 4. */
  lemma TickKeepsModFour(x: nat)
    ensures TickOf(x) % 4 == x % 4
  {
    assert x == TickOf(x) + 4 * (0x4000_0000 * (x / WRAP));
    FoursAdded(TickOf(x), 0x4000_0000 * (x / WRAP));
  }

  lemma SteadyTick(start: nat, n: nat)
    requires TickOf(start) % 4 != 0
    ensures TickOf(start + 100 * n) != 0
  {
    TickKeepsModFour(start);
    FoursAdded(start, 25 * n);
    TickKeepsModFour(start + 4 * (25 * n));
  }

  lemma MultipleOfFour(x: nat)
    ensures 4 * x % WRAP <= WRAP - 4
  {
    var q, r := x / 0x4000_0000, x % 0x4000_0000;
    assert 4 * x == WRAP * q + 4 * r;
    assert 4 * x % WRAP == 4 * r;
  }

  ghost predicate Steady(clock: nat -> nat) {
    && (forall n: nat :: clock(n) == clock(0) + 100 * n)
    && TickOf(clock(0)) % 4 != 0
  }

  lemma SteadyIsReadable(clock: nat -> nat, slowest: nat)
    requires Steady(clock) && slowest >= 100
    ensures Readable(clock, slowest)
  {
    forall n: nat ensures TickOf(clock(n)) != 0 {
      SteadyTick(clock(0), n);
      assert clock(n) == clock(0) + 100 * n;
    }
    forall j: nat, k: nat | k == j + 1 ensures clock(j) + 100 <= clock(k) <= clock(j) + slowest {
      assert clock(j) == clock(0) + 100 * j && clock(k) == clock(0) + 100 * k;
    }
  }

  /** With rounds of exactly 100 ms, the time elapsed steps over the last three values of every
      wrap. */
  lemma SteadyNeverEnds(clock: nat -> nat, timeout: Tick, k: nat)
    requires Steady(clock) && timeout > WRAP - 4
    ensures GoesOn(clock, timeout, k)
  {
    hide TickOf;
    assert clock(k) == clock(0) + 100 * k;
    DiffOfTicks(clock(0), clock(k));
    assert 100 * k == 4 * (25 * k);
    MultipleOfFour(25 * k);
  }

  /** The latest moment of a wrap, below the time-out, from which a round can take the clock to
      the next wrap and that earlier rounds can be made to reach. */
  function Top(timeout: Tick): Tick
    requires timeout > 0
  {
    if timeout <= 100 then 0 else Min(timeout - 1, WRAP - 100)
  }

  /** The next round, `x` ms into a wrap: up towards the top, with what is over the hundreds
      spent as early as the pace allows, and from the top to the start of the next wrap. */
  function Stride(top: Tick, slowest: nat, x: Tick): nat
    requires slowest > 100
  {
    if x >= top then WRAP - x else 100 + Min((top - x) % 100, slowest - 100)
  }

  /** When the n-th failed attempt ends on a clock of such rounds. */
  function Crept(timeout: Tick, slowest: nat, n: nat): nat
    requires timeout > 0 && slowest > 100
  {
    if n == 0 then 0
    else
      var before := Crept(timeout, slowest, n - 1);
      before + Stride(Top(timeout), slowest, before % WRAP)
  }

  /** The distance `d` can be covered exactly by rounds from 100 to `100 + slack` ms. */
  predicate OnTrack(d: nat, slack: nat) {
    d % 100 <= d / 100 || (d >= 100 && d % 100 <= slack)
  }

  lemma StrideStaysOnTrack(top: Tick, slowest: nat, x: Tick)
    requires slowest > 100 && x < top && OnTrack(top - x, slowest - 100)
    ensures var y := x + Stride(top, slowest, x);
            x + 100 <= y <= x + slowest && y <= top && OnTrack(top - y, slowest - 100)
  {
  }

  lemma TopIsOnTrack(timeout: Tick, slowest: nat)
    requires timeout > 0 && slowest > 100 && !InTime(timeout, slowest)
    ensures OnTrack(Top(timeout), slowest - 100) && Top(timeout) <= WRAP - 100
    ensures WRAP - Top(timeout) <= slowest
  {
    InTimeByCases(timeout, slowest);
  }

  lemma Turn(e: nat, d: nat)
    requires e % WRAP + d <= WRAP
    ensures (e + d) % WRAP == if e % WRAP + d == WRAP then 0 else e % WRAP + d
  {
  }

  /** At `e` ms the clock can still come to the top of its wrap. */
  ghost predicate Climbing(top: Tick, slowest: nat, e: nat)
    requires slowest > 100
  {
    e % WRAP <= top && OnTrack(top - e % WRAP, slowest - 100)
  }

  lemma StrideKeepsClimbing(top: Tick, slowest: nat, e: nat)
    requires slowest > 100 && Climbing(top, slowest, 0) && top <= WRAP - 100
    requires Climbing(top, slowest, e)
    ensures Climbing(top, slowest, e + Stride(top, slowest, e % WRAP))
  {
    if e % WRAP < top {
      StrideStaysOnTrack(top, slowest, e % WRAP);
    }
    hide OnTrack;
    Turn(e, Stride(top, slowest, e % WRAP));
  }

  lemma {:induction false} CreptKeepsClimbing(timeout: Tick, slowest: nat, n: nat)
    requires timeout > 0 && slowest > 100 && !InTime(timeout, slowest)
    ensures Climbing(Top(timeout), slowest, Crept(timeout, slowest, n))
  {
    TopIsOnTrack(timeout, slowest);
    assert Climbing(Top(timeout), slowest, 0);
    hide InTime, OnTrack, Top, Stride, Climbing;
    if n > 0 {
      CreptKeepsClimbing(timeout, slowest, n - 1);
      StrideKeepsClimbing(Top(timeout), slowest, Crept(timeout, slowest, n - 1));
    }
  }

  /** The start is one millisecond after a wrap. */
  function Creeping(timeout: Tick, slowest: nat): nat -> nat
    requires timeout > 0 && slowest > 100
  {
    (n: nat) => 1 + Crept(timeout, slowest, n)
  }

  /** On this clock no tick is 0, and the loop never ends. */
  lemma CreepingNeverEnds(timeout: Tick, slowest: nat)
    requires timeout > 0 && slowest > 100 && !InTime(timeout, slowest)
    ensures Readable(Creeping(timeout, slowest), slowest)
    ensures forall k: nat :: GoesOn(Creeping(timeout, slowest), timeout, k)
  {
    hide InTime, OnTrack;
    var clock := Creeping(timeout, slowest);
    TopIsOnTrack(timeout, slowest);
    forall k: nat ensures TickOf(clock(k)) != 0 && GoesOn(clock, timeout, k) {
      CreptKeepsClimbing(timeout, slowest, k);
      DiffOfTicks(clock(0), clock(k));
      Turn(Crept(timeout, slowest, k), 1);
    }
    forall j: nat, k: nat | k == j + 1 ensures clock(j) + 100 <= clock(k) <= clock(j) + slowest {
      CreptKeepsClimbing(timeout, slowest, j);
      var x := Crept(timeout, slowest, j) % WRAP;
      if x < Top(timeout) {
        StrideStaysOnTrack(Top(timeout), slowest, x);
      }
    }
  }

  /** A clock on which the loop goes on past the time-out when rounds need not be in time. */
  function Overshooting(timeout: Tick, slowest: nat): nat -> nat
    requires timeout > 0 && slowest >= 100
  {
    if slowest == 100 then (n: nat) => 1 + 100 * n else Creeping(timeout, slowest)
  }

  lemma LongRoundsOvershoot(timeout: Tick, slowest: nat)
    requires timeout > 0 && slowest >= 100 && !InTime(timeout, slowest)
    ensures var clock := Overshooting(timeout, slowest);
            && clock(0) == 1 && Readable(clock, slowest)
            && exists k: nat {:trigger Elapsed(clock, k)} ::
                 Elapsed(clock, k) < timeout <= Elapsed(clock, k + 1) && GoesOn(clock, timeout, k + 1)
  {
    var clock := Overshooting(timeout, slowest);
    if slowest == 100 {
      InTimeByCases(timeout, slowest);
      SteadyIsReadable(clock, slowest);
      assert Elapsed(clock, 42949672) == 4294967200;
      assert clock(42949673) == 1 + 4294967300;
    } else {
      CreepingNeverEnds(timeout, slowest);
      var k := FirstPast(clock, timeout, slowest);
      assert GoesOn(clock, timeout, k + 1);
    }
  }

  /** No clock runs at a pace below that of the sleep, and none would be needed. */
  lemma FastRoundsAreInTime(timeout: Tick, slowest: nat)
    requires timeout > 0 && slowest < 100
    ensures InTime(timeout, slowest)
    ensures forall clock: nat -> nat :: !Paced(clock, slowest)
  {
    var q := (timeout - 1) / 100;
    assert q * slowest <= q * 99;
    forall clock: nat -> nat ensures !Paced(clock, slowest) {
      assert !(clock(0) + 100 <= clock(1) <= clock(0) + slowest);
    }
  }

  /** For every time-out and every slowest round: the loop is sure to stop in time if and only
      if the round begun at the latest moment before the time-out ends within 32 bits. */
  lemma ExpiresInTimeExactlyWhen(timeout: Tick, slowest: nat)
    requires timeout > 0
    ensures ExpiresInTime(timeout, slowest) <==> InTime(timeout, slowest)
  {
    if slowest < 100 {
      FastRoundsAreInTime(timeout, slowest);
    }
    if InTime(timeout, slowest) {
      forall clock: nat -> nat, k: nat
        | Readable(clock, slowest) && Elapsed(clock, k) < timeout <= Elapsed(clock, k + 1)
        ensures !GoesOn(clock, timeout, k + 1)
      {
        ShortRoundsExpire(clock, timeout, slowest, k);
      }
    } else {
      LongRoundsOvershoot(timeout, slowest);
    }
  }

  /** The same condition by cases: a time-out of at most one round, rounds of exactly 100 ms,
      and all others, where time-out and round together must fit in 32 bits. */
  lemma InTimeByCases(timeout: Tick, slowest: nat)
    requires timeout > 0 && slowest >= 100
    ensures InTime(timeout, slowest) <==>
            if timeout <= 100 then slowest < WRAP
            else if slowest == 100 then timeout <= 4294967200
            else timeout + slowest <= WRAP
  {
    var q := (timeout - 1) / 100;
    if timeout > 100 && slowest > 100 {
      if slowest >= 200 {
        TimesAtMost(200, slowest, q);
      } else {
        TimesAtMost(101, slowest, q);
        TimesAtMost(slowest, 199, q);
      }
    }
  }

  // ----- when the loop ends at all -------------------------------------------------------

  /** On every clock of this pace that is never read as 0, a lock that is never free is given up
      some time. */
  ghost predicate AlwaysEnds(timeout: Tick, slowest: nat) {
    forall clock: nat -> nat {:trigger Readable(clock, slowest)} ::
      Readable(clock, slowest) ==> exists k: nat :: k > 0 && !GoesOn(clock, timeout, k)
  }

  lemma EndsOnClock(clock: nat -> nat, timeout: Tick, slowest: nat)
    requires timeout > 0 && Paced(clock, slowest) && SurelyEnds(timeout, slowest)
    ensures exists k: nat :: k > 0 && !GoesOn(clock, timeout, k)
  {
    hide InTime, GoesOn;
    if InTime(timeout, slowest) {
      var k := FirstPast(clock, timeout, slowest);
      ShortRoundsExpire(clock, timeout, slowest, k);
    } else {
      SteadyEnds(clock, timeout);
    }
  }

  /** For every time-out and every slowest round: the loop is sure to end if and only if rounds
      are in time, or all take exactly 100 ms and the time-out does not exceed 2^32 - 4. */
  lemma EndsExactlyWhen(timeout: Tick, slowest: nat)
    requires timeout > 0
    ensures AlwaysEnds(timeout, slowest) <==> SurelyEnds(timeout, slowest)
  {
    hide InTime, GoesOn, TickOf;
    if SurelyEnds(timeout, slowest) {
      forall clock: nat -> nat | Readable(clock, slowest)
        ensures exists k: nat :: k > 0 && !GoesOn(clock, timeout, k)
      {
        EndsOnClock(clock, timeout, slowest);
      }
    } else {
      NeverEnds(timeout, slowest);
      assert Readable(Overshooting(timeout, slowest), slowest);
    }
  }

  /** The same condition by cases. */
  lemma SurelyEndsByCases(timeout: Tick, slowest: nat)
    requires timeout > 0 && slowest >= 100
    ensures SurelyEnds(timeout, slowest) <==>
            if timeout <= 100 then slowest < WRAP
            else if slowest == 100 then timeout <= WRAP - 4
            else timeout + slowest <= WRAP
  {
    InTimeByCases(timeout, slowest);
    hide InTime;
  }

  lemma NeverEnds(timeout: Tick, slowest: nat)
    requires timeout > 0 && !SurelyEnds(timeout, slowest)
    ensures slowest >= 100
    ensures var clock := Overshooting(timeout, slowest);
            Readable(clock, slowest) && forall k: nat :: GoesOn(clock, timeout, k)
  {
    hide InTime, GoesOn;
    if slowest < 100 {
      FastRoundsAreInTime(timeout, slowest);
    } else if slowest == 100 {
      var clock := Overshooting(timeout, slowest);
      SteadyIsReadable(clock, slowest);
      forall k: nat ensures GoesOn(clock, timeout, k) {
        SteadyNeverEnds(clock, timeout, k);
      }
    } else {
      CreepingNeverEnds(timeout, slowest);
    }
  }

  /** With the longest finite time-out and rounds of exactly 100 ms, a lock that is never free is
      polled for ever from every start whose tick is no multiple of 4. */
  lemma LongestTimeoutNeverExpires(clock: nat -> nat, k: nat)
    requires forall n: nat :: clock(n) == clock(0) + 100 * n
    requires TickOf(clock(0)) % 4 != 0
    ensures Readable(clock, 100) && GoesOn(clock, INFINITE - 1, k)
  {
    SteadyIsReadable(clock, 100);
    SteadyNeverEnds(clock, INFINITE - 1, k);
  }
}
