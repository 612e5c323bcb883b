/**
 The deadline arithmetic of sqTicker.c: catching up, drift, the hiccup rule, rounding. Times are
 microseconds and unbounded; the 32-bit product that converts a period is modelled with its wrap.
 */
module TickerDeadlines {
  import opened Division

  const HICCUP_THRESHOLD := 10_000_000
  const USECS_PER_MSEC := 1000

  datatype Timer = Timer(deadline: nat, period: nat)

  /** periodms * MicrosecondsPerMillisecond in unsigned 32-bit arithmetic. */
  function Usecs(ms: nat): nat { ms * USECS_PER_MSEC % 0x1_0000_0000 }

  /** The conversion is exact up to 4294967 ms, about 71 minutes, and loses time beyond. */
  lemma UsecsExact(ms: nat)
    ensures Usecs(ms) == ms * 1000 <==> ms <= 4294967
  {
    if ms <= 4294967 {
      assert ms * USECS_PER_MSEC < 0x1_0000_0000;
    } else {
      assert ms * USECS_PER_MSEC >= 0x1_0000_0000 > Usecs(ms);
    }
  }

  /** Beyond that, what is left is the product modulo 2^32. */
  lemma UsecsWraps(ms: nat)
    ensures 0 <= Usecs(ms) < 0x1_0000_0000
    ensures exists lost: nat :: ms * 1000 == lost * 0x1_0000_0000 + Usecs(ms)
  {
    assert ms * 1000 == (ms * 1000 / 0x1_0000_0000) * 0x1_0000_0000 + Usecs(ms);
  }

  /** Exactly the multiples of 2^29 ms, about 6.2 days, are converted to nothing. */
  lemma UsecsZero(ms: nat)
    ensures Usecs(ms) == 0 <==> ms % 0x2000_0000 == 0
  {
    var q, r := ms / 0x2000_0000, ms % 0x2000_0000;
    var x := r * USECS_PER_MSEC;
    var h, l := x / 0x1_0000_0000, x % 0x1_0000_0000;
    assert ms * USECS_PER_MSEC == (125 * q + h) * 0x1_0000_0000 + l;
    DivisionUnique(ms * USECS_PER_MSEC, 0x1_0000_0000, 125 * q + h, l);
    if l == 0 { OddFactor(r, h); }
  }

  lemma OddFactor(r: nat, h: nat)
    requires r < 0x2000_0000 && r * USECS_PER_MSEC == h * 0x1_0000_0000
    ensures r == 0
  {
    assert 125 * r == 0x2000_0000 * h;
  }

  // ---------------------------------------------------------- the asynchronous ticker's deadline

  predicate Due(t: Timer, clock: nat) { clock >= t.deadline }

  predicate Hiccup(t: Timer, clock: nat) { t.deadline + HICCUP_THRESHOLD < clock }

  /** One heartbeat check: what becomes of a timer. */
  function Beat(t: Timer, clock: nat): Timer {
    if !Due(t, clock) then t
    else if Hiccup(t, clock) then t.(deadline := clock + t.period)
    else t.(deadline := t.deadline + t.period)
  }

  /** A run of heartbeat checks at the given clock readings. */
  function Beats(t: Timer, clocks: seq<nat>): Timer {
    if clocks == [] then t else Beat(Beats(t, clocks[..|clocks| - 1]), clocks[|clocks| - 1])
  }

  /** How often the tickee is called in such a run. */
  function Fires(t: Timer, clocks: seq<nat>): nat {
    if clocks == [] then 0
    else
      var before, clock := clocks[..|clocks| - 1], clocks[|clocks| - 1];
      Fires(t, before) + if Due(Beats(t, before), clock) then 1 else 0
  }

  lemma BeatsNext(t: Timer, clocks: seq<nat>, clock: nat)
    ensures Beats(t, clocks + [clock]) == Beat(Beats(t, clocks), clock)
    ensures Fires(t, clocks + [clock]) == Fires(t, clocks) + if Due(Beats(t, clocks), clock) then 1 else 0
  {
    assert (clocks + [clock])[..|clocks + [clock]| - 1] == clocks;
  }

  /** One check, in numbers: nothing before the deadline; more than 10 seconds after it the next
      deadline is a period from now, otherwise a period from the last one. */
  lemma OneCheck(t: Timer, clock: nat)
    ensures Fires(t, [clock]) == if clock < t.deadline then 0 else 1
    ensures Beats(t, [clock]).deadline ==
            if clock < t.deadline then t.deadline
            else if t.deadline + 10_000_000 < clock then clock + t.period
            else t.deadline + t.period
    ensures Beats(t, [clock]).period == t.period
  {
    BeatsNext(t, [], clock);
    assert [] + [clock] == [clock];
  }

  /** After a sleep of more than 10 seconds a tickee is called at once, and then not before a period has
      passed since. */
  lemma AfterSleep(t: Timer, clock: nat, later: nat)
    requires t.deadline + 10_000_000 < clock <= later
    ensures Fires(t, [clock, later]) == if later >= clock + t.period then 2 else 1
  {
    OneCheck(t, clock);
    BeatsNext(t, [clock], later);
    assert [clock] + [later] == [clock, later];
  }

  /** At exactly 10 seconds there is no hiccup yet: the missed periods are made up for one by one. */
  lemma TenSecondsAreNoSleep(t: Timer)
    ensures Beats(t, [t.deadline + 10_000_000]).deadline == t.deadline + t.period
    ensures Beats(t, [t.deadline + 10_000_001]).deadline == t.deadline + 10_000_001 + t.period
  {
    OneCheck(t, t.deadline + 10_000_000);
    OneCheck(t, t.deadline + 10_000_001);
  }

  /** How often a timer is due to fire when the clock stands at `clock`. */
  function Backlog(t: Timer, clock: nat): nat
    requires t.period > 0
  {
    if !Due(t, clock) then 0
    else if Hiccup(t, clock) then 1
    else (clock - t.deadline) / t.period + 1
  }

  function Still(clock: nat, n: nat): seq<nat> { seq(n, _ => clock) }

  /** One check at a standing clock takes one off the backlog. */
  lemma BacklogBeat(t: Timer, clock: nat)
    requires t.period > 0
    ensures Beat(t, clock).period == t.period
    ensures Due(t, clock) <==> Backlog(t, clock) > 0
    ensures Due(t, clock) ==> Backlog(Beat(t, clock), clock) == Backlog(t, clock) - 1
  {
    if Due(t, clock) && !Hiccup(t, clock) {
      var lag := clock - t.deadline;
      assert lag / t.period >= 0;
      if lag >= t.period {
        OneLess(lag, t.period);
      } else {
        assert lag / t.period == 0;
      }
    }
  }

  lemma OneLess(n: nat, p: nat)
    requires p > 0 && n >= p
    ensures (n - p) / p == n / p - 1
  {
    var q, r := n / p, n % p;
    assert n - p == (q - 1) * p + r;
    DivisionUnique(n - p, p, q - 1, r);
  }

  /** Bounded catch-up: n checks at one clock reading call the tickee exactly
      min(n, Backlog) times. A tickee more than 10 seconds late is called once; otherwise it is
      called once for each period begun since its deadline. */
  lemma {:induction false} CatchUp(t: Timer, clock: nat, n: nat)
    requires t.period > 0
    ensures Beats(t, Still(clock, n)).period == t.period
    ensures Fires(t, Still(clock, n)) == if n < Backlog(t, clock) then n else Backlog(t, clock)
    ensures Backlog(Beats(t, Still(clock, n)), clock) ==
            if n < Backlog(t, clock) then Backlog(t, clock) - n else 0
  {
    if n > 0 {
      assert Still(clock, n)[..n - 1] == Still(clock, n - 1);
      CatchUp(t, clock, n - 1);
      BacklogBeat(Beats(t, Still(clock, n - 1)), clock);
    } else {
      assert Still(clock, n) == [];
    }
  }

  /** The same in numbers. */
  lemma CatchUpExactly(t: Timer, clock: nat, clocks: seq<nat>)
    requires t.period > 0 && forall k :: 0 <= k < |clocks| ==> clocks[k] == clock
    ensures var due := if clock < t.deadline then 0
                       else if t.deadline + 10_000_000 < clock then 1
                       else (clock - t.deadline) / t.period + 1;
            Fires(t, clocks) == if |clocks| < due then |clocks| else due
  {
    CatchUp(t, clock, |clocks|);
    assert clocks == Still(clock, |clocks|);
  }

  /** So a standing clock never calls a tickee more than 10^7/period + 1 times. */
  lemma CatchUpBound(t: Timer, clock: nat, n: nat)
    requires t.period > 0
    ensures Fires(t, Still(clock, n)) <= 10_000_000 / t.period + 1
  {
    CatchUp(t, clock, n);
    QuotientMonotone(0, HICCUP_THRESHOLD, t.period);
    if Due(t, clock) && !Hiccup(t, clock) {
      QuotientMonotone(clock - t.deadline, HICCUP_THRESHOLD, t.period);
    }
  }

  /** A zero period, see UsecsZero, has no such bound: once due, the tickee is called at every check. */
  lemma {:induction false} ZeroPeriod(t: Timer, clock: nat, n: nat)
    requires t.period == 0 && Due(t, clock)
    ensures Fires(t, Still(clock, n)) == n
    ensures Due(Beats(t, Still(clock, n)), clock) && Beats(t, Still(clock, n)).period == 0
  {
    if n > 0 {
      assert Still(clock, n)[..n - 1] == Still(clock, n - 1);
      ZeroPeriod(t, clock, n - 1);
    } else {
      assert Still(clock, n) == [];
    }
  }

  /** No lag exceeds the threshold at any check of the run. */
  predicate NoHiccup(t: Timer, clocks: seq<nat>) {
    clocks == [] ||
    (NoHiccup(t, clocks[..|clocks| - 1]) && !Hiccup(Beats(t, clocks[..|clocks| - 1]), clocks[|clocks| - 1]))
  }

  /** Over any clock readings a deadline moves by at least a period per call, and by exactly a
      period, so without drift, as long as no lag exceeds 10 seconds. */
  lemma {:induction false} DriftFree(t: Timer, clocks: seq<nat>)
    ensures Beats(t, clocks).period == t.period
    ensures Beats(t, clocks).deadline >= t.deadline + Fires(t, clocks) * t.period
    ensures NoHiccup(t, clocks) ==>
              Beats(t, clocks).deadline == t.deadline + Fires(t, clocks) * t.period
  {
    if clocks != [] {
      var before := clocks[..|clocks| - 1];
      DriftFree(t, before);
      assert (Fires(t, before) + 1) * t.period == Fires(t, before) * t.period + t.period;
    }
  }

  /** Before its last call a tickee's deadline has moved on by a period for each earlier one. */
  lemma {:induction false} LastCallWasDue(t: Timer, clocks: seq<nat>, latest: nat)
    requires forall k :: 0 <= k < |clocks| ==> clocks[k] <= latest
    ensures Fires(t, clocks) > 0 ==> t.deadline + (Fires(t, clocks) - 1) * t.period <= latest
  {
    if clocks != [] {
      var before := clocks[..|clocks| - 1];
      if Due(Beats(t, before), clocks[|clocks| - 1]) {
        DriftFree(t, before);
        assert Fires(t, clocks) - 1 == Fires(t, before);
      } else {
        LastCallWasDue(t, before, latest);
        assert Fires(t, clocks) == Fires(t, before);
      }
    }
  }

  /** Never more than one call per period: whatever the clock readings, hiccups included, a run
      whose clock stays at or below `latest` calls the tickee at most
      (latest - deadline)/period + 1 times. */
  lemma AtMostOncePerPeriod(t: Timer, clocks: seq<nat>, latest: nat)
    requires t.period > 0
    requires forall k :: 0 <= k < |clocks| ==> clocks[k] <= latest
    ensures Fires(t, clocks) > 0 ==> t.deadline + (Fires(t, clocks) - 1) * t.period <= latest
    ensures Fires(t, clocks) <= if latest < t.deadline then 0 else (latest - t.deadline) / t.period + 1
  {
    LastCallWasDue(t, clocks, latest);
    CallsBounded(Fires(t, clocks), latest - t.deadline, t.period);
  }

  lemma CallsBounded(fires: nat, span: int, period: nat)
    requires period > 0 && (fires > 0 ==> (fires - 1) * period <= span)
    ensures fires <= if span < 0 then 0 else span / period + 1
  {
    if fires > 0 {
      assert 0 <= (fires - 1) * period;
      QuotientCompare(span, period, fires - 1);
    }
  }

  // ----------------------------------------------------------- the synchronous ticker's rounding

  /** The first deadline of a synchronous tickee. The clock is read at `now`, and when rounding a
      second time at `later`. */
  function FirstDeadline(now: nat, later: nat, period: nat, round: nat): nat {
    if round == 0 then now + period
    else
      var rounded := now + period - (now + period) % round;
      if rounded < later then rounded + period else rounded
  }

  /** Without a round the deadline is a period from now. With one it is the last multiple of the round
      not after that, unless this is past by the second reading, when it is a period later. */
  lemma FirstDeadlineIs(now: nat, later: nat, period: nat, round: nat)
    ensures FirstDeadline(now, later, period, 0) == now + period
    ensures round > 0 ==>
              exists q: nat ::
                && q * round <= now + period < (q + 1) * round
                && FirstDeadline(now, later, period, round) ==
                   if q * round < later then q * round + period else q * round
  {
    if round > 0 {
      var q := (now + period) / round;
      assert now + period == q * round + (now + period) % round;
      assert (q + 1) * round == q * round + round;
    }
  }

  /** With a round not above the period and an unchanged clock, the deadline is aligned and lies in
      (now, now + period]. */
  lemma RoundedDeadline(now: nat, period: nat, round: nat)
    requires 0 < round <= period
    ensures var d := FirstDeadline(now, now, period, round);
            now < d <= now + period && d % round == 0
  {
    Aligned(now + period, round);
  }

  lemma Aligned(n: nat, round: nat)
    requires round > 0
    ensures (n - n % round) % round == 0
  {
    var q := n / round;
    assert n == q * round + n % round;
    DivisionUnique(n - n % round, round, q, 0);
  }

  lemma AlignedPlus(n: nat, period: nat, round: nat)
    requires round > 0 && n % round == 0
    ensures (n + period) % round == period % round
  {
    var q := n / round;
    var q' := period / round;
    assert n + period == (q + q') * round + period % round;
    DivisionUnique(n + period, round, q + q', period % round);
  }

  /** In general the deadline is aligned exactly when it did not have to be moved on by a period, or
      the period is itself a multiple of the round. */
  lemma AlignedExactly(now: nat, later: nat, period: nat, round: nat)
    requires round > 0 && now <= later
    ensures FirstDeadline(now, later, period, round) % round == 0
            <==> now + period - (now + period) % round >= later || period % round == 0
  {
    Aligned(now + period, round);
    AlignedPlus(now + period - (now + period) % round, period, round);
  }

  /** With an unchanged clock and whatever the round, the deadline lies in (now, now + period] exactly
      when rounding threw away less than two periods, and not exactly one. */
  lemma RoundedDeadlineExact(now: nat, period: nat, round: nat)
    requires round > 0 && period > 0
    ensures var d, cut := FirstDeadline(now, now, period, round), (now + period) % round;
            now < d <= now + period <==> cut != period && cut < 2 * period
  {
  }
}
