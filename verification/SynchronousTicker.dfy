/**
 The synchronous registry of sqTicker.c: up to four tickees in a contiguous array, checked from the
 VM thread. A tickee is a number, 0 standing for the null function pointer.
 */
module SynchronousTicker {
  import opened Division
  import opened TickerDeadlines

  const NUM_TICKEES := 4

  datatype Tickee = Tickee(tickee: nat, timer: Timer)

  // -------------------------------------------------------------------- the registry as a value

  /** Registered functions are neither null nor repeated. */
  ghost predicate Sound(es: seq<Tickee>) {
    && |es| <= NUM_TICKEES
    && (forall i :: 0 <= i < |es| ==> es[i].tickee != 0)
    && (forall i, j :: 0 <= i < j < |es| ==> es[i].tickee != es[j].tickee)
  }

  /** The functions in order. */
  function Order(es: seq<Tickee>): seq<nat> {
    seq(|es|, i requires 0 <= i < |es| => es[i].tickee)
  }

  /** What each function is registered with. */
  ghost function Timers(es: seq<Tickee>): map<nat, Timer> {
    map f | f in Order(es) :: es[Position(es, f)].timer
  }

  /** The first slot f occupies, or the length. */
  function Position(es: seq<Tickee>, f: nat): (i: nat)
    ensures i <= |es|
    ensures i < |es| ==> es[i].tickee == f
    ensures forall k :: 0 <= k < i ==> es[k].tickee != f
  {
    if es == [] then 0
    else
      var k := Position(es[..|es| - 1], f);
      if k < |es| - 1 then k else if es[|es| - 1].tickee == f then |es| - 1 else |es|
  }

  /** The slot a registration of f uses: the first that is null or holds f, else the next one. */
  function SlotFor(es: seq<Tickee>, f: nat): (i: nat)
    ensures i <= |es|
    ensures i < |es| ==> es[i].tickee == 0 || es[i].tickee == f
    ensures forall k :: 0 <= k < i ==> es[k].tickee != 0 && es[k].tickee != f
  {
    if es == [] then 0
    else
      var k := SlotFor(es[..|es| - 1], f);
      if k < |es| - 1 then k
      else if es[|es| - 1].tickee == 0 || es[|es| - 1].tickee == f then |es| - 1 else |es|
  }

  function Unregistered(es: seq<Tickee>, f: nat): seq<Tickee> {
    var i := Position(es, f);
    if i < |es| then es[..i] + es[i + 1..] else es
  }

  function Registered(es: seq<Tickee>, f: nat, t: Timer): seq<Tickee> {
    var i := SlotFor(es, f);
    if i < |es| then es[i := Tickee(f, t)]
    else if |es| < NUM_TICKEES then es + [Tickee(f, t)]
    else es
  }

  predicate HasRoomFor(es: seq<Tickee>, f: nat) { |es| < NUM_TICKEES || SlotFor(es, f) < |es| }

  /** In a sound registry a function is found where it is. */
  lemma FoundWhere(es: seq<Tickee>, k: nat)
    requires Sound(es) && k < |es|
    ensures Position(es, es[k].tickee) == SlotFor(es, es[k].tickee) == k
    ensures es[k].tickee in Order(es)
  {
    assert Order(es)[k] == es[k].tickee;
  }

  lemma TimersAt(es: seq<Tickee>, g: nat)
    requires Sound(es)
    ensures g in Timers(es) <==> Position(es, g) < |es|
    ensures g in Timers(es) ==> Timers(es)[g] == es[Position(es, g)].timer
  {
    if g in Order(es) {
      var k :| 0 <= k < |es| && Order(es)[k] == g;
      FoundWhere(es, k);
    } else if Position(es, g) < |es| {
      FoundWhere(es, Position(es, g));
    }
  }

  /** g is timed by t in es, or by nothing. */
  predicate TimedBy(es: seq<Tickee>, g: nat, t: Timer) { exists k :: 0 <= k < |es| && es[k] == Tickee(g, t) }

  lemma TimersAre(es: seq<Tickee>, m: map<nat, Timer>)
    requires Sound(es)
    requires forall k :: 0 <= k < |es| ==> es[k].tickee in m && m[es[k].tickee] == es[k].timer
    requires forall g :: g in m ==> TimedBy(es, g, m[g])
    ensures Timers(es) == m
  {
    forall g ensures g in Timers(es) <==> g in m
             ensures g in Timers(es) ==> Timers(es)[g] == m[g] {
      TimersAt(es, g);
      if g in m {
        var k :| 0 <= k < |es| && es[k] == Tickee(g, m[g]);
        FoundWhere(es, k);
      }
    }
  }

  lemma TimersHold(es: seq<Tickee>)
    requires Sound(es)
    ensures forall k :: 0 <= k < |es| ==> es[k].tickee in Timers(es) && Timers(es)[es[k].tickee] == es[k].timer
    ensures forall g :: g in Timers(es) ==> TimedBy(es, g, Timers(es)[g])
  {
    forall k | 0 <= k < |es|
      ensures es[k].tickee in Timers(es) && Timers(es)[es[k].tickee] == es[k].timer
    {
      FoundWhere(es, k);
      TimersAt(es, es[k].tickee);
    }
    forall g | g in Timers(es) ensures TimedBy(es, g, Timers(es)[g]) {
      TimersAt(es, g);
      assert es[Position(es, g)] == Tickee(g, Timers(es)[g]);
    }
  }

  lemma RegisteredOrder(es: seq<Tickee>, f: nat, t: Timer)
    requires Sound(es) && f != 0 && HasRoomFor(es, f)
    ensures var es', i := Registered(es, f, t), SlotFor(es, f);
            && Sound(es') && es'[i] == Tickee(f, t)
            && (i < |es| <==> f in Order(es))
            && Order(es') == (if f in Order(es) then Order(es) else Order(es) + [f])
  {
    if f in Order(es) {
      var k :| 0 <= k < |es| && Order(es)[k] == f;
      FoundWhere(es, k);
    } else if SlotFor(es, f) < |es| {
      FoundWhere(es, SlotFor(es, f));
    }
  }

  /** Registering a function updates its entry in place or appends one, leaving the rest and the
      order alone: the registry is an ordered map. */
  lemma RegisteredMeans(es: seq<Tickee>, f: nat, t: Timer)
    requires Sound(es) && f != 0 && HasRoomFor(es, f)
    ensures var es' := Registered(es, f, t);
            && Sound(es')
            && Order(es') == (if f in Order(es) then Order(es) else Order(es) + [f])
            && Timers(es') == Timers(es)[f := t]
  {
    var es', m := Registered(es, f, t), Timers(es)[f := t];
    RegisteredOrder(es, f, t);
    forall g | g in m ensures TimedBy(es', g, m[g]) {
      TimersHold(es);
      RegisteredTimed(es, f, t, g);
    }
    forall k | 0 <= k < |es'| ensures es'[k].tickee in m && m[es'[k].tickee] == es'[k].timer {
      TimersHold(es);
      RegisteredEntry(es, f, t, k);
    }
    TimersAre(es', m);
  }

  lemma RegisteredEntry(es: seq<Tickee>, f: nat, t: Timer, k: nat)
    requires Sound(es) && f != 0 && HasRoomFor(es, f) && k < |Registered(es, f, t)|
    ensures var e := Registered(es, f, t)[k];
            if e.tickee == f then e.timer == t else k < |es| && e == es[k]
  {
    RegisteredOrder(es, f, t);
  }

  lemma RegisteredTimed(es: seq<Tickee>, f: nat, t: Timer, g: nat)
    requires Sound(es) && f != 0 && HasRoomFor(es, f)
    requires g == f || (g in Timers(es) && TimedBy(es, g, Timers(es)[g]))
    ensures TimedBy(Registered(es, f, t), g, if g == f then t else Timers(es)[g])
  {
    var es' := Registered(es, f, t);
    if g == f {
      assert es'[SlotFor(es, f)] == Tickee(f, t);
    } else {
      var k :| 0 <= k < |es| && es[k] == Tickee(g, Timers(es)[g]);
      assert es'[k] == es[k];
    }
  }

  /** Where the entries of es are once entry i is gone. */
  lemma WithoutAt(es: seq<Tickee>, i: nat)
    requires i < |es|
    ensures var es' := es[..i] + es[i + 1..];
            && |es'| == |es| - 1
            && (forall k :: 0 <= k < i ==> es'[k] == es[k])
            && (forall k :: i <= k < |es'| ==> es'[k] == es[k + 1])
            && Order(es') == Order(es)[..i] + Order(es)[i + 1..]
  {
  }

  lemma StillTimed(es: seq<Tickee>, i: nat, g: nat, t: Timer)
    requires i < |es| && TimedBy(es, g, t) && g != es[i].tickee
    ensures TimedBy(es[..i] + es[i + 1..], g, t)
  {
    var k :| 0 <= k < |es| && es[k] == Tickee(g, t);
    WithoutAt(es, i);
    assert (es[..i] + es[i + 1..])[if k < i then k else k - 1] == Tickee(g, t);
  }

  lemma SoundWithout(es: seq<Tickee>, i: nat)
    requires i < |es| && Sound(es)
    ensures Sound(es[..i] + es[i + 1..])
    ensures es[i].tickee !in Order(es[..i] + es[i + 1..])
  {
    WithoutAt(es, i);
  }

  /** Unregistering removes exactly the function's entry and keeps the order of the others. */
  lemma UnregisteredMeans(es: seq<Tickee>, f: nat)
    requires Sound(es)
    ensures var es', i := Unregistered(es, f), Position(es, f);
            && Sound(es')
            && Order(es') == (if i < |es| then Order(es)[..i] + Order(es)[i + 1..] else Order(es))
            && Timers(es') == Timers(es) - {f}
  {
    var i := Position(es, f);
    if i < |es| {
      var es' := es[..i] + es[i + 1..];
      assert Sound(es') by { SoundWithout(es, i); }
      assert Order(es') == Order(es)[..i] + Order(es)[i + 1..] by { WithoutAt(es, i); }
      assert Timers(es') == Timers(es) - {f} by { TimersWithout(es, i); }
    } else {
      assert f !in Timers(es) by { TimersAt(es, f); }
      assert Timers(es) - {f} == Timers(es);
    }
  }

  lemma TimersWithout(es: seq<Tickee>, i: nat)
    requires Sound(es) && i < |es|
    ensures Timers(es[..i] + es[i + 1..]) == Timers(es) - {es[i].tickee}
  {
    var es', m := es[..i] + es[i + 1..], Timers(es) - {es[i].tickee};
    SoundWithout(es, i);
    TimersHold(es);
    forall g | g in m ensures TimedBy(es', g, m[g]) { StillTimed(es, i, g, m[g]); }
    forall k | 0 <= k < |es'| ensures es'[k].tickee in m && m[es'[k].tickee] == es'[k].timer {
      WithoutAt(es, i);
      var was := if k < i then k else k + 1;
      assert es'[k] == es[was] && es[was].tickee != es[i].tickee;
    }
    TimersAre(es', m);
  }

  /** Whatever is registered, the null function included, no function is ever entered twice: a null
      entry can only stand last, where the next registration takes its slot. */
  ghost predicate NoRepeats(es: seq<Tickee>) {
    && (forall i, j :: 0 <= i < j < |es| ==> es[i].tickee != es[j].tickee)
    && (forall i :: 0 <= i < |es| - 1 ==> es[i].tickee != 0)
  }

  lemma NeverRepeats(es: seq<Tickee>, f: nat, t: Timer)
    requires NoRepeats(es)
    ensures NoRepeats(Registered(es, f, t)) && NoRepeats(Unregistered(es, f))
  {
    RegisteringNeverRepeats(es, f, t);
    var i := Position(es, f);
    if i < |es| { WithoutAt(es, i); }
  }

  lemma RegisteringNeverRepeats(es: seq<Tickee>, f: nat, t: Timer)
    requires NoRepeats(es)
    ensures NoRepeats(Registered(es, f, t))
  {
    var i := SlotFor(es, f);
    assert i < |es| && es[i].tickee == 0 ==> i == |es| - 1;
  }

  /** Registering the null function is the one way to spoil a registry. */
  lemma OnlyNullSpoils(es: seq<Tickee>, f: nat, t: Timer)
    requires Sound(es) && HasRoomFor(es, f)
    ensures Sound(Registered(es, f, t)) <==> f != 0
  {
    if f == 0 {
      assert Registered(es, f, t)[SlotFor(es, f)].tickee == 0;
    } else {
      RegisteredOrder(es, f, t);
    }
  }

  // --------------------------------------------------------------------------- the VM's check

  /** Entry k is called by a check that reads the clock as clock(k) when it comes to it. */
  predicate Called(es: seq<Tickee>, clock: nat -> nat, k: nat)
    requires k < |es|
  {
    es[k].tickee != 0 && clock(k) >= es[k].timer.deadline
  }

  /** A called entry's deadline moves on by exactly one period. */
  function Ticked(es: seq<Tickee>, clock: nat -> nat): seq<Tickee> {
    seq(|es|, k requires 0 <= k < |es| =>
      if Called(es, clock, k)
      then es[k].(timer := es[k].timer.(deadline := es[k].timer.deadline + es[k].timer.period))
      else es[k])
  }

  /** The first n entries' calls, in order. */
  function Calls(es: seq<Tickee>, clock: nat -> nat, n: nat): seq<nat>
    requires n <= |es|
  {
    if n == 0 then []
    else Calls(es, clock, n - 1) + if Called(es, clock, n - 1) then [es[n - 1].tickee] else []
  }

  /** Where they are. */
  function Places(es: seq<Tickee>, clock: nat -> nat, n: nat): seq<nat>
    requires n <= |es|
  {
    if n == 0 then [] else Places(es, clock, n - 1) + if Called(es, clock, n - 1) then [n - 1] else []
  }

  /** The calls come in the order of the entries, and are those of the entries due. */
  lemma {:induction false} PlacesMean(es: seq<Tickee>, clock: nat -> nat, n: nat)
    requires n <= |es|
    ensures var places, calls := Places(es, clock, n), Calls(es, clock, n);
            && |calls| == |places| && (forall k, l :: 0 <= k < l < |places| ==> places[k] < places[l])
            && (forall k :: 0 <= k < |places| ==> places[k] < n && calls[k] == es[places[k]].tickee)
            && (forall k: nat :: k in places <==> k < n && es[k].tickee != 0 && clock(k) >= es[k].timer.deadline)
  {
    if n > 0 { PlacesMean(es, clock, n - 1); }
  }

  /** Every tickee is called at most once per check, and exactly those that are due are. */
  lemma {:induction false} CalledOnce(es: seq<Tickee>, clock: nat -> nat, n: nat, k: nat)
    requires Sound(es) && n <= |es| && k < |es|
    ensures multiset(Calls(es, clock, n))[es[k].tickee] == if k < n && Called(es, clock, k) then 1 else 0
  {
    if n > 0 { CalledOnce(es, clock, n - 1, k); }
  }

  /** How often one check calls f. */
  function CallsTo(es: seq<Tickee>, clock: nat -> nat, f: nat): nat { multiset(Calls(es, clock, |es|))[f] }

  /** One check, in numbers: who is called, and what becomes of every entry. */
  lemma OneCheckMeans(es: seq<Tickee>, clock: nat -> nat, k: nat)
    requires Sound(es) && k < |es|
    ensures var es', was := Ticked(es, clock), es[k].timer;
            && |es'| == |es| && es'[k].tickee == es[k].tickee && es'[k].timer.period == was.period
            && CallsTo(es, clock, es[k].tickee) == (if clock(k) >= was.deadline then 1 else 0)
            && es'[k].timer.deadline == was.deadline + if clock(k) >= was.deadline then was.period else 0
  {
    CalledOnce(es, clock, |es|, k);
  }

  /** The registry after some checks. */
  function AfterChecks(es: seq<Tickee>, clocks: seq<nat -> nat>): (r: seq<Tickee>)
    ensures |r| == |es| && forall k :: 0 <= k < |es| ==> r[k].tickee == es[k].tickee
  {
    if clocks == [] then es else Ticked(AfterChecks(es, clocks[..|clocks| - 1]), clocks[|clocks| - 1])
  }

  /** How often these checks call f. */
  function TimesCalled(es: seq<Tickee>, clocks: seq<nat -> nat>, f: nat): nat {
    if clocks == [] then 0
    else
      var before := clocks[..|clocks| - 1];
      TimesCalled(es, before, f) + CallsTo(AfterChecks(es, before), clocks[|clocks| - 1], f)
  }

  /** Checks change neither the functions nor their order. */
  lemma ChecksKeepOrder(es: seq<Tickee>, clocks: seq<nat -> nat>)
    ensures Order(AfterChecks(es, clocks)) == Order(es)
    ensures Sound(es) ==> Sound(AfterChecks(es, clocks))
  {
  }

  lemma OneMoreCheck(es: seq<Tickee>, clocks: seq<nat -> nat>, f: nat)
    requires clocks != []
    ensures var mid, clock := AfterChecks(es, clocks[..|clocks| - 1]), clocks[|clocks| - 1];
            && AfterChecks(es, clocks) == Ticked(mid, clock)
            && TimesCalled(es, clocks, f) == TimesCalled(es, clocks[..|clocks| - 1], f) + CallsTo(mid, clock, f)
  {
  }

  predicate PeriodsOn(t: Timer, first: Timer, n: nat) {
    t.period == first.period && t.deadline == first.deadline + n * first.period
  }

  /** An entry that is some periods on is so many and its calls in this check on after it. */
  lemma OneMorePeriod(es: seq<Tickee>, clock: nat -> nat, k: nat, first: Timer, calls: nat)
    requires Sound(es) && k < |es| && PeriodsOn(es[k].timer, first, calls)
    ensures var more := CallsTo(es, clock, es[k].tickee);
            && |Ticked(es, clock)| == |es|
            && PeriodsOn(Ticked(es, clock)[k].timer, first, calls + more)
            && more == if first.deadline + calls * first.period <= clock(k) then 1 else 0
  {
    OneCheckMeans(es, clock, k);
    assert (calls + 1) * first.period == calls * first.period + first.period;
  }

  /** Over any sequence of checks a deadline is the first one plus a period for each call. */
  lemma {:induction false} ChecksKeepTime(es: seq<Tickee>, clocks: seq<nat -> nat>, k: nat)
    requires Sound(es) && k < |es|
    ensures var first, calls := es[k].timer, TimesCalled(es, clocks, es[k].tickee);
            && AfterChecks(es, clocks)[k].timer.period == first.period
            && AfterChecks(es, clocks)[k].timer.deadline == first.deadline + calls * first.period
  {
    if clocks != [] {
      var before := clocks[..|clocks| - 1];
      var mid := AfterChecks(es, before);
      ChecksKeepTime(es, before, k);
      ChecksKeepOrder(es, before);
      OneMorePeriod(mid, clocks[|clocks| - 1], k, es[k].timer, TimesCalled(es, before, es[k].tickee));
      OneMoreCheck(es, clocks, es[k].tickee);
    }
  }

  /** Calls while the clock stands, lag being what the deadline was behind at first. */
  lemma OneMoreDue(lag: int, period: nat, checks: nat, calls: nat, more: nat)
    requires period > 0 && more == if calls * period <= lag then 1 else 0
    ensures var due := if lag < 0 then 0 else lag / period + 1;
            calls == (if checks < due then checks else due) ==>
            calls + more == if checks + 1 < due then checks + 1 else due
  {
    QuotientCompare(lag, period, calls);
    assert 0 <= calls * period;
    if lag >= 0 { QuotientCompare(lag, period, 0); }
  }

  /** While the clock stands at `now` a tickee is called once for each period begun since its deadline, and
      no more: min(n, floor((now - deadline)/period) + 1) times in n checks, however late it is. */
  lemma {:induction false} StandingClock(es: seq<Tickee>, clocks: seq<nat -> nat>, now: nat, k: nat)
    requires Sound(es) && k < |es| && es[k].timer.period > 0
    requires forall i :: 0 <= i < |clocks| ==> clocks[i](k) == now
    ensures var lag := now - es[k].timer.deadline;
            var due := if lag < 0 then 0 else lag / es[k].timer.period + 1;
            TimesCalled(es, clocks, es[k].tickee) == if |clocks| < due then |clocks| else due
  {
    var first := es[k].timer;
    if clocks != [] {
      var before, clock := clocks[..|clocks| - 1], clocks[|clocks| - 1];
      var mid, calls := AfterChecks(es, before), TimesCalled(es, before, es[k].tickee);
      StandingClock(es, before, now, k);
      ChecksKeepTime(es, before, k);
      ChecksKeepOrder(es, before);
      OneMorePeriod(mid, clock, k, first, calls);
      OneMoreCheck(es, clocks, es[k].tickee);
      OneMoreDue(now - first.deadline, first.period, |before|, calls, CallsTo(mid, clock, es[k].tickee));
    } else {
      QuotientCompare(now - first.deadline, first.period, 0);
    }
  }

  /** How a registration ends: as it should, in error(), or with the program stopped. */
  datatype Outcome = Done | OutOfSlots | DivisionByZero

  class Ticker {
    const synch: array<Tickee>
    var numSyncTickees: nat

    ghost predicate Valid()
      reads this
    {
      synch.Length == NUM_TICKEES && numSyncTickees <= NUM_TICKEES
    }

    ghost function Entries(): seq<Tickee>
      requires Valid()
      reads this, synch
    {
      synch[..numSyncTickees]
    }

    constructor ()
      ensures Valid() && fresh(synch) && Entries() == []
    {
      synch := new Tickee[NUM_TICKEES](_ => Tickee(0, Timer(0, 0)));
      numSyncTickees := 0;
    }

    /** Adds, updates, or with a zero period removes a tickee. The clock is read as `now`, and when
        rounding again as `later`. A round of a multiple of 2^29 ms stops the program if a slot is
        found. */
    method AddSynchronousTickee(tickee: nat, periodms: nat, roundms: nat, now: nat, later: nat)
      returns (r: Outcome)
      requires Valid()
      modifies this, synch
      ensures Valid()
      ensures r.OutOfSlots? <==> periodms != 0 && !HasRoomFor(old(Entries()), tickee)
      ensures r.DivisionByZero? <==>
                && periodms != 0 && HasRoomFor(old(Entries()), tickee)
                && roundms != 0 && roundms % 0x2000_0000 == 0
      ensures r.OutOfSlots? <==>
                && periodms != 0 && old(numSyncTickees) == 4
                && forall k :: 0 <= k < 4 ==> old(synch[k]).tickee != 0 && old(synch[k]).tickee != tickee
      ensures r.OutOfSlots? ==> Entries() == old(Entries())
      ensures r.Done? ==>
                Entries() ==
                if periodms == 0 then Unregistered(old(Entries()), tickee)
                else Registered(old(Entries()), tickee,
                       Timer(FirstDeadline(now, later, Usecs(periodms), Usecs(roundms)), Usecs(periodms)))
    {
      ghost var es := Entries();
      UsecsZero(roundms);
      if periodms == 0 {
        Remove(tickee);
        return Done;
      }
      var i := 0;
      while i < NUM_TICKEES && !(i >= numSyncTickees || synch[i].tickee == 0 || synch[i].tickee == tickee)
        invariant 0 <= i <= numSyncTickees
        invariant forall k :: 0 <= k < i ==> es[k].tickee != 0 && es[k].tickee != tickee
      {
        i := i + 1;
      }
      assert i == SlotFor(es, tickee);
      if i == NUM_TICKEES {
        return OutOfSlots;
      }
      var period := Usecs(periodms);
      if roundms != 0 && Usecs(roundms) == 0 {
        return DivisionByZero;
      }
      var deadline := ComputeDeadline(now, later, period, Usecs(roundms));
      synch[i] := Tickee(tickee, Timer(deadline, period));
      if i >= numSyncTickees {
        numSyncTickees := numSyncTickees + 1;
      }
      r := Done;
    }

    /** The removal half: closes the gap with a memmove. */
    method Remove(tickee: nat)
      requires Valid()
      modifies this, synch
      ensures Valid() && Entries() == Unregistered(old(Entries()), tickee)
    {
      ghost var es := Entries();
      var i := 0;
      while i < numSyncTickees
        invariant 0 <= i <= numSyncTickees
        invariant forall k :: 0 <= k < i ==> es[k].tickee != tickee
      {
        if synch[i].tickee == tickee {
          numSyncTickees := numSyncTickees - 1;
          forall k | i <= k < numSyncTickees {
            synch[k] := synch[k + 1];
          }
          assert i == Position(es, tickee);
          assert Entries() == es[..i] + es[i + 1..];
          return;
        }
        i := i + 1;
      }
      assert Position(es, tickee) == |es|;
    }

    method ComputeDeadline(now: nat, later: nat, period: nat, round: nat) returns (deadline: nat)
      ensures deadline == FirstDeadline(now, later, period, round)
    {
      deadline := period + now;
      if round != 0 {
        deadline := deadline - deadline % round;
        if deadline < later {
          deadline := deadline + period;
        }
      }
    }

    /** Calls every tickee whose deadline has been reached, once. */
    method IoSynchronousCheckForEvents(clock: nat -> nat) returns (called: seq<nat>, ghost places: seq<nat>)
      requires Valid()
      modifies synch
      ensures Entries() == Ticked(old(Entries()), clock)
      ensures called == Calls(old(Entries()), clock, numSyncTickees)
      ensures |called| == |places| && forall k, l :: 0 <= k < l < |places| ==> places[k] < places[l]
      ensures forall k :: 0 <= k < |places| ==> places[k] < numSyncTickees && called[k] == synch[places[k]].tickee
      ensures forall k: nat :: k in places <==>
                k < numSyncTickees && old(synch[k]).tickee != 0 && clock(k) >= old(synch[k]).timer.deadline
      ensures forall k :: 0 <= k < numSyncTickees ==>
                && synch[k].tickee == old(synch[k]).tickee && synch[k].timer.period == old(synch[k]).timer.period
                && synch[k].timer.deadline ==
                   (if old(synch[k]).tickee != 0 && clock(k) >= old(synch[k]).timer.deadline
                    then old(synch[k]).timer.deadline + old(synch[k]).timer.period else old(synch[k]).timer.deadline)
    {
      ghost var es := Entries();
      places := Places(es, clock, numSyncTickees);
      PlacesMean(es, clock, numSyncTickees);
      called := CheckEntries(clock);
      assert forall k :: 0 <= k < numSyncTickees ==> synch[k] == Entries()[k] && old(synch[k]) == es[k];
    }

    /** The loop of the check. */
    method CheckEntries(clock: nat -> nat) returns (called: seq<nat>)
      requires Valid()
      modifies synch
      ensures Entries() == Ticked(old(Entries()), clock)
      ensures called == Calls(old(Entries()), clock, numSyncTickees)
    {
      ghost var es := Entries();
      called := [];
      var i := 0;
      while i < numSyncTickees
        invariant 0 <= i <= numSyncTickees
        invariant called == Calls(es, clock, i)
        invariant forall k :: 0 <= k < numSyncTickees ==> synch[k] == if k < i then Ticked(es, clock)[k] else es[k]
      {
        if synch[i].tickee != 0 && clock(i) >= synch[i].timer.deadline {
          var t := synch[i].timer;
          synch[i] := synch[i].(timer := t.(deadline := t.deadline + t.period));
          called := called + [synch[i].tickee];
        }
        i := i + 1;
      }
    }
  }
}
