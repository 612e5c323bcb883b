/**
 The asynchronous registry of sqTicker.c. The VM thread registers and unregisters tickees; complete
 heartbeat checks may interrupt it between any two statements. The registry is proved to behave as
 a table from functions to timers in which registering and unregistering are single steps.
 */
module HighPriorityTicker {
  import opened TickerDeadlines

  const NUM_TICKEES := 4

  /** Function 0 is the null pointer: the slot is disabled. */
  datatype Tickee = Tickee(tickee: nat, inProgress: bool, timer: Timer)

  // ------------------------------------------------------------------- the table, as a value

  /** What happens to the registry, each at one moment: a heartbeat check, the removal of a function,
      its registration. */
  datatype Event = Tick(clock: nat) | Drop(f: nat) | Put(f: nat, timer: Timer)

  function BeatAll(table: map<nat, Timer>, clock: nat): map<nat, Timer> {
    map f | f in table :: Beat(table[f], clock)
  }

  function DueAt(table: map<nat, Timer>, clock: nat): set<nat> {
    set f | f in table && Due(table[f], clock)
  }

  /** Registering the null function has no effect. */
  function Enter(table: map<nat, Timer>, f: nat, t: Timer): map<nat, Timer> {
    if f == 0 then table else table[f := t]
  }

  function Happen(table: map<nat, Timer>, e: Event): map<nat, Timer> {
    match e
    case Tick(clock) => BeatAll(table, clock)
    case Drop(f) => table - {f}
    case Put(f, t) => Enter(table, f, t)
  }

  /** The registered functions and their timers after the events. */
  function TableOf(events: seq<Event>): map<nat, Timer> {
    if events == [] then map[] else Happen(TableOf(events[..|events| - 1]), events[|events| - 1])
  }

  /** How often the checks among the events called f. */
  function CallsOf(events: seq<Event>, f: nat): nat {
    if events == [] then 0
    else
      var before, e := events[..|events| - 1], events[|events| - 1];
      CallsOf(before, f) + if e.Tick? && f in DueAt(TableOf(before), e.clock) then 1 else 0
  }

  /** The clock readings of the checks among the events. */
  function Clocks(events: seq<Event>): seq<nat> {
    if events == [] then []
    else Clocks(events[..|events| - 1]) + if events[|events| - 1].Tick? then [events[|events| - 1].clock] else []
  }

  lemma EventsNext(events: seq<Event>, e: Event, f: nat)
    ensures TableOf(events + [e]) == Happen(TableOf(events), e)
    ensures CallsOf(events + [e], f) ==
            CallsOf(events, f) + if e.Tick? && f in DueAt(TableOf(events), e.clock) then 1 else 0
    ensures Clocks(events + [e]) == Clocks(events) + if e.Tick? then [e.clock] else []
  {
    assert (events + [e])[..|events + [e]| - 1] == events;
  }

  lemma KeepsItsTimeOnce(before: seq<Event>, f: nat, t: Timer, clocks: seq<nat>, e: Event)
    requires f != 0 && (e.Tick? || e.f != f)
    requires f in TableOf(before) && TableOf(before)[f] == Beats(t, clocks)
    ensures var clocks' := clocks + if e.Tick? then [e.clock] else [];
            && f in TableOf(before + [e])
            && TableOf(before + [e])[f] == Beats(t, clocks')
            && CallsOf(before + [e], f) - CallsOf(before, f) == Fires(t, clocks') - Fires(t, clocks)
  {
    EventsNext(before, e, f);
    if e.Tick? {
      BeatsNext(t, clocks, e.clock);
    } else {
      assert clocks + [] == clocks;
    }
  }

  /** Every function keeps its own time: from its registration until it is next registered or
      removed, its timer and the number of its calls are those of a timer alone, whatever happens to
      the other functions. */
  lemma {:induction false} KeepsItsTime(past: seq<Event>, f: nat, t: Timer, since: seq<Event>)
    requires f != 0
    requires forall k :: 0 <= k < |since| ==> since[k].Tick? || since[k].f != f
    ensures var events := past + [Put(f, t)] + since;
            && f in TableOf(events)
            && TableOf(events)[f] == Beats(t, Clocks(since))
            && CallsOf(events, f) == CallsOf(past + [Put(f, t)], f) + Fires(t, Clocks(since))
  {
    var start := past + [Put(f, t)];
    if since == [] {
      assert start + since == start;
      EventsNext(past, Put(f, t), f);
    } else {
      var n := |since| - 1;
      KeepsItsTime(past, f, t, since[..n]);
      var before := start + since[..n];
      assert start + since == before + [since[n]];
      KeepsItsTimeOnce(before, f, t, Clocks(since[..n]), since[n]);
    }
  }

  /** A function that was removed is not called until it is registered again. */
  lemma {:induction false} DroppedIsSilent(past: seq<Event>, f: nat, since: seq<Event>)
    requires forall k :: 0 <= k < |since| ==> !(since[k].Put? && since[k].f == f)
    ensures f !in TableOf(past + [Drop(f)] + since)
    ensures CallsOf(past + [Drop(f)] + since, f) == CallsOf(past, f)
  {
    var start := past + [Drop(f)];
    if since == [] {
      assert start + since == start;
      EventsNext(past, Drop(f), f);
    } else {
      var n := |since| - 1;
      DroppedIsSilent(past, f, since[..n]);
      EventsNext(start + since[..n], since[n], f);
      assert start + since == start + since[..n] + [since[n]];
    }
  }

  // -------------------------------------------------------------------- the slots, as a value

  /** The first n slots hold exactly the table, each function in one slot; none is being run. */
  ghost predicate Holds(slots: seq<Tickee>, n: nat, table: map<nat, Timer>)
    requires n <= |slots|
  {
    && (forall k :: 0 <= k < n ==> !slots[k].inProgress)
    && (forall k :: 0 <= k < n && slots[k].tickee != 0 ==>
          slots[k].tickee in table && table[slots[k].tickee] == slots[k].timer)
    && (forall f :: f in table ==> f != 0 && In(slots, n, f))
    && (forall j, k :: 0 <= j < k < n && slots[j].tickee != 0 ==> slots[j].tickee != slots[k].tickee)
  }

  predicate In(slots: seq<Tickee>, n: nat, f: nat)
    requires n <= |slots|
  {
    exists k :: 0 <= k < n && slots[k].tickee == f
  }

  function BeatSlot(slot: Tickee, clock: nat): Tickee {
    if slot.tickee != 0 then slot.(timer := Beat(slot.timer, clock)) else slot
  }

  /** The functions a check of the first n slots calls, in slot order. */
  function CalledFrom(slots: seq<Tickee>, n: nat, clock: nat): seq<nat>
    requires n <= |slots|
  {
    if n == 0 then []
    else CalledFrom(slots, n - 1, clock) +
         if slots[n - 1].tickee != 0 && Due(slots[n - 1].timer, clock) then [slots[n - 1].tickee] else []
  }

  /** One of the first n slots is f's and due. */
  predicate DueIn(slots: seq<Tickee>, n: nat, clock: nat, f: nat)
    requires n <= |slots|
  {
    exists k :: 0 <= k < n && slots[k].tickee == f && f != 0 && Due(slots[k].timer, clock)
  }

  predicate NoneTwice(slots: seq<Tickee>, n: nat)
    requires n <= |slots|
  {
    forall j, k :: 0 <= j < k < n && slots[j].tickee != 0 ==> slots[j].tickee != slots[k].tickee
  }

  lemma DueInNext(slots: seq<Tickee>, n: nat, clock: nat, f: nat)
    requires 0 < n <= |slots| && NoneTwice(slots, n)
    ensures var last := slots[n - 1].tickee == f && f != 0 && Due(slots[n - 1].timer, clock);
            && (DueIn(slots, n, clock, f) <==> DueIn(slots, n - 1, clock, f) || last)
            && !(DueIn(slots, n - 1, clock, f) && last)
  {
  }

  lemma {:induction false} CalledCount(slots: seq<Tickee>, n: nat, clock: nat, f: nat)
    requires n <= |slots| && NoneTwice(slots, n)
    ensures CountOf(CalledFrom(slots, n, clock), f) == if DueIn(slots, n, clock, f) then 1 else 0
  {
    if n > 0 {
      CalledCount(slots, n - 1, clock, f);
      DueInNext(slots, n, clock, f);
      var slot := slots[n - 1];
      CountOne(CalledFrom(slots, n - 1, clock), slot.tickee, slot.tickee != 0 && Due(slot.timer, clock), f);
    }
  }

  /** How often f is among the calls. */
  function CountOf(s: seq<nat>, f: nat): nat {
    if s == [] then 0 else CountOf(s[..|s| - 1], f) + if s[|s| - 1] == f then 1 else 0
  }

  lemma CountOne(s: seq<nat>, x: nat, added: bool, f: nat)
    ensures CountOf(s + if added then [x] else [], f) == CountOf(s, f) + if added && x == f then 1 else 0
  {
    if added { assert (s + [x])[..|s + [x]| - 1] == s; } else { assert s + [] == s; }
  }

  lemma {:induction false} CountIsMultiplicity(s: seq<nat>, f: nat)
    ensures CountOf(s, f) == multiset(s)[f]
  {
    if s != [] {
      var front := s[..|s| - 1];
      CountIsMultiplicity(front, f);
      assert s == front + [s[|s| - 1]];
    }
  }

  /** A check calls each due function exactly once and no other. */
  lemma CalledExactly(slots: seq<Tickee>, n: nat, clock: nat, table: map<nat, Timer>)
    requires n <= |slots| && Holds(slots, n, table)
    ensures multiset(CalledFrom(slots, n, clock)) == multiset(DueAt(table, clock))
  {
    forall f ensures multiset(CalledFrom(slots, n, clock))[f] == multiset(DueAt(table, clock))[f] {
      CalledCount(slots, n, clock, f);
      CountIsMultiplicity(CalledFrom(slots, n, clock), f);
      if f in table {
        var k :| 0 <= k < n && slots[k].tickee == f;
      }
    }
  }

  /** What a check makes of a table, in numbers. */
  lemma BeatenTable(table: map<nat, Timer>, clock: nat)
    ensures DueAt(table, clock) == set f | f in table && clock >= table[f].deadline
    ensures BeatAll(table, clock).Keys == table.Keys
    ensures forall f :: f in table ==>
              var now, was := BeatAll(table, clock)[f], table[f];
              && now.period == was.period
              && now.deadline ==
                 (if clock < was.deadline then was.deadline
                  else if was.deadline + 10_000_000 < clock then clock + was.period
                  else was.deadline + was.period)
  {
  }

  lemma BeatenHolds(slots: seq<Tickee>, slots': seq<Tickee>, n: nat, clock: nat, table: map<nat, Timer>)
    requires n <= |slots| == |slots'| && Holds(slots, n, table)
    requires forall k :: 0 <= k < n ==> slots'[k] == BeatSlot(slots[k], clock)
    ensures Holds(slots', n, BeatAll(table, clock))
  {
    var table' := BeatAll(table, clock);
    forall f | f in table' ensures In(slots', n, f) {
      var k :| 0 <= k < n && slots[k].tickee == f;
      assert slots'[k].tickee == f;
    }
  }

  lemma DisabledHolds(slots: seq<Tickee>, n: nat, i: nat, table: map<nat, Timer>)
    requires i < n <= |slots| && Holds(slots, n, table)
    ensures Holds(slots[i := slots[i].(tickee := 0)], n, table - {slots[i].tickee})
  {
    var slots' := slots[i := slots[i].(tickee := 0)];
    forall f | f in table && f != slots[i].tickee ensures In(slots', n, f) {
      var k :| 0 <= k < n && slots[k].tickee == f;
      assert slots'[k].tickee == f;
    }
  }

  /** What a slot that is disabled or not yet counted contains does not matter. */
  lemma UnseenHolds(slots: seq<Tickee>, n: nat, i: nat, slot: Tickee, table: map<nat, Timer>)
    requires n <= |slots| && i < |slots| && Holds(slots, n, table)
    requires i < n ==> slots[i].tickee == 0 && slot.tickee == 0 && !slot.inProgress
    ensures Holds(slots[i := slot], n, table)
  {
    var slots' := slots[i := slot];
    forall f | f in table ensures In(slots', n, f) {
      var k :| 0 <= k < n && slots[k].tickee == f;
      assert slots'[k].tickee == f;
    }
  }

  /** Storing the function last makes a disabled slot live. */
  lemma EnabledHolds(slots: seq<Tickee>, n: nat, i: nat, f: nat, table: map<nat, Timer>)
    requires i < n <= |slots| && Holds(slots, n, table) && slots[i].tickee == 0 && f !in table
    ensures Holds(slots[i := slots[i].(tickee := f)], n, Enter(table, f, slots[i].timer))
  {
    var slots' := slots[i := slots[i].(tickee := f)];
    if f != 0 { assert slots'[i].tickee == f; }
    forall g | g in table ensures In(slots', n, g) {
      var k :| 0 <= k < n && slots[k].tickee == g;
      assert slots'[k].tickee == g;
    }
  }

  /** Counting one more slot makes it live. */
  lemma CountedHolds(slots: seq<Tickee>, n: nat, table: map<nat, Timer>)
    requires n < |slots| && Holds(slots, n, table) && !slots[n].inProgress && slots[n].tickee !in table
    ensures Holds(slots, n + 1, Enter(table, slots[n].tickee, slots[n].timer))
  {
    var f := slots[n].tickee;
    if f != 0 { assert In(slots, n + 1, f); }
    forall g | g in table ensures In(slots, n + 1, g) {
      var k :| 0 <= k < n && slots[k].tickee == g;
      assert slots[k].tickee == g;
    }
    forall j | 0 <= j < n && slots[j].tickee != 0 ensures slots[j].tickee != f {
      assert slots[j].tickee in table;
    }
  }

  lemma Absent(slots: seq<Tickee>, n: nat, table: map<nat, Timer>, f: nat)
    requires n <= |slots| && Holds(slots, n, table)
    requires forall k :: 0 <= k < n ==> slots[k].tickee != f
    ensures f !in table && table - {f} == table
  {
  }

  class Ticker {
    const async: array<Tickee>
    var numAsyncTickees: nat
    /** Everything that has happened, and the table that makes. */
    ghost var events: seq<Event>
    ghost var table: map<nat, Timer>

    ghost predicate Valid()
      reads this, async
    {
      && async.Length == NUM_TICKEES && numAsyncTickees <= NUM_TICKEES
      && Holds(async[..], numAsyncTickees, table)
      && table == TableOf(events)
    }

    constructor ()
      ensures Valid() && fresh(async) && events == []
    {
      async := new Tickee[NUM_TICKEES](_ => Tickee(0, false, Timer(0, 0)));
      numAsyncTickees, events, table := 0, [], map[];
    }

    /** One complete heartbeat check: calls every due function exactly once, and no other. */
    method CheckHighPriorityTickees(clock: nat) returns (called: seq<nat>)
      requires Valid()
      modifies async, this`table, this`events
      ensures Valid() && events == old(events) + [Tick(clock)]
      ensures multiset(called) == multiset(DueAt(old(table), clock))
      ensures multiset(called) == multiset(set f | f in old(table) && clock >= old(table)[f].deadline)
      ensures forall k :: 0 <= k < NUM_TICKEES ==>
                async[k] == if k < numAsyncTickees then BeatSlot(old(async[k]), clock) else old(async[k])
      ensures table.Keys == old(table).Keys
      ensures forall f :: f in table ==>
                var was := old(table)[f];
                && table[f].period == was.period
                && table[f].deadline ==
                   (if clock < was.deadline then was.deadline
                    else if was.deadline + 10_000_000 < clock then clock + was.period
                    else was.deadline + was.period)
    {
      ghost var slots := async[..];
      called := CheckSlots(clock);
      CalledExactly(slots, numAsyncTickees, clock, table);
      BeatenTable(table, clock);
      BeatenHolds(slots, async[..], numAsyncTickees, clock, table);
      EventsNext(events, Tick(clock), 0);
      events, table := events + [Tick(clock)], BeatAll(table, clock);
    }

    /** The check's loop. */
    method CheckSlots(clock: nat) returns (called: seq<nat>)
      requires async.Length == NUM_TICKEES && numAsyncTickees <= NUM_TICKEES
      requires forall k :: 0 <= k < numAsyncTickees ==> !async[k].inProgress
      modifies async
      ensures called == CalledFrom(old(async[..]), numAsyncTickees, clock)
      ensures forall k :: 0 <= k < NUM_TICKEES ==>
                async[k] == if k < numAsyncTickees then BeatSlot(old(async[k]), clock) else old(async[k])
    {
      ghost var slots := async[..];
      called := [];
      var i := 0;
      while i < numAsyncTickees
        invariant 0 <= i <= numAsyncTickees
        invariant called == CalledFrom(slots, i, clock)
        invariant forall k :: 0 <= k < NUM_TICKEES ==>
                    async[k] == if k < i then BeatSlot(slots[k], clock) else slots[k]
      {
        var fired := CheckSlot(i, clock);
        if fired {
          called := called + [async[i].tickee];
        }
        i := i + 1;
      }
    }

    /** The body of the check's loop: the tickee is called between setting and clearing inProgress. */
    method CheckSlot(i: nat, clock: nat) returns (fired: bool)
      requires i < async.Length && !async[i].inProgress
      modifies async
      ensures fired <==> old(async[i]).tickee != 0 && Due(old(async[i]).timer, clock)
      ensures async[..] == old(async[..])[i := BeatSlot(old(async[i]), clock)]
      ensures var slot, was := async[i], old(async[i]);
              && (fired <==> was.tickee != 0 && clock >= was.timer.deadline)
              && slot.tickee == was.tickee && !slot.inProgress && slot.timer.period == was.timer.period
              && slot.timer.deadline ==
                 (if !fired then was.timer.deadline
                  else if was.timer.deadline + 10_000_000 < clock then clock + was.timer.period
                  else was.timer.deadline + was.timer.period)
    {
      if async[i].tickee != 0 && !async[i].inProgress && clock >= async[i].timer.deadline {
        async[i] := async[i].(inProgress := true);
        var t := async[i].timer;
        if t.deadline + HICCUP_THRESHOLD < clock {
          async[i] := async[i].(timer := t.(deadline := clock + t.period));
        } else {
          async[i] := async[i].(timer := t.(deadline := t.deadline + t.period));
        }
        async[i] := async[i].(inProgress := false);
        return true;
      }
      fired := false;
    }

    // ------------------------------------------------------------ the VM thread, interrupted

    /** Nothing but checks has happened since the events were `past`. */
    ghost predicate OnlyTicksSince(past: seq<Event>)
      reads this
    {
      TicksAfter(past, events)
    }

    /** None of the first i slots holds f. */
    ghost predicate Passed(i: int, f: nat)
      reads async
    {
      forall k :: 0 <= k < i && k < async.Length ==> async[k].tickee != f
    }

    /** The complete checks that happen between two statements of the VM thread. They change neither
        the functions nor anything in a slot that is disabled or not counted. */
    method Pause(clocks: seq<nat>)
      requires Valid()
      modifies async, this`table, this`events
      ensures Valid() && table.Keys == old(table).Keys
      ensures forall past :: old(OnlyTicksSince(past)) ==> OnlyTicksSince(past)
      ensures forall i, f :: old(Passed(i, f)) ==> Passed(i, f)
      ensures forall k :: 0 <= k < NUM_TICKEES ==> async[k].tickee == old(async[k].tickee)
      ensures forall k :: 0 <= k < NUM_TICKEES && (k >= numAsyncTickees || async[k].tickee == 0) ==>
                async[k] == old(async[k])
    {
      var n := 0;
      while n < |clocks|
        invariant 0 <= n <= |clocks|
        invariant Valid() && table.Keys == old(table).Keys && TicksAfter(old(events), events)
        invariant forall k :: 0 <= k < NUM_TICKEES ==> async[k].tickee == old(async[k].tickee)
        invariant forall k :: 0 <= k < NUM_TICKEES && (k >= numAsyncTickees || async[k].tickee == 0) ==>
                    async[k] == old(async[k])
      {
        BeatOnce(clocks[n]);
        n := n + 1;
      }
      forall past | old(OnlyTicksSince(past)) ensures OnlyTicksSince(past) {
        TicksCompose(past, old(events), events);
      }
    }

    /** One of them. */
    method BeatOnce(clock: nat)
      requires Valid()
      modifies async, this`table, this`events
      ensures Valid() && table.Keys == old(table).Keys && events == old(events) + [Tick(clock)]
      ensures forall k :: 0 <= k < NUM_TICKEES ==> async[k].tickee == old(async[k].tickee)
      ensures forall k :: 0 <= k < NUM_TICKEES && (k >= numAsyncTickees || async[k].tickee == 0) ==>
                async[k] == old(async[k])
    {
      EventsNext(events, Tick(clock), 0);
      var called := CheckHighPriorityTickees(clock);
    }

    /** The same, for what a search knows so far. */
    method PauseSearching(clocks: seq<nat>, ghost past: seq<Event>, i: int, f: nat)
      requires Valid() && OnlyTicksSince(past) && Passed(i, f)
      modifies async, this`table, this`events
      ensures Valid() && table.Keys == old(table).Keys && OnlyTicksSince(past) && Passed(i, f)
    {
      Pause(clocks);
    }

    /** The store of a null function pointer to slot i, which holds f if it is counted and in use. */
    method Disable(i: nat, ghost f: nat)
      requires Valid() && i <= numAsyncTickees && i < NUM_TICKEES
      requires i < numAsyncTickees && async[i].tickee != 0 ==> async[i].tickee == f
      requires i == numAsyncTickees || async[i].tickee == 0 ==> f !in table
      modifies async, this`table, this`events
      ensures Valid() && events == old(events) + [Drop(f)] && f !in table
      ensures async[..] == old(async[..])[i := old(async[i]).(tickee := 0)]
    {
      ghost var slots := async[..];
      async[i] := async[i].(tickee := 0);
      assert async[..] == slots[i := slots[i].(tickee := 0)];
      if i < numAsyncTickees {
        DisabledHolds(slots, numAsyncTickees, i, table);
        assert 0 !in table;
        assert table - {slots[i].tickee} == table - {f};
      } else {
        UnseenHolds(slots, numAsyncTickees, i, slots[i].(tickee := 0), table);
        assert table - {f} == table;
      }
      EventsNext(events, Drop(f), 0);
      events, table := events + [Drop(f)], table - {f};
    }

    /** The search for a function's slot; checks may come after each test. */
    method Find(tickee: nat, beats: seq<seq<nat>>) returns (i: nat, n: nat)
      requires Valid()
      modifies async, this`table, this`events
      ensures Valid() && OnlyTicksSince(old(events))
      ensures i <= numAsyncTickees
      ensures i < numAsyncTickees ==> async[i].tickee == tickee
      ensures Passed(i, tickee)
    {
      Pause(Gap(beats, 0));
      n, i := 1, 0;
      while i < numAsyncTickees && async[i].tickee != tickee
        invariant 0 <= i <= numAsyncTickees && n >= 1
        invariant Valid() && OnlyTicksSince(old(events)) && Passed(i, tickee)
        decreases numAsyncTickees - i
      {
        i := i + 1;
        PauseSearching(Gap(beats, n), old(events), i, tickee);
        n := n + 1;
      }
    }

    /** The first disabled or uncounted slot, or NUM_TICKEES. */
    method FindFree(beats: seq<seq<nat>>, first: nat) returns (i: nat, n: nat)
      requires Valid()
      modifies async, this`table, this`events
      ensures Valid() && table.Keys == old(table).Keys && OnlyTicksSince(old(events))
      ensures i <= numAsyncTickees && Passed(i, 0)
      ensures i < numAsyncTickees ==> async[i].tickee == 0
    {
      i, n := 0, first;
      while i < NUM_TICKEES && !(i >= numAsyncTickees || async[i].tickee == 0)
        invariant 0 <= i <= numAsyncTickees && n >= 0
        invariant Valid() && table.Keys == old(table).Keys && Passed(i, 0)
        invariant OnlyTicksSince(old(events))
        decreases NUM_TICKEES - i
      {
        i := i + 1;
        PauseSearching(Gap(beats, n), old(events), i, 0);
        n := n + 1;
      }
    }

    /** Removes a tickee. In gap n between two statements the checks of beats[n], if any, take place;
        the removal happens at one moment, after the checks `pre` and before the checks `post`. */
    method RemoveTickee(tickee: nat, beats: seq<seq<nat>>) returns (ghost pre: seq<Event>, ghost post: seq<Event>)
      requires Valid()
      modifies async, this`table, this`events
      ensures Valid() && AllTicks(pre) && AllTicks(post)
      ensures events == old(events) + pre + [Drop(tickee)] + post
    {
      var i, n := Find(tickee, beats);
      if i < numAsyncTickees {
        Pause(Gap(beats, n));
        pre := events[|old(events)|..];
        TicksSplit(old(events), events);
        assert tickee == 0 ==> 0 !in table;
        Disable(i, tickee);
        ghost var dropped := events;
        assert OnlyTicksSince(dropped);
        Pause(Gap(beats, n + 1));
        post := events[|dropped|..];
        TicksSplit(dropped, events);
      } else {
        pre, post := events[|old(events)|..], [];
        TicksSplit(old(events), events);
        Absent(async[..], numAsyncTickees, table, tickee);
        EventsNext(events, Drop(tickee), 0);
        events := events + [Drop(tickee)];
      }
    }

    /** Any store to a slot that checks do not look at. */
    method Store(i: nat, slot: Tickee)
      requires Valid() && i < NUM_TICKEES
      requires i < numAsyncTickees ==> async[i].tickee == 0 && slot.tickee == 0 && !slot.inProgress
      modifies async
      ensures Valid() && async[..] == old(async[..])[i := slot]
    {
      ghost var slots := async[..];
      async[i] := slot;
      assert async[..] == slots[i := slot];
      UnseenHolds(slots, numAsyncTickees, i, slot, table);
    }

    /** The stores of period, deadline and inProgress to a disabled slot. */
    method FillSlot(i: nat, period: nat, now: nat, beats: seq<seq<nat>>, n: nat)
      requires Valid() && i <= numAsyncTickees && i < NUM_TICKEES && async[i].tickee == 0
      modifies async, this`table, this`events
      ensures Valid() && table.Keys == old(table).Keys
      ensures forall past :: old(OnlyTicksSince(past)) ==> OnlyTicksSince(past)
      ensures async[i] == Tickee(0, false, Timer(period + now, period))
    {
      Pause(Gap(beats, n));
      Store(i, async[i].(timer := async[i].timer.(period := period)));
      Pause(Gap(beats, n + 1));
      Store(i, async[i].(timer := async[i].timer.(deadline := async[i].timer.period + now)));
      Pause(Gap(beats, n + 2));
      Store(i, async[i].(inProgress := false));
      Pause(Gap(beats, n + 3));
    }

    /** The stores that make a filled slot live: the function pointer, and for a new slot the count,
        which is when checks first see it. */
    method Enable(i: nat, f: nat, beats: seq<seq<nat>>, n: nat) returns (ghost seen: seq<Event>)
      requires Valid() && i <= numAsyncTickees && i < NUM_TICKEES && f !in table
      requires async[i].tickee == 0 && !async[i].inProgress
      modifies this, async
      ensures Valid() && events == seen + [Put(f, old(async[i].timer))]
      ensures TicksAfter(old(events), seen)
      ensures old(numAsyncTickees) <= numAsyncTickees
    {
      ghost var t := async[i].timer;
      if i < numAsyncTickees {
        ghost var slots := async[..];
        EnabledHolds(slots, numAsyncTickees, i, f, table);
        async[i] := async[i].(tickee := f);
        assert async[..] == slots[i := slots[i].(tickee := f)];
      } else {
        EnableNew(i, f, beats, n);
      }
      seen := events;
      EventsNext(events, Put(f, t), 0);
      events, table := events + [Put(f, t)], Enter(table, f, t);
    }

    /** In a new slot the function is stored first and then counted. */
    method EnableNew(i: nat, f: nat, beats: seq<seq<nat>>, n: nat)
      requires Valid() && i == numAsyncTickees < NUM_TICKEES && f !in table
      requires async[i].tickee == 0 && !async[i].inProgress
      modifies this, async
      ensures numAsyncTickees == old(numAsyncTickees) + 1 <= NUM_TICKEES
      ensures Holds(async[..], numAsyncTickees, Enter(table, f, old(async[i].timer)))
      ensures table == TableOf(events) && TicksAfter(old(events), events)
    {
      Store(i, async[i].(tickee := f));
      assert OnlyTicksSince(events);
      Pause(Gap(beats, n));
      CountedHolds(async[..], numAsyncTickees, table);
      numAsyncTickees := numAsyncTickees + 1;
    }

    /** The slot a registration uses: the function's own if it has one, else a free one. */
    method ChooseSlot(tickee: nat, beats: seq<seq<nat>>) returns (i: nat, n: nat)
      requires Valid()
      modifies async, this`table, this`events
      ensures Valid() && OnlyTicksSince(old(events)) && i <= numAsyncTickees
      ensures i < numAsyncTickees && async[i].tickee != 0 ==> async[i].tickee == tickee
      ensures i == numAsyncTickees || async[i].tickee == 0 ==> tickee !in table
      ensures i == NUM_TICKEES ==> Passed(NUM_TICKEES, 0)
    {
      i, n := Find(tickee, beats);
      if i >= numAsyncTickees {
        Absent(async[..], numAsyncTickees, table, tickee);
        ghost var sought := events;
        i, n := FindFree(beats, n);
        TicksCompose(old(events), sought, events);
      } else if tickee == 0 {
        assert 0 !in table;
      }
    }

    /** Fills a disabled slot and makes it live, at one moment between the checks mid and post. */
    method Refill(i: nat, f: nat, period: nat, now: nat, beats: seq<seq<nat>>, n: nat)
      returns (ghost mid: seq<Event>, ghost post: seq<Event>)
      requires Valid() && i <= numAsyncTickees && i < NUM_TICKEES && f !in table && async[i].tickee == 0
      modifies this, async
      ensures Valid() && AllTicks(mid) && AllTicks(post)
      ensures old(numAsyncTickees) <= numAsyncTickees
      ensures events == old(events) + mid + [Put(f, Timer(now + period, period))] + post
    {
      assert OnlyTicksSince(events);
      FillSlot(i, period, now, beats, n);
      ghost var filled := events;
      ghost var seen := Enable(i, f, beats, n + 4);
      TicksCompose(old(events), filled, seen);
      mid := seen[|old(events)|..];
      TicksSplit(old(events), seen);
      ghost var put := events;
      assert put == old(events) + mid + [Put(f, Timer(now + period, period))];
      assert OnlyTicksSince(put);
      Pause(Gap(beats, n + 5));
      post := events[|put|..];
      TicksSplit(put, events);
    }

    /** Registers a tickee, or gives up with all slots taken by other functions. The function is
        taken out at one moment and put in, with its new period and a deadline one period after
        `now`, at a later one; before, between and after these only complete checks happen. */
    method AddTickee(tickee: nat, period: nat, now: nat, beats: seq<seq<nat>>)
      returns (ok: bool, ghost pre: seq<Event>, ghost mid: seq<Event>, ghost post: seq<Event>)
      requires Valid()
      modifies this, async
      ensures Valid() && AllTicks(pre) && AllTicks(mid) && AllTicks(post)
      ensures old(numAsyncTickees) <= numAsyncTickees
      ensures ok ==> events == old(events) + pre + [Drop(tickee)] + mid
                               + [Put(tickee, Timer(now + period, period))] + post
      ensures !ok ==>
                && events == old(events) + pre && tickee !in table
                && numAsyncTickees == NUM_TICKEES && Passed(NUM_TICKEES, 0)
    {
      var i, n := ChooseSlot(tickee, beats);
      if i >= NUM_TICKEES {
        ok, pre, mid, post := false, events[|old(events)|..], [], [];
        TicksSplit(old(events), events);
        return;
      }
      Pause(Gap(beats, n));
      pre := events[|old(events)|..];
      TicksSplit(old(events), events);
      Disable(i, tickee);
      mid, post := Refill(i, tickee, period, now, beats, n + 1);
      ok := true;
    }

    /** With a period adds or updates the tickee, with a zero period removes it; true unless all
        slots are taken. In gap n between two statements the checks of beats[n] take place. */
    method AddHighPriorityTickee(tickee: nat, periodms: nat, now: nat, beats: seq<seq<nat>>)
      returns (ok: bool, ghost pre: seq<Event>, ghost mid: seq<Event>, ghost post: seq<Event>)
      requires Valid()
      modifies this, async
      ensures Valid() && AllTicks(pre) && AllTicks(mid) && AllTicks(post)
      ensures old(numAsyncTickees) <= numAsyncTickees
      ensures periodms == 0 ==> ok && events == old(events) + pre + [Drop(tickee)] + post
      ensures periodms != 0 && ok ==>
                var period := Usecs(periodms);
                events == old(events) + pre + [Drop(tickee)] + mid + [Put(tickee, Timer(now + period, period))] + post
      ensures periodms != 0 && !ok ==>
                && events == old(events) + pre && tickee !in table
                && numAsyncTickees == NUM_TICKEES && Passed(NUM_TICKEES, 0)
    {
      if periodms == 0 {
        pre, post := RemoveTickee(tickee, beats);
        ok, mid := true, [];
      } else {
        ok, pre, mid, post := AddTickee(tickee, Usecs(periodms), now, beats);
      }
    }
  }

  /** The events are the past ones followed by nothing but checks. */
  ghost predicate TicksAfter(past: seq<Event>, events: seq<Event>) {
    && |past| <= |events| && events[..|past|] == past
    && forall k :: |past| <= k < |events| ==> events[k].Tick?
  }

  lemma TicksCompose(a: seq<Event>, b: seq<Event>, c: seq<Event>)
    requires TicksAfter(a, b) && TicksAfter(b, c)
    ensures TicksAfter(a, c)
  {
    assert c[..|a|] == c[..|b|][..|a|];
    forall k | |a| <= k < |c| ensures c[k].Tick? {
      if k < |b| { assert c[k] == c[..|b|][k]; }
    }
  }

  lemma TicksSplit(past: seq<Event>, events: seq<Event>)
    requires TicksAfter(past, events)
    ensures events == past + events[|past|..] && AllTicks(events[|past|..])
  {
  }

  ghost predicate AllTicks(events: seq<Event>) {
    forall k :: 0 <= k < |events| ==> events[k].Tick?
  }

  function Gap(beats: seq<seq<nat>>, n: nat): seq<nat> { if n < |beats| then beats[n] else [] }
}
