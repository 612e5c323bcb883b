/**
 What an undisturbed request and an undisturbed round of the responder amount to: closed forms
 for the two functions of sqExternalSemaphores.c, each shown to be a run of the protocol.
 */
module SignalRounds {
  import opened SignalProtocol
  import opened Division
  import opened SignalAccounting
  import opened SignalDelivery

  /** The requests of a slot not answered yet, as far as its wrapping counters can tell. */
  function Backlog(slot: Slot, m: Modulus): int {
    if slot.requests >= slot.responses then slot.requests - slot.responses
    else slot.requests - slot.responses + m
  }

  predicate Residues(slot: Slot, m: Modulus) { slot.requests < m && slot.responses < m }

  ghost predicate AllResidues(slots: seq<Slot>, m: Modulus) {
    forall j :: 0 <= j < |slots| ==> Residues(slots[j], m)
  }

  /** The slot once every one of its pending requests has been signalled. */
  function Drained(slot: Slot, m: Modulus): Slot
    requires Residues(slot, m)
  {
    var b := Backlog(slot, m);
    slot.(responses := slot.requests, answered := slot.answered + b, delivered := slot.delivered + b)
  }

  /** The table after scanning lo..hi: the slots of that range drained, the others untouched. */
  function DrainRange(slots: seq<Slot>, lo: int, hi: int, m: Modulus): (r: seq<Slot>)
    requires AllResidues(slots, m)
  {
    seq(|slots|, j requires 0 <= j < |slots| =>
      if lo <= j <= hi then Drained(slots[j], m) else slots[j])
  }

  function Repeat(x: int, n: nat): (r: seq<int>)
    ensures |r| == n && forall k :: 0 <= k < n ==> r[k] == x
  {
    seq(n, _ => x)
  }

  /** The semaphore indices signalled by scanning i..hi, in order: slot i signals semaphore i + 1. */
  function Signals(slots: seq<Slot>, i: int, hi: int, m: Modulus): seq<int>
    requires 0 <= i && hi < |slots| && AllResidues(slots, m)
    decreases hi - i + 1
  {
    if i > hi then [] else Repeat(i + 1, Backlog(slots[i], m)) + Signals(slots, i + 1, hi, m)
  }

  lemma BacklogIsDistance(slot: Slot, m: Modulus)
    requires Residues(slot, m)
    ensures Backlog(slot, m) == (slot.requests - slot.responses) % m
    ensures 0 <= Backlog(slot, m) < m
    ensures Backlog(slot, m) == 0 <==> slot.Settled()
  {
    var d := slot.requests - slot.responses;
    DivisionUnique(d, m, if d >= 0 then 0 else -1, Backlog(slot, m));
  }

  /** One answer reduces the backlog by one and does not change what draining leads to. */
  lemma AnswerOne(slot: Slot, m: Modulus)
    requires Residues(slot, m) && !slot.Settled()
    ensures var next := slot.Deliver().Respond(m);
            && Residues(next, m)
            && Backlog(next, m) == Backlog(slot, m) - 1
            && Drained(next, m) == Drained(slot, m)
  {
    var k := slot.responses + 1;
    if k == m { DivisionUnique(k, m, 1, 0); } else { DivisionUnique(k, m, 0, k); }
  }

  ghost predicate AscendingWithin(log: seq<int>, lo: int, hi: int) {
    && (forall k, l :: 0 <= k < l < |log| ==> log[k] <= log[l])
    && (forall k :: 0 <= k < |log| ==> lo <= log[k] <= hi)
  }

  lemma {:induction false} SignalsAscend(slots: seq<Slot>, lo: int, hi: int, m: Modulus)
    requires 0 <= lo && hi < |slots| && AllResidues(slots, m)
    ensures AscendingWithin(Signals(slots, lo, hi, m), lo + 1, hi + 1)
    decreases hi - lo + 1
  {
    if lo <= hi {
      SignalsAscend(slots, lo + 1, hi, m);
      JoinAscends(Repeat(lo + 1, Backlog(slots[lo], m)), Signals(slots, lo + 1, hi, m), lo + 1, hi + 1);
    }
  }

  lemma JoinAscends(head: seq<int>, tail: seq<int>, x: int, last: int)
    requires x <= last && (forall k :: 0 <= k < |head| ==> head[k] == x) && AscendingWithin(tail, x + 1, last)
    ensures AscendingWithin(head + tail, x, last)
  {
  }

  lemma {:induction false} SignalsCount(slots: seq<Slot>, lo: int, hi: int, m: Modulus, i: int)
    requires 0 <= lo && hi < |slots| && AllResidues(slots, m)
    ensures multiset(Signals(slots, lo, hi, m))[i + 1] == if lo <= i <= hi then Backlog(slots[i], m) else 0
    decreases hi - lo + 1
  {
    if lo <= hi {
      SignalsCount(slots, lo + 1, hi, m, i);
      RepeatCount(lo + 1, Backlog(slots[lo], m), i + 1);
      CountJoin(Repeat(lo + 1, Backlog(slots[lo], m)), Signals(slots, lo + 1, hi, m), i + 1);
    }
  }

  lemma CountJoin(head: seq<int>, tail: seq<int>, y: int)
    ensures multiset(head + tail)[y] == multiset(head)[y] + multiset(tail)[y]
  {
  }

  /** Each semaphore is signalled once per pending request, in ascending order, and only those of
      the scanned range are. */
  lemma SignalsExact(slots: seq<Slot>, lo: int, hi: int, m: Modulus)
    requires 0 <= lo && hi < |slots| && AllResidues(slots, m)
    ensures var log := Signals(slots, lo, hi, m);
            && AscendingWithin(log, lo + 1, hi + 1)
            && forall i: int :: multiset(log)[i + 1] == if lo <= i <= hi then Backlog(slots[i], m) else 0
  {
    SignalsAscend(slots, lo, hi, m);
    forall i: int ensures multiset(Signals(slots, lo, hi, m))[i + 1] ==
                     if lo <= i <= hi then Backlog(slots[i], m) else 0 {
      SignalsCount(slots, lo, hi, m, i);
    }
  }

  /** In terms of the table: a drain of lo..hi signals each semaphore as often as its slot's history
      says, namely (requests - responses) modulo the period within the range and never outside. */
  lemma DrainSends(slots: seq<Slot>, lo: int, hi: int, m: Modulus, j: nat)
    requires 0 <= lo && hi < |slots| && AllResidues(slots, m) && j < |slots|
    ensures var log, was, now := Signals(slots, lo, hi, m), slots[j], DrainRange(slots, lo, hi, m)[j];
            && multiset(log)[j + 1] == now.delivered - was.delivered
            && now.delivered - was.delivered == (if lo <= j <= hi then (was.requests - was.responses) % m else 0)
            && now.made == was.made && now.requests == was.requests
            && now.responses == (if lo <= j <= hi then was.requests else was.responses)
  {
    SignalsCount(slots, lo, hi, m, j);
    BacklogIsDistance(slots[j], m);
  }

  lemma {:induction false} RepeatCount(x: int, n: nat, y: int)
    ensures multiset(Repeat(x, n))[y] == if x == y then n else 0
  {
    if n > 0 {
      RepeatCount(x, n - 1, y);
      assert Repeat(x, n) == Repeat(x, n - 1) + [x];
    }
  }

  // ---------------------------------------------------------------- one round of the responder

  /** The highest index a round will look at. */
  function Clamp(high: int, limit: int): int { if high >= limit then limit - 1 else high }

  /** The responder's state after lines 211 to 241 with the flag found raised. */
  function Flipped(s: State): State {
    s.(check := false, useA := !s.useA,
       tideA := if s.useA then s.tideA else EMPTY_TIDE,
       tideB := if s.useA then EMPTY_TIDE else s.tideB,
       responder := Scanning(s.InUse().low, Clamp(s.InUse().high, s.limit)))
  }

  /** doSignalExternalSemaphores, undisturbed: nothing happens unless the flag is raised; then the
      tides in use are consumed and exactly their range, cut at the limit, is drained. */
  function Round(s: State): State
    requires InBounds(s) && AllResidues(s.slots, s.modulus)
  {
    if !s.check then s
    else Flipped(s).(
      slots := DrainRange(s.slots, s.InUse().low, Clamp(s.InUse().high, s.limit), s.modulus),
      responder := Away)
  }

  /** The semaphores a round signals, in order. */
  function RoundLog(s: State): seq<int>
    requires InBounds(s) && AllResidues(s.slots, s.modulus)
  {
    if s.check then Signals(s.slots, s.InUse().low, Clamp(s.InUse().high, s.limit), s.modulus) else []
  }

  /** Each semaphore is signalled exactly as often as (requests - responses) modulo the period if the
      flag was raised and its slot covered and below the limit, otherwise not. */
  lemma RoundSends(s: State, j: nat)
    requires InBounds(s) && AllResidues(s.slots, s.modulus) && j < |s.slots|
    ensures |Round(s).slots| == |s.slots|
    ensures var was, now := s.slots[j], Round(s).slots[j];
            && multiset(RoundLog(s))[j + 1] == now.delivered - was.delivered
            && now.delivered - was.delivered ==
               (if s.check && j < s.limit && s.InUse().low <= j <= s.InUse().high
                then (was.requests - was.responses) % s.modulus else 0)
            && now.made == was.made && now.requests == was.requests
  {
    if s.check { DrainSends(s.slots, s.InUse().low, Clamp(s.InUse().high, s.limit), s.modulus, j); }
  }

  lemma RoundAscends(s: State)
    requires InBounds(s) && AllResidues(s.slots, s.modulus)
    ensures forall k, l :: 0 <= k < l < |RoundLog(s)| ==> RoundLog(s)[k] <= RoundLog(s)[l]
  {
    if s.check { SignalsAscend(s.slots, s.InUse().low, Clamp(s.InUse().high, s.limit), s.modulus); }
  }

  function Moves(n: nat): seq<Action> { seq(n, _ => Respond) }

  /** One more step at the end of a run. */
  lemma Extend(s: State, sched: seq<Action>, act: Action)
    requires InBounds(s)
    ensures Run(s, sched + [act]) == Step(Run(s, sched), act)
  {
    assert (sched + [act])[..|sched + [act]| - 1] == sched;
  }

  /** s1 is where some number of statements of the responder alone lead from s. */
  ghost predicate Reaches(s: State, s1: State)
    requires InBounds(s)
  {
    exists n: nat :: Run(s, Moves(n)) == s1
  }

  lemma OneMove(s: State)
    requires InBounds(s)
    ensures Reaches(s, StepResponder(s))
  {
    NextMove(s, 0);
    assert Run(s, Moves(0)) == s;
  }

  lemma NextMove(s: State, n: nat)
    requires InBounds(s)
    ensures Reaches(s, StepResponder(Run(s, Moves(n))))
  {
    Extend(s, Moves(n), Respond);
    assert Moves(n) + [Respond] == Moves(n + 1);
  }

  lemma ReachesOn(s: State, s1: State, s2: State)
    requires InBounds(s) && InBounds(s1) && Reaches(s, s1) && Reaches(s1, s2)
    ensures Reaches(s, s2)
  {
    var n: nat :| Run(s, Moves(n)) == s1;
    var k: nat :| Run(s1, Moves(k)) == s2;
    RunAppend(s, Moves(n), Moves(k));
    assert Moves(n) + Moves(k) == Moves(n + k);
  }

  /** Taking the flag and emptying the tides not in use. */
  function Emptied(s: State): State {
    s.(check := false,
       tideA := if s.useA then s.tideA else EMPTY_TIDE,
       tideB := if s.useA then EMPTY_TIDE else s.tideB,
       responder := Toggling(s.useA))
  }

  lemma TwoMoves(s: State)
    requires InBounds(s)
    ensures Reaches(s, StepResponder(StepResponder(s)))
  {
    OneMove(s);
    OneMove(StepResponder(s));
    ReachesOn(s, StepResponder(s), StepResponder(StepResponder(s)));
  }

  lemma TakeFlagIsARun(s: State)
    requires InBounds(s) && s.check && s.responder.TestingFlag?
    ensures Reaches(s, s.(check := false, responder := ResettingLow(s.useA)))
  {
    var s2 := s.(check := false, responder := TestingUse);
    TwoMoves(s);
    assert StepFlip(StepFlip(s)) == s2;
    OneMove(s2);
    ReachesOn(s, s2, StepFlip(s2));
  }

  lemma ResetIsARun(s: State)
    requires InBounds(s) && s.responder.ResettingLow? && s.responder.a == s.useA
    ensures Reaches(s, s.(
      tideA := if s.useA then s.tideA else EMPTY_TIDE,
      tideB := if s.useA then EMPTY_TIDE else s.tideB,
      responder := Toggling(s.useA)))
  {
    TwoMoves(s);
  }

  lemma EmptyIsARun(s: State)
    requires InBounds(s) && s.check && s.responder.TestingFlag?
    ensures Reaches(s, Emptied(s))
  {
    var s3 := s.(check := false, responder := ResettingLow(s.useA));
    TakeFlagIsARun(s);
    ResetIsARun(s3);
    ReachesOn(s, s3, Emptied(s));
  }

  lemma SnapIsARun(s: State)
    requires InBounds(s) && s.responder.SnappingLow?
    ensures var tide := s.TideOf(s.responder.a);
            Reaches(s, s.(responder := Scanning(tide.low, Clamp(tide.high, s.limit))))
  {
    TwoMoves(s);
  }

  lemma FlipIsARun(s: State)
    requires InBounds(s) && s.check && s.responder.TestingFlag?
    ensures Reaches(s, Flipped(s))
  {
    var s1 := Emptied(s);
    var s2 := s1.(useA := !s.useA, responder := SnappingLow(s.useA));
    EmptyIsARun(s);
    OneMove(s1);
    ReachesOn(s, s1, s2);
    SnapIsARun(s2);
    ReachesOn(s, s2, Flipped(s));
  }

  /** Answering one request of slot i. */
  lemma AnswerIsARun(s: State)
    requires InBounds(s) && s.responder.Scanning? && s.responder.i <= s.responder.high
    requires !s.slots[s.responder.i].Settled()
    ensures var i := s.responder.i;
            Reaches(s, s.(slots := s.slots[i := s.slots[i].Deliver().Respond(s.modulus)]))
  {
    var i, high := s.responder.i, s.responder.high;
    var s1 := s.(responder := Signalling(i, high));
    OneMove(s);
    SignalIsARun(s1);
    ReachesOn(s, s1, s.(slots := s.slots[i := s.slots[i].Deliver().Respond(s.modulus)]));
  }

  lemma SignalIsARun(s: State)
    requires InBounds(s) && s.responder.Signalling?
    ensures var i, high := s.responder.i, s.responder.high;
            Reaches(s, s.(
              slots := s.slots[i := s.slots[i].Deliver().Respond(s.modulus)],
              responder := Scanning(i, high)))
  {
    TwoMoves(s);
  }

  lemma SkipSettled(slots: seq<Slot>, i: nat, hi: int, m: Modulus)
    requires i < |slots| && AllResidues(slots, m) && slots[i].Settled()
    ensures DrainRange(slots, i, hi, m) == DrainRange(slots, i + 1, hi, m)
  {
    BacklogIsDistance(slots[i], m);
    assert Drained(slots[i], m) == slots[i];
  }

  lemma DrainAfterAnswer(slots: seq<Slot>, i: nat, hi: int, m: Modulus)
    requires i < |slots| && AllResidues(slots, m) && !slots[i].Settled()
    ensures var next := slots[i := slots[i].Deliver().Respond(m)];
            && AllResidues(next, m)
            && 0 <= Backlog(next[i], m) < Backlog(slots[i], m)
            && (i <= hi ==> DrainRange(next, i, hi, m) == DrainRange(slots, i, hi, m))
  {
    AnswerOne(slots[i], m);
    BacklogIsDistance(slots[i], m);
    BacklogIsDistance(slots[i].Deliver().Respond(m), m);
  }

  lemma ScanPast(s: State)
    requires InBounds(s) && s.responder.Scanning?
    requires s.responder.i <= s.responder.high ==> s.slots[s.responder.i].Settled()
    ensures var i, high := s.responder.i, s.responder.high;
            Reaches(s, s.(responder := if i > high then Rechecking else Scanning(i + 1, high)))
  {
    OneMove(s);
  }

  /** What a scan from where the responder stands leaves. */
  function Scanned(s: State): State
    requires s.responder.Scanning? && AllResidues(s.slots, s.modulus)
  {
    s.(slots := DrainRange(s.slots, s.responder.i, s.responder.high, s.modulus), responder := Rechecking)
  }

  /** Exact drain: an undisturbed scan from i to high answers each slot in between completely, and
      ends. */
  lemma {:induction false} DrainIsARun(s: State)
    requires InBounds(s) && s.responder.Scanning? && AllResidues(s.slots, s.modulus)
    ensures Reaches(s, Scanned(s))
    decreases s.responder.high - s.responder.i + 1,
              if s.responder.i <= s.responder.high then Backlog(s.slots[s.responder.i], s.modulus) else 0
  {
    var i, high, m := s.responder.i, s.responder.high, s.modulus;
    if i > high {
      assert DrainRange(s.slots, i, high, m) == s.slots;
      ScanPast(s);
    } else if s.slots[i].Settled() {
      var s1 := s.(responder := Scanning(i + 1, high));
      ScanPast(s);
      SkipSettled(s.slots, i, high, m);
      DrainIsARun(s1);
      ReachesOn(s, s1, Scanned(s));
    } else {
      var s1 := s.(slots := s.slots[i := s.slots[i].Deliver().Respond(m)]);
      AnswerIsARun(s);
      DrainAfterAnswer(s.slots, i, high, m);
      DrainIsARun(s1);
      ReachesOn(s, s1, Scanned(s));
    }
  }

  /** From the test of a raised flag to the responder's leaving. */
  lemma FlaggedRoundIsARun(s: State)
    requires InBounds(s) && s.check && s.responder.TestingFlag? && AllResidues(s.slots, s.modulus)
    ensures Reaches(s, Round(s))
  {
    var s1 := Flipped(s);
    FlipIsARun(s);
    DrainIsARun(s1);
    ReachesOn(s, s1, Scanned(s1));
    OneMove(Scanned(s1));
    ReachesOn(s, Scanned(s1), Round(s));
  }

  /** The closed form is what the responder's statements do when nobody interferes: an interrupt
      check followed by n responder statements leads from s to Round(s), and no further. */
  lemma RoundIsARun(s: State) returns (n: nat)
    requires InBounds(s) && s.responder.Away? && AllResidues(s.slots, s.modulus)
    ensures Run(s, [Check] + Moves(n)) == Round(s).(forced := false)
  {
    var s1 := s.(forced := false, responder := TestingFlag);
    var s2 := Round(s).(forced := false);
    if s.check { FlaggedRoundIsARun(s1); } else { OneMove(s1); }
    assert Reaches(s1, s2);
    n :| Run(s1, Moves(n)) == s2;
    Extend(s, [], Check);
    assert [] + [Check] == [Check];
    RunAppend(s, [Check], Moves(n));
  }

  lemma AccountedResidues(s: State)
    requires Accounted(s)
    ensures AllResidues(s.slots, s.modulus)
  {
  }

  /** What a round adds to the signals delivered for an index is what the counters owe it: all it is
      owed if and only if that is less than a period. */
  lemma DrainedDeliversAll(slot: Slot, m: Modulus)
    requires slot.requests == slot.made % m && slot.responses == slot.answered % m
    requires slot.answered == slot.delivered <= slot.made
    ensures Residues(slot, m)
    ensures Drained(slot, m).delivered == slot.made <==> slot.made - slot.answered < m
  {
    var d := slot.made - slot.answered;
    var q := slot.made / m - slot.answered / m;
    assert d == q * m + (slot.requests - slot.responses);
    BacklogIsDistance(slot, m);
    var b := Backlog(slot, m);
    if slot.requests >= slot.responses {
      DivisionUnique(d, m, q, b);
    } else {
      assert (q - 1) * m == q * m - m;
      DivisionUnique(d, m, q - 1, b);
    }
    if d < m { DivisionUnique(d, m, 0, d); }
  }

  lemma RoundDelivers(s: State, i: nat)
    requires InBounds(s) && s.responder.Away? && Accounted(s) && AllRest(s) && Delivering(s, i)
    ensures AllResidues(s.slots, s.modulus) && Round(s).slots[i].Settled()
    ensures var slot := Round(s).slots[i];
            slot.made == s.slots[i].made
            && (slot.delivered == slot.made <==> s.slots[i].made - s.slots[i].answered < s.modulus)
  {
    AccountedResidues(s);
    var slot := s.slots[i];
    assert SlotAccounted(slot, i, s.modulus, s.responder);
    DrainedDeliversAll(slot, s.modulus);
    RoundIsDrained(s, i);
  }

  /** An index on its way is drained by the round, or needs no draining. */
  lemma RoundIsDrained(s: State, i: nat)
    requires InBounds(s) && s.responder.Away? && AllResidues(s.slots, s.modulus) && AllRest(s)
    requires Delivering(s, i)
    ensures Round(s).slots[i] == Drained(s.slots[i], s.modulus)
  {
    BacklogIsDistance(s.slots[i], s.modulus);
    if s.slots[i].Settled() { assert Drained(s.slots[i], s.modulus) == s.slots[i]; }
  }

  /** Every request made is a signal delivered. After any schedule that is clean for i and leaves
      nobody active, one undisturbed round answers i; and then as many signals have been delivered
      for i as requests were made, if and only if less than a counter period of them was open. */
  lemma RoundAnswers(size: nat, limit: int, m: Modulus, requesters: nat, sched: seq<Action>, i: nat) returns (n: nat)
    requires size <= MAX_TIDE && i < size && i < limit
    requires CleanFor(Start(size, limit, m, requesters), sched, i)
    requires var s := Run(Start(size, limit, m, requesters), sched); s.responder.Away? && AllRest(s)
    ensures var before := Run(Start(size, limit, m, requesters), sched).slots[i];
            var s := Run(Start(size, limit, m, requesters), sched + ([Check] + Moves(n)));
            && s.responder.Away? && s.slots[i].Settled() && s.slots[i].made == before.made
            && (s.slots[i].delivered == s.slots[i].made <==> before.made - before.answered < m)
  {
    var s0 := Start(size, limit, m, requesters);
    DeliveringRun(s0, sched, i);
    AccountedRun(s0, sched);
    ModulusStays(s0, sched);
    var s := Run(s0, sched);
    RoundDelivers(s, i);
    n := RoundIsARun(s);
    RunAppend(s0, sched, [Check] + Moves(n));
  }

  lemma {:induction false} ModulusStays(s: State, sched: seq<Action>)
    requires InBounds(s)
    ensures Run(s, sched).modulus == s.modulus
  {
    if sched != [] {
      ModulusStays(s, sched[..|sched| - 1]);
      StepKeepsModulus(Run(s, sched[..|sched| - 1]), sched[|sched| - 1]);
    }
  }

  lemma StepKeepsModulus(s: State, act: Action)
    requires InBounds(s)
    ensures Step(s, act).modulus == s.modulus
  {
  }

  // ------------------------------------------------------------------------- one whole request

  /** signalSemaphoreWithIndex(i + 1), undisturbed: one more request, the tides in use widened to
      take in i, the flag raised and an interrupt check forced. */
  function Requested(s: State, i: nat): State
    requires i < |s.slots|
  {
    var tide := s.InUse().Widen(i);
    s.(slots := s.slots[i := s.slots[i].Request(s.modulus)],
       tideA := if s.useA then tide else s.tideA,
       tideB := if s.useA then s.tideB else tide,
       check := true, forced := true)
  }

  lemma OneAct(s: State, act: Action)
    requires InBounds(s)
    ensures Run(s, [act]) == Step(s, act)
  {
    Extend(s, [], act);
    assert [] + [act] == [act];
  }

  lemma ThreeActs(s: State, a1: Action, a2: Action, a3: Action)
    requires InBounds(s)
    ensures Run(s, [a1, a2, a3]) == Step(Step(Step(s, a1), a2), a3)
  {
    OneAct(s, a1);
    Extend(s, [a1], a2);
    assert [a1] + [a2] == [a1, a2];
    Extend(s, [a1, a2], a3);
    assert [a1, a2] + [a3] == [a1, a2, a3];
  }

  /** The statements of requester t alone. */
  predicate OnlyOf(t: nat, sched: seq<Action>) {
    forall k :: 0 <= k < |sched| ==> sched[k] == Request(t) || (sched[k].Begin? && sched[k].t == t)
  }

  /** Requester t done, the tides of side a widened by it. */
  function Marked(s: State, t: nat, a: bool, tide: Tide): State
    requires t < |s.requesters|
  {
    s.(tideA := if a then tide else s.tideA, tideB := if a then s.tideB else tide,
       check := true, forced := true, requesters := s.requesters[t := Resting])
  }

  /** Where requester t, which has read useTideA, is going to get when nobody interferes. */
  function Finished(s: State, t: nat): State
    requires t < |s.requesters| && s.requesters[t].InWindow()
  {
    var r, tide := s.requesters[t], s.TideOf(s.requesters[t].a);
    Marked(s, t, r.a, if r.ReadingLow? || r.SwappingLow? then tide.Widen(r.i)
                      else tide.(high := if tide.high < r.i then r.i else tide.high))
  }

  /** How many statements away that is, at most. */
  function ToFinish(s: State, t: nat): nat
    requires t < |s.requesters|
  {
    match s.requesters[t]
    case ReadingLow(i, a) => if s.TideOf(a).low > i then 9 else 7
    case SwappingLow(_, a, seen) => if s.TideOf(a).low == seen then 8 else 10
    case ReadingHigh(i, a) => if s.TideOf(a).high < i then 5 else 3
    case SwappingHigh(_, a, seen) => if s.TideOf(a).high == seen then 4 else 6
    case _ => 0
  }

  /** Every statement of the two loops comes nearer to the same end. */
  lemma NearerFinishLow(s: State, t: nat)
    requires InBounds(s) && t < |s.requesters|
    requires s.requesters[t].ReadingLow? || s.requesters[t].SwappingLow?
    ensures var s' := Step(s, Request(t));
            s'.requesters[t].InWindow() && ToFinish(s', t) < ToFinish(s, t) && Finished(s', t) == Finished(s, t)
  {
    var s' := StepMark(s, t);
    assert s'.requesters[t := Resting] == s.requesters[t := Resting];
  }

  lemma NearerFinishHigh(s: State, t: nat)
    requires InBounds(s) && t < |s.requesters|
    requires s.requesters[t].SwappingHigh? ||
             (s.requesters[t].ReadingHigh? && s.TideOf(s.requesters[t].a).high < s.requesters[t].i)
    ensures var s' := Step(s, Request(t));
            s'.requesters[t].InWindow() && ToFinish(s', t) < ToFinish(s, t) && Finished(s', t) == Finished(s, t)
  {
    var s' := StepMark(s, t);
    assert s'.requesters[t := Resting] == s.requesters[t := Resting];
  }

  /** The last three statements. */
  lemma LastIsARun(s: State, t: nat)
    requires InBounds(s) && t < |s.requesters| && s.requesters[t].ReadingHigh?
    requires s.TideOf(s.requesters[t].a).high >= s.requesters[t].i
    ensures Run(s, [Request(t), Request(t), Request(t)]) == Finished(s, t)
  {
    var i := s.requesters[t].i;
    ThreeActs(s, Request(t), Request(t), Request(t));
    var s1 := s.(requesters := s.requesters[t := RaisingFlag(i)]);
    assert Step(s, Request(t)) == s1;
    var s2 := s1.(check := true, requesters := s1.requesters[t := Forcing(i)]);
    assert Step(s1, Request(t)) == s2;
    assert s2.requesters[t := Resting] == s.requesters[t := Resting];
  }

  /** From any state in which requester t is in its window, its statements alone finish the request. */
  lemma {:induction false} MarkIsARun(s: State, t: nat) returns (sched: seq<Action>)
    requires InBounds(s) && t < |s.requesters| && s.requesters[t].InWindow()
    ensures Run(s, sched) == Finished(s, t)
    ensures OnlyOf(t, sched) && forall k :: 0 <= k < |sched| ==> sched[k].Request?
    decreases ToFinish(s, t)
  {
    var r := s.requesters[t];
    if r.ReadingHigh? && s.TideOf(r.a).high >= r.i {
      sched := [Request(t), Request(t), Request(t)];
      LastIsARun(s, t);
    } else {
      if r.ReadingLow? || r.SwappingLow? { NearerFinishLow(s, t); } else { NearerFinishHigh(s, t); }
      var rest := MarkIsARun(Step(s, Request(t)), t);
      OneAct(s, Request(t));
      RunAppend(s, [Request(t)], rest);
      sched := [Request(t)] + rest;
    }
  }

  /** A call of signalSemaphoreWithIndex(index) by requester t, and then its statements alone. */
  predicate OneCall(t: nat, index: int, sched: seq<Action>) {
    |sched| > 0 && sched[0] == Begin(t, index) && forall k :: 1 <= k < |sched| ==> sched[k] == Request(t)
  }

  /** signalSemaphoreWithIndex(index) is about slot index - 1 if the table has it, and about none
      otherwise. */
  lemma CallIsAboutItsIndex(s: State, t: nat, index: int)
    requires InBounds(s) && t < |s.requesters| && s.requesters[t].Resting?
    ensures Step(s, Begin(t, index)) ==
            if 1 <= index <= |s.slots| then s.(requesters := s.requesters[t := Adding(index - 1)]) else s
  {
  }

  /** Counting a request for slot i: its request counter goes up by one modulo the period, whichever
      side is in use, and nothing else of the table changes. */
  lemma CountsItsSlot(s: State, t: nat)
    requires InBounds(s) && t < |s.requesters| && s.requesters[t].Adding?
    ensures var s', i := Step(s, Request(t)), s.requesters[t].i;
            && 0 <= i < |s.slots| == |s'.slots|
            && s'.slots[i].made == s.slots[i].made + 1
            && s'.slots[i].requests == (s.slots[i].requests + 1) % s.modulus
            && s'.slots[i].responses == s.slots[i].responses
            && s'.slots[i].delivered == s.slots[i].delivered
            && (forall j :: 0 <= j < |s.slots| && j != i ==> s'.slots[j] == s.slots[j])
            && s'.requesters[t] == ReadingUse(i)
  {
    AddingStep(s, t);
  }

  lemma CountIsARun(s: State, t: nat, i: nat) returns (sched: seq<Action>)
    requires InBounds(s) && t < |s.requesters| && s.requesters[t].Resting? && i < |s.slots|
    ensures OnlyOf(t, sched) && OneCall(t, i + 1, sched)
    ensures Run(s, sched) == s.(
      slots := s.slots[i := s.slots[i].Request(s.modulus)],
      requesters := s.requesters[t := ReadingLow(i, s.useA)])
  {
    var s1 := s.(requesters := s.requesters[t := Adding(i)]);
    var s2 := s1.(slots := s.slots[i := s.slots[i].Request(s.modulus)],
                  requesters := s1.requesters[t := ReadingUse(i)]);
    sched := [Begin(t, i + 1), Request(t), Request(t)];
    ThreeActs(s, Begin(t, i + 1), Request(t), Request(t));
    assert Step(s, Begin(t, i + 1)) == s1;
    AddingStep(s1, t);
    assert Step(s2, Request(t)).requesters == s.requesters[t := ReadingLow(i, s.useA)];
  }

  lemma AddingStep(s: State, t: nat)
    requires InBounds(s) && t < |s.requesters| && s.requesters[t].Adding?
    ensures var i := s.requesters[t].i;
            Step(s, Request(t)) == s.(slots := s.slots[i := s.slots[i].Request(s.modulus)],
                                      requesters := s.requesters[t := ReadingUse(i)])
  {
  }

  /** The closed form is what a requester's statements do when nobody interferes. */
  lemma RequestIsARun(s: State, t: nat, i: nat) returns (sched: seq<Action>)
    requires InBounds(s) && t < |s.requesters| && s.requesters[t].Resting? && i < |s.slots|
    ensures Run(s, sched) == Requested(s, i)
    ensures OnlyOf(t, sched) && OneCall(t, i + 1, sched)
  {
    var count := CountIsARun(s, t, i);
    var s1 := Run(s, count);
    var mark := MarkIsARun(s1, t);
    RunAppend(s, count, mark);
    assert s1.requesters[t := Resting] == s.requesters;
    sched := count + mark;
  }
}
