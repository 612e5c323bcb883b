/**
 The two ways a signal can go missing: a toggle of useTideA that comes too early for a request, which
 NoLostSignal excludes, and a backlog of a full counter period, which the wrapping counters cannot
 tell from no backlog at all. Each is shown by a schedule, and what such a toggle loses exactly.
 */
module SignalLoss {
  import opened SignalProtocol
  import opened Division
  import opened SignalAccounting
  import opened SignalDelivery
  import opened SignalRounds
  import opened SignalTides

  lemma StartIsSound(size: nat, limit: int, m: Modulus, requesters: nat)
    requires size <= MAX_TIDE
    ensures var s := Start(size, limit, m, requesters);
            InBounds(s) && AllResidues(s.slots, m) && AllRest(s)
  {
  }

  /** Requester 0 has counted a request for i and read useTideA as `side`, and moves no further.
      The side it read is still in use iff `inUse`. */
  ghost predicate Stalled(s: State, i: nat, inUse: bool) {
    && InBounds(s) && AllResidues(s.slots, s.modulus)
    && s.requesters == [ReadingLow(i, true), Resting]
    && s.responder.Away? && s.useA == inUse && s.tideB == EMPTY_TIDE
    && Unanswered(s, i)
  }

  ghost predicate Unanswered(s: State, i: nat) {
    && i < |s.slots| && !s.slots[i].Settled()
    && s.slots[i].made == 1 && s.slots[i].delivered == 0
  }

  function Begun(s: State, i: nat): State
    requires i < |s.slots|
  {
    s.(slots := s.slots[i := s.slots[i].Request(s.modulus)], requesters := [ReadingLow(i, true), Resting])
  }

  lemma BegunIsStalled(s: State, i: nat, k: nat)
    requires s.modulus > 1 && i < |s.slots| <= MAX_TIDE && k < |s.slots| && i != k
    requires s == Start(|s.slots|, s.limit, s.modulus, 2)
    ensures var s' := Requested(Begun(s, i), k);
            Stalled(s', i, true) && s'.check && s'.tideA == Tide(k, k)
  {
    DivisionUnique(1, s.modulus, 0, 1);
    var s' := Requested(Begun(s, i), k);
    assert s'.slots[k] == Slot(1, 0, 1, 0, 0) && s'.slots[i] == Slot(1, 0, 1, 0, 0);
    assert s'.tideA == Tide(k, k);
    assert InBounds(s');
  }

  /** Requester 0 stalls, requester 1 makes a whole request for k. */
  lemma Stall(s: State, i: nat, k: nat) returns (sched: seq<Action>)
    requires s.modulus > 1 && i < |s.slots| <= MAX_TIDE && k < |s.slots| && i != k
    requires s == Start(|s.slots|, s.limit, s.modulus, 2) && InBounds(s)
    ensures var s' := Run(s, sched); Stalled(s', i, true) && s'.check && s'.tideA == Tide(k, k)
    ensures Run(s, sched).limit == s.limit
  {
    var count := CountIsARun(s, 0, i);
    assert Run(s, count) == Begun(s, i) by {
      assert s.requesters[0 := ReadingLow(i, true)] == [ReadingLow(i, true), Resting];
    }
    var other := RequestIsARun(Run(s, count), 1, k);
    RunAppend(s, count, other);
    BegunIsStalled(s, i, k);
    sched := count + other;
  }

  /** A round that does not look at i, the tides in use being [k, k]. */
  lemma RoundPassesBy(s: State, i: nat, k: nat) returns (sched: seq<Action>)
    requires Stalled(s, i, true) && s.check && s.tideA == Tide(k, k) && i != k
    ensures Stalled(Run(s, sched), i, false)
    ensures Run(s, sched).limit == s.limit
  {
    var n := RoundIsARun(s);
    sched := [Check] + Moves(n);
    forall j | 0 <= j < |s.slots| ensures Residues(Round(s).slots[j], s.modulus) {
      BacklogIsDistance(s.slots[j], s.modulus);
    }
  }

  /** Requester 0 finishes on the retired tides; the next round empties them and scans nothing. */
  lemma FinishTooLate(s: State, i: nat) returns (sched: seq<Action>)
    requires Stalled(s, i, false)
    ensures var s' := Run(s, sched);
            s'.responder.Away? && AllRest(s') && !s'.check && !s'.forced && Unanswered(s', i)
  {
    var mark := MarkIsARun(s, 0);
    var s1 := Run(s, mark);
    var n := RoundIsARun(s1);
    RunAppend(s, mark, [Check] + Moves(n));
    sched := mark + ([Check] + Moves(n));
    assert s1.InUse() == EMPTY_TIDE;
    assert Round(s1).slots[i] == s.slots[i];
  }

  /** The restriction on schedules cannot be dropped. For any two different indices there is a
      schedule of two requests and two rounds after which nobody is active, the flag is clear, no
      interrupt check is due, and the request for i is still unanswered: requester 0 stalls after
      reading useTideA, a round answers k and toggles, requester 0 widens the retired tides, and
      the next round empties them. */
  lemma StalledRequestIsLost(size: nat, limit: int, m: Modulus, i: nat, k: nat) returns (sched: seq<Action>)
    requires size <= MAX_TIDE && m > 1
    requires i < size && k < size && i != k && i < limit
    ensures var s := Run(Start(size, limit, m, 2), sched);
            && s.responder.Away? && AllRest(s) && !s.check && !s.forced
            && s.slots[i].made == 1 && s.slots[i].delivered == 0 && !s.slots[i].Settled()
    ensures !CleanFor(Start(size, limit, m, 2), sched, i)
  {
    var s := Start(size, limit, m, 2);
    StartIsSound(size, limit, m, 2);
    var a := Stall(s, i, k);
    var b := RoundPassesBy(Run(s, a), i, k);
    RunAppend(s, a, b);
    var c := FinishTooLate(Run(s, a + b), i);
    RunAppend(s, a + b, c);
    sched := a + b + c;
    if CleanFor(s, sched, i) {
      NoLostSignal(size, limit, m, 2, sched, i);
    }
  }

  // -------------------------------------------------- the restriction, exactly, at one toggle

  /** The responder is about to toggle under requester t, which is in its window for i on the side in
      use; nobody else is active, and i is not answered. The idle side was emptied a moment ago, but
      requesters that have come to rest since may have widened it. */
  ghost predicate TogglingUnder(s: State, t: nat, i: nat) {
    && InBounds(s) && AllResidues(s.slots, s.modulus) && i < |s.slots| && i < s.limit
    && s.responder == Toggling(s.useA)
    && t < |s.requesters| && s.requesters[t].InWindow() && s.requesters[t].i == i && s.requesters[t].a == s.useA
    && (forall u :: 0 <= u < |s.requesters| && u != t ==> s.requesters[u].Resting?)
    && !s.slots[i].Settled()
  }

  predicate NoNewRequests(sched: seq<Action>) { forall k :: 0 <= k < |sched| ==> !sched[k].Begin? }

  /** Nobody is active, the flag is clear and no interrupt check is due. */
  ghost predicate Quiet(s: State) { s.responder.Away? && AllRest(s) && !s.check && !s.forced }

  /** Without new requests the request for i can end up unanswered for good. */
  ghost predicate CanBeLost(s: State, i: nat)
    requires InBounds(s) && i < |s.slots|
  {
    exists sched :: NoNewRequests(sched) && Quiet(Run(s, sched)) && !Run(s, sched).slots[i].Settled()
  }

  /** The rest of a round that takes no notice of i. */
  function PassedBy(s: State): State
    requires AllResidues(s.slots, s.modulus)
  {
    s.(useA := !s.useA, responder := Away, forced := s.forced || s.check,
       slots := DrainRange(s.slots, s.InUse().low, Clamp(s.InUse().high, s.limit), s.modulus))
  }

  /** After the scan the flag is looked at again. */
  lemma RecheckIsARun(s: State)
    requires InBounds(s) && s.responder.Rechecking?
    ensures Reaches(s, s.(responder := Away, forced := s.forced || s.check))
  {
    if s.check {
      TwoMoves(s);
      assert StepResponder(StepResponder(s)) == s.(responder := Away, forced := true);
    } else {
      OneMove(s);
    }
  }

  lemma DrainAndRecheck(s: State)
    requires InBounds(s) && AllResidues(s.slots, s.modulus) && s.responder.Scanning?
    ensures Reaches(s, Scanned(s).(responder := Away, forced := s.forced || s.check))
  {
    DrainIsARun(s);
    RecheckIsARun(Scanned(s));
    ReachesOn(s, Scanned(s), Scanned(s).(responder := Away, forced := s.forced || s.check));
  }

  /** The toggle and the snapshot. */
  function Toggled(s: State): State {
    s.(useA := !s.useA, responder := Scanning(s.InUse().low, Clamp(s.InUse().high, s.limit)))
  }

  lemma ToggleIsARun(s: State)
    requires InBounds(s) && s.responder == Toggling(s.useA)
    ensures Reaches(s, Toggled(s)) && InBounds(Toggled(s))
  {
    var s1 := s.(useA := !s.useA, responder := SnappingLow(s.useA));
    OneMove(s);
    assert StepResponder(s) == s1;
    SnapIsARun(s1);
    assert s1.TideOf(s.useA) == s.InUse();
    ReachesOn(s, s1, Toggled(s));
  }

  lemma PassesByIsARun(s: State)
    requires InBounds(s) && AllResidues(s.slots, s.modulus) && s.responder == Toggling(s.useA)
    ensures Reaches(s, PassedBy(s))
  {
    ToggleIsARun(s);
    DrainAndRecheck(Toggled(s));
    ReachesOn(s, Toggled(s), PassedBy(s));
  }

  /** A round that looks at tides that do not cover i leaves i as it is. */
  lemma RoundLeaves(s: State, i: nat)
    requires InBounds(s) && AllResidues(s.slots, s.modulus) && s.responder.Away? && s.check
    requires i < |s.slots| && !s.InUse().Covers(i)
    ensures Round(s).slots[i] == s.slots[i] && Round(s).responder.Away? && !Round(s).check
    ensures Round(s).requesters == s.requesters
  {
  }

  lemma PassedByKeepsResidues(s: State)
    requires InBounds(s) && AllResidues(s.slots, s.modulus)
    ensures AllResidues(PassedBy(s).slots, s.modulus)
  {
    forall j | 0 <= j < |s.slots| ensures Residues(PassedBy(s).slots[j], s.modulus) {
      BacklogIsDistance(s.slots[j], s.modulus);
    }
  }

  /** The retired tides marked, the next round empties them. */
  lemma MarkedTooLate(s: State, t: nat, i: nat) returns (sched: seq<Action>)
    requires InBounds(s) && AllResidues(s.slots, s.modulus) && s.responder.Away? && i < |s.slots|
    requires t < |s.requesters| && s.requesters[t].InWindow() && s.requesters[t].a != s.useA
    requires forall u :: 0 <= u < |s.requesters| && u != t ==> s.requesters[u].Resting?
    requires !s.InUse().Covers(i)
    ensures NoNewRequests(sched) && Quiet(Run(s, sched)) && Run(s, sched).slots[i] == s.slots[i]
  {
    var mark := MarkIsARun(s, t);
    var s1 := Run(s, mark);
    assert s1.InUse() == s.InUse();
    RoundLeaves(s1, i);
    var k := RoundIsARun(s1);
    RunAppend(s, mark, [Check] + Moves(k));
    sched := mark + ([Check] + Moves(k));
  }

  /** The round passes by, and requester t is too late for it. */
  lemma UncoveredIsLost(s: State, t: nat, i: nat) returns (sched: seq<Action>)
    requires TogglingUnder(s, t, i) && !s.tideA.Covers(i) && !s.tideB.Covers(i)
    ensures NoNewRequests(sched) && Quiet(Run(s, sched)) && Run(s, sched).slots[i] == s.slots[i]
  {
    PassesByIsARun(s);
    var s1 := PassedBy(s);
    var n: nat :| Run(s, Moves(n)) == s1;
    PassedByKeepsResidues(s);
    var rest := MarkedTooLate(s1, t, i);
    RunAppend(s, Moves(n), rest);
    sched := Moves(n) + rest;
  }

  ghost predicate NobodyCounts(s: State) {
    forall u :: 0 <= u < |s.requesters| ==> !s.requesters[u].Adding?
  }

  lemma NobodyCountsStill(s: State, t: nat)
    requires InBounds(s) && NobodyCounts(s) && t < |s.requesters|
    ensures NobodyCounts(StepRequester(s, t)) && StepRequester(s, t).slots == s.slots
  {
    var s' := StepRequester(s, t);
    NoCountingStep(s, t);
    forall u | 0 <= u < |s'.requesters| ensures !s'.requesters[u].Adding? {
      if u != t { OthersStay(s, t, u); }
    }
  }

  lemma NoCountingStep(s: State, t: nat)
    requires InBounds(s) && t < |s.requesters| && !s.requesters[t].Adding?
    ensures !StepRequester(s, t).requesters[t].Adding? && StepRequester(s, t).slots == s.slots
  {
    NoCountingMark(s, t);
  }

  lemma NoCountingMark(s: State, t: nat)
    requires InBounds(s) && t < |s.requesters| && !s.requesters[t].Adding?
    ensures !StepMark(s, t).requesters[t].Adding? && StepMark(s, t).slots == s.slots
  {
  }

  /** Nobody is about to count a request, and i is caught, or will be by the toggle that comes next:
      the idle side covers i, and the flag is raised or still to be by a requester for i. */
  ghost predicate Sure(s: State, i: nat) {
    && i < |s.slots| && i < s.limit && NobodyCounts(s) && ResponderKnowsUse(s)
    && (Caught(s, i) || (s.responder.Toggling? && s.TideOf(!s.useA).Covers(i) && (s.check || Flagging(s, i))))
  }

  lemma SureRequest(s: State, t: nat, i: nat)
    requires InBounds(s) && Sure(s, i) && t < |s.requesters|
    ensures Sure(StepRequester(s, t), i)
  {
    NobodyCountsStill(s, t);
    RequesterWidens(s, t);
    if Caught(s, i) { CaughtRequest(s, t, i); } else { FlaggingStays(s, t, i); }
  }

  lemma SureResponder(s: State, i: nat)
    requires InBounds(s) && Sure(s, i)
    ensures Sure(StepResponder(s), i)
  {
    var s' := StepResponder(s);
    assert s'.limit == s.limit;
    if !Caught(s, i) {
      if Flagging(s, i) { FlaggersStay(s, s', i); }
    } else if s.responder.ScansNext() {
      CaughtScan(s, i);
    } else {
      CaughtFlip(s, i);
    }
  }

  lemma SureCheck(s: State, i: nat)
    requires InBounds(s) && Sure(s, i)
    ensures Sure(Step(s, Check), i)
  {
    if Flagging(s, i) { FlaggersStay(s, Step(s, Check), i); }
  }

  lemma {:induction false} SureRun(s: State, sched: seq<Action>, i: nat)
    requires InBounds(s) && Sure(s, i) && NoNewRequests(sched)
    ensures Sure(Run(s, sched), i)
  {
    if sched != [] {
      var n := |sched| - 1;
      SureRun(s, sched[..n], i);
      var s', act := Run(s, sched[..n]), sched[n];
      match act
      case Request(t) => if t < |s'.requesters| { SureRequest(s', t, i); }
      case Respond => SureResponder(s', i);
      case Check => SureCheck(s', i);
      case Begin(_, _) => assert false;
    }
  }

  /** Nothing that is sure stays unanswered. */
  lemma SureIsAnswered(s: State, sched: seq<Action>, i: nat)
    requires InBounds(s) && Sure(s, i) && NoNewRequests(sched) && Quiet(Run(s, sched))
    ensures Run(s, sched).slots[i].Settled()
  {
    SureRun(s, sched, i);
  }

  /** The other half of NoLostSignal, all else being at rest: a toggle inside a window loses the
      request if and only if it comes too early, neither side covering the index. */
  lemma ToggleLosesExactly(s: State, t: nat, i: nat)
    requires TogglingUnder(s, t, i)
    ensures TogglesTooEarly(s, Respond, i) <==> !s.tideA.Covers(i) && !s.tideB.Covers(i)
    ensures CanBeLost(s, i) <==> TogglesTooEarly(s, Respond, i)
  {
    if s.tideA.Covers(i) || s.tideB.Covers(i) {
      assert WillFlag(s.requesters[t], i);
      forall sched | NoNewRequests(sched) && Quiet(Run(s, sched)) ensures Run(s, sched).slots[i].Settled() {
        SureIsAnswered(s, sched, i);
      }
    } else {
      var sched := UncoveredIsLost(s, t, i);
      assert !Run(s, sched).slots[i].Settled();
    }
  }

  lemma {:induction false} RequestsDisturbNothing(s: State, sched: seq<Action>, t: nat, i: int)
    requires InBounds(s) && OnlyOf(t, sched)
    ensures UndisturbedFor(s, sched, i)
  {
    if sched != [] { RequestsDisturbNothing(s, sched[..|sched| - 1], t, i); }
  }

  /** The responder alone, while every requester rests. */
  lemma {:induction false} RoundsDisturbNothing(s: State, sched: seq<Action>, i: int)
    requires InBounds(s) && AllRest(s)
    requires forall k :: 0 <= k < |sched| ==> sched[k].Check? || sched[k].Respond?
    ensures UndisturbedFor(s, sched, i) && Run(s, sched).requesters == s.requesters
  {
    if sched != [] { RoundsDisturbNothing(s, sched[..|sched| - 1], i); }
  }

  lemma {:induction false} UndisturbedAppend(s: State, first: seq<Action>, second: seq<Action>, i: int)
    requires InBounds(s) && UndisturbedFor(s, first, i) && UndisturbedFor(Run(s, first), second, i)
    ensures UndisturbedFor(s, first + second, i)
  {
    if second == [] {
      assert first + second == first;
    } else {
      var before := second[..|second| - 1];
      UndisturbedAppend(s, first, before, i);
      RunAppend(s, first, before);
      assert (first + second)[..|first + second| - 1] == first + before;
    }
  }

  function Piled(slot: Slot, n: nat, m: Modulus): Slot {
    if n == 0 then slot else Piled(slot, n - 1, m).Request(m)
  }

  lemma {:induction false} PiledUp(n: nat, m: Modulus)
    ensures Piled(ZERO_SLOT, n, m) == Slot(n % m, 0, n, 0, 0)
  {
    if n == 0 {
      DivisionUnique(0, m, 0, 0);
    } else {
      PiledUp(n - 1, m);
      NextResidue(n - 1, m);
    }
  }

  /** n whole requests for i, one after the other. */
  lemma {:induction false} Pile(s: State, i: nat, n: nat) returns (sched: seq<Action>)
    requires InBounds(s) && i < |s.slots| && |s.requesters| == 1 && AllRest(s)
    ensures OnlyOf(0, sched)
    ensures var s' := Run(s, sched);
            && s'.slots == s.slots[i := Piled(s.slots[i], n, s.modulus)]
            && s'.requesters == s.requesters && s'.responder == s.responder && s'.modulus == s.modulus
  {
    if n == 0 {
      sched := [];
    } else {
      var first := Pile(s, i, n - 1);
      var s1 := Run(s, first);
      var last := RequestIsARun(s1, 0, i);
      assert Run(s, first + last) == Requested(s1, i) by { RunAppend(s, first, last); }
      sched := first + last;
    }
  }

  /** A full period of requests between two rounds looks like none: no toggle is ever inside a
      window and nothing is pending by the counters, but every one of the m signals is missing. */
  lemma FullPeriodVanishes(size: nat, limit: int, m: Modulus, i: nat) returns (sched: seq<Action>)
    requires size <= MAX_TIDE && i < size && i < limit
    ensures UndisturbedFor(Start(size, limit, m, 1), sched, i) && CleanFor(Start(size, limit, m, 1), sched, i)
    ensures var s := Run(Start(size, limit, m, 1), sched);
            && s.responder.Away? && AllRest(s) && !s.check
            && s.slots[i].Settled() && s.slots[i].made == m && s.slots[i].delivered == 0
  {
    var s := Start(size, limit, m, 1);
    StartIsSound(size, limit, m, 1);
    var pile := Pile(s, i, m);
    var s1 := Run(s, pile);
    assert Piled(ZERO_SLOT, m, m) == Slot(0, 0, m, 0, 0) by {
      PiledUp(m, m);
      DivisionUnique(m, m, 1, 0);
    }
    var more := RoundDeliversNothing(s1, i, m);
    RequestsDisturbNothing(s, pile, 0, i);
    UndisturbedAppend(s, pile, more, i);
    RunAppend(s, pile, more);
    sched := pile + more;
    UndisturbedIsClean(s, sched, i);
  }

  lemma RoundDeliversNothing(s: State, i: nat, m: Modulus) returns (sched: seq<Action>)
    requires InBounds(s) && i < |s.slots| && s.responder.Away? && AllRest(s) && s.modulus == m
    requires AllResidues(s.slots, m) && s.slots[i].Settled()
    ensures UndisturbedFor(s, sched, i)
    ensures var s' := Run(s, sched);
            s'.responder.Away? && AllRest(s') && !s'.check && s'.slots[i] == s.slots[i]
  {
    var n := RoundIsARun(s);
    sched := [Check] + Moves(n);
    RoundsDisturbNothing(s, sched, i);
  }
}
