/**
 No signal is lost. The claims are about one index i below externalSemaphoreTableSize and about
 every schedule in which no toggle of useTideA comes too early for i: while a requester for i stands
 between reading useTideA and its last compare-and-swap on the side in use, and neither side covers
 i yet.
 */
module SignalDelivery {
  import opened SignalProtocol
  import opened SignalTides

  /** A requester for i whose marks, once completed, make the side in use cover i. */
  predicate Marks(s: State, r: Requester, i: int) {
    && (r.ReadingUse? || r.InWindow()) && r.i == i
    && (r.InWindow() ==> r.a == s.useA && (r.ReadingHigh? || r.SwappingHigh? ==> s.InUse().low <= i))
  }

  ghost predicate Marking(s: State, i: int) {
    exists t :: 0 <= t < |s.requesters| && Marks(s, s.requesters[t], i)
  }

  /** A requester for i that has read useTideA and is still to raise the flag. */
  predicate WillFlag(r: Requester, i: int) { (r.InWindow() || r.RaisingFlag?) && r.i == i }

  ghost predicate Flagging(s: State, i: int) {
    exists t :: 0 <= t < |s.requesters| && WillFlag(s.requesters[t], i)
  }

  /** The responder's current round is going to answer i. */
  predicate Snapped(s: State, i: int) {
    match s.responder
    case SnappingLow(a) => s.TideOf(a).Covers(i)
    case SnappingHigh(a, low) => low <= i <= s.TideOf(a).high
    case Scanning(j, high) => j <= i <= high
    case Signalling(j, high) => j <= i <= high
    case Responding(j, high) => j <= i <= high
    case _ => false
  }

  /** Index i is answered, or going to be in this round, or in the tides in use with the flag raised,
      taken, or still to be raised by a requester for i. */
  ghost predicate Caught(s: State, i: nat)
    requires i < |s.slots|
  {
    || s.slots[i].Settled()
    || Snapped(s, i)
    || (s.InUse().Covers(i) && (s.check || s.responder.BeforeToggle() || Flagging(s, i)))
  }

  /** An unanswered request for i is always on its way to the responder. */
  ghost predicate OnItsWay(s: State, i: nat)
    requires i < |s.slots|
  {
    Marking(s, i) || Caught(s, i)
  }

  predicate ResponderKnowsUse(s: State) {
    s.responder.ResettingLow? || s.responder.ResettingHigh? || s.responder.Toggling? ==>
      s.responder.a == s.useA
  }

  ghost predicate Delivering(s: State, i: nat) {
    i < |s.slots| && i < s.limit && ResponderKnowsUse(s) && OnItsWay(s, i)
  }

  /** The schedule's restriction, for one step: i is not answered, a requester for i is in its window
      on the side in use, neither side covers i, and useTideA is toggled. */
  ghost predicate TogglesTooEarly(s: State, act: Action, i: int) {
    && act == Respond && s.responder.Toggling?
    && 0 <= i < |s.slots| && !s.slots[i].Settled()
    && !s.tideA.Covers(i) && !s.tideB.Covers(i)
    && exists t :: 0 <= t < |s.requesters| && s.requesters[t].InWindow()
                   && s.requesters[t].i == i && s.requesters[t].a == s.useA
  }

  ghost predicate CleanFor(s: State, sched: seq<Action>, i: int)
    requires InBounds(s)
  {
    sched == [] ||
    (var before := sched[..|sched| - 1];
     CleanFor(s, before, i) && !TogglesTooEarly(Run(s, before), sched[|sched| - 1], i))
  }

  /** A toggle while a requester for i is in its window on any side, whatever the marks. */
  ghost predicate TogglesInWindow(s: State, act: Action, i: int) {
    && act == Respond && s.responder.Toggling?
    && exists t :: 0 <= t < |s.requesters| && s.requesters[t].InWindow() && s.requesters[t].i == i
  }

  /** No window for i is disturbed at all. */
  ghost predicate UndisturbedFor(s: State, sched: seq<Action>, i: int)
    requires InBounds(s)
  {
    sched == [] ||
    (var before := sched[..|sched| - 1];
     UndisturbedFor(s, before, i) && !TogglesInWindow(Run(s, before), sched[|sched| - 1], i))
  }

  lemma {:induction false} UndisturbedIsClean(s: State, sched: seq<Action>, i: int)
    requires InBounds(s) && UndisturbedFor(s, sched, i)
    ensures CleanFor(s, sched, i)
  {
    if sched != [] { UndisturbedIsClean(s, sched[..|sched| - 1], i); }
  }

  // ---------------------------------------------------------------- steps of the requesters

  /** What a requester's step may do to anything but its own place and its own slot. */
  predicate Widens(s: State, s': State) {
    && s'.responder == s.responder && s'.limit == s.limit && s'.useA == s.useA
    && (s.check ==> s'.check)
    && Wider(s.tideA, s'.tideA) && Wider(s.tideB, s'.tideB)
  }

  lemma RequesterWidens(s: State, t: nat)
    requires InBounds(s) && t < |s.requesters|
    ensures Widens(s, StepRequester(s, t))
  {
    RequesterOnlyWidens(s, t, true);
    RequesterOnlyWidens(s, t, false);
  }

  lemma SnappedStays(s: State, s': State, i: int)
    requires Widens(s, s') && Snapped(s, i)
    ensures Snapped(s', i)
  {
  }

  /** A requester's own step keeps its marks, or completes them. */
  lemma OwnMarks(s: State, t: nat, i: int)
    requires InBounds(s) && t < |s.requesters| && Marks(s, s.requesters[t], i)
    ensures var s' := StepRequester(s, t);
            Marks(s', s'.requesters[t], i) || (s'.InUse().Covers(i) && WillFlag(s'.requesters[t], i))
  {
    if s.requesters[t].InWindow() { OwnMarksInWindow(s, t, i); }
  }

  lemma OwnMarksInWindow(s: State, t: nat, i: int)
    requires InBounds(s) && t < |s.requesters| && Marks(s, s.requesters[t], i) && s.requesters[t].InWindow()
    ensures var s' := StepMark(s, t);
            Marks(s', s'.requesters[t], i) || (s'.InUse().Covers(i) && WillFlag(s'.requesters[t], i))
  {
  }

  lemma OwnFlag(s: State, t: nat, i: int)
    requires InBounds(s) && t < |s.requesters| && WillFlag(s.requesters[t], i)
    ensures var s' := StepRequester(s, t); s'.check || WillFlag(s'.requesters[t], i)
  {
    if s.requesters[t].InWindow() { OwnFlagInWindow(s, t, i); }
  }

  lemma OwnFlagInWindow(s: State, t: nat, i: int)
    requires InBounds(s) && t < |s.requesters| && WillFlag(s.requesters[t], i) && s.requesters[t].InWindow()
    ensures WillFlag(StepMark(s, t).requesters[t], i)
  {
  }

  /** Whoever is to raise the flag does so or is still to. */
  lemma FlaggingStays(s: State, t: nat, i: int)
    requires InBounds(s) && t < |s.requesters| && (s.check || Flagging(s, i))
    ensures StepRequester(s, t).check || Flagging(StepRequester(s, t), i)
  {
    var s' := StepRequester(s, t);
    RequesterWidens(s, t);
    if !s.check {
      var u :| 0 <= u < |s.requesters| && WillFlag(s.requesters[u], i);
      if u == t { OwnFlag(s, t, i); } else { OthersStay(s, t, u); }
      assert s'.check || WillFlag(s'.requesters[u], i);
    }
  }

  lemma CoverStays(s: State, s': State, i: int)
    requires Widens(s, s') && s.InUse().Covers(i)
    ensures s'.InUse().Covers(i)
  {
  }

  /** Only counting a request can undo what is caught. */
  lemma CaughtRequest(s: State, t: nat, i: nat)
    requires InBounds(s) && i < |s.slots| && t < |s.requesters| && Caught(s, i)
    requires s.requesters[t].Adding? ==> s.requesters[t].i != i
    ensures Caught(StepRequester(s, t), i)
  {
    var s' := StepRequester(s, t);
    RequesterWidens(s, t);
    if s.slots[i].Settled() {
      assert s'.slots[i] == s.slots[i];
    } else if Snapped(s, i) {
      SnappedStays(s, s', i);
    } else {
      CoverStays(s, s', i);
      if !s.responder.BeforeToggle() { FlaggingStays(s, t, i); }
    }
  }

  lemma MarkingRequest(s: State, t: nat, i: nat)
    requires InBounds(s) && i < |s.slots| && t < |s.requesters| && Marking(s, i)
    ensures OnItsWay(StepRequester(s, t), i)
  {
    var s' := StepRequester(s, t);
    RequesterWidens(s, t);
    var u :| 0 <= u < |s.requesters| && Marks(s, s.requesters[u], i);
    if u == t {
      OwnMarks(s, t, i);
      if !Marks(s', s'.requesters[t], i) { assert Flagging(s', i); }
    } else {
      OthersStay(s, t, u);
      assert Marks(s', s'.requesters[u], i);
    }
  }

  lemma DeliveringRequest(s: State, t: nat, i: nat)
    requires InBounds(s) && Delivering(s, i) && t < |s.requesters|
    ensures Delivering(StepRequester(s, t), i)
  {
    var s' := StepRequester(s, t);
    RequesterWidens(s, t);
    if Marking(s, i) {
      MarkingRequest(s, t, i);
    } else if s.requesters[t] == Adding(i) {
      assert Marks(s', s'.requesters[t], i);
    } else {
      CaughtRequest(s, t, i);
    }
  }

  // ---------------------------------------------------------------- steps of the responder

  /** A step of the responder leaves every requester where it is. */
  lemma FlaggersStay(s: State, s': State, i: int)
    requires s'.requesters == s.requesters && Flagging(s, i)
    ensures Flagging(s', i)
  {
  }

  /** No flip undoes what is caught: a toggle takes the tides in use, and they are being snapped. */
  lemma CaughtFlip(s: State, i: nat)
    requires InBounds(s) && i < |s.slots| && ResponderKnowsUse(s) && Caught(s, i) && !s.responder.ScansNext()
    ensures Caught(StepFlip(s), i) && ResponderKnowsUse(StepFlip(s))
  {
    var s' := StepFlip(s);
    assert s'.slots == s.slots;
    if !s.slots[i].Settled() && !s.responder.SnappingLow? {
      assert s.InUse().Covers(i);
      if s.responder.Toggling? {
        assert s'.responder == SnappingLow(s.useA);
      } else if Flagging(s, i) {
        FlaggersStay(s, s', i);
      }
    }
  }

  lemma CaughtScan(s: State, i: nat)
    requires InBounds(s) && i < |s.slots| && i < s.limit && Caught(s, i) && s.responder.ScansNext()
    ensures Caught(StepScan(s), i) && ResponderKnowsUse(StepScan(s))
  {
    var s' := StepScan(s);
    assert s'.useA == s.useA && s'.tideA == s.tideA && s'.tideB == s.tideB && s'.check == s.check;
    if Flagging(s, i) { FlaggersStay(s, s', i); }
  }

  lemma MarkingFlip(s: State, i: nat)
    requires InBounds(s) && i < |s.slots| && ResponderKnowsUse(s) && Marking(s, i) && !s.responder.ScansNext()
    requires !TogglesTooEarly(s, Respond, i)
    ensures OnItsWay(StepFlip(s), i) && ResponderKnowsUse(StepFlip(s))
  {
    var s' := StepFlip(s);
    var t :| 0 <= t < |s.requesters| && Marks(s, s.requesters[t], i);
    if s.responder.Toggling? && s.requesters[t].InWindow() && !s.slots[i].Settled() {
      assert s'.responder == SnappingLow(s.useA);
      assert WillFlag(s'.requesters[t], i);
    } else {
      assert s'.slots == s.slots;
      assert s.slots[i].Settled() || Marks(s', s'.requesters[t], i);
    }
  }

  lemma DeliveringResponder(s: State, i: nat)
    requires InBounds(s) && Delivering(s, i) && !TogglesTooEarly(s, Respond, i)
    ensures Delivering(StepResponder(s), i)
  {
    var s' := StepResponder(s);
    assert s'.limit == s.limit;
    if s.responder.ScansNext() {
      if t :| 0 <= t < |s.requesters| && Marks(s, s.requesters[t], i) {
        assert s'.useA == s.useA && s'.InUse() == s.InUse() && Marks(s', s'.requesters[t], i);
      } else {
        CaughtScan(s, i);
      }
    } else if Marking(s, i) {
      MarkingFlip(s, i);
    } else {
      CaughtFlip(s, i);
    }
  }

  lemma DeliveringBegin(s: State, t: nat, index: int, i: nat)
    requires InBounds(s) && Delivering(s, i)
    ensures Delivering(Step(s, Begin(t, index)), i)
  {
    var s' := Step(s, Begin(t, index));
    if u :| 0 <= u < |s.requesters| && Marks(s, s.requesters[u], i) {
      assert Marks(s', s'.requesters[u], i);
    } else if u :| 0 <= u < |s.requesters| && WillFlag(s.requesters[u], i) {
      assert WillFlag(s'.requesters[u], i);
    }
  }

  lemma DeliveringStep(s: State, act: Action, i: nat)
    requires InBounds(s) && Delivering(s, i) && !TogglesTooEarly(s, act, i)
    ensures Delivering(Step(s, act), i)
  {
    match act
    case Begin(t, index) => DeliveringBegin(s, t, index, i);
    case Request(t) => if t < |s.requesters| { DeliveringRequest(s, t, i); }
    case Check =>
      var s' := Step(s, act);
      assert forall u :: 0 <= u < |s.requesters| && Marks(s, s.requesters[u], i) ==> Marks(s', s'.requesters[u], i);
      if Flagging(s, i) { FlaggersStay(s, s', i); }
    case Respond => DeliveringResponder(s, i);
  }

  lemma {:induction false} DeliveringRun(s: State, sched: seq<Action>, i: nat)
    requires InBounds(s) && Delivering(s, i) && CleanFor(s, sched, i)
    ensures Delivering(Run(s, sched), i)
  {
    if sched != [] {
      var before := sched[..|sched| - 1];
      DeliveringRun(s, before, i);
      DeliveringStep(Run(s, before), sched[|sched| - 1], i);
    }
  }

  /** A raised flag is never forgotten: an interrupt check is due, or somebody is still to force one,
      or the responder has yet to look. */
  ghost predicate WillLook(s: State) {
    s.check ==>
      || s.forced
      || !s.responder.Away?
      || exists t :: 0 <= t < |s.requesters| && s.requesters[t].Forcing?
  }

  lemma WillLookStep(s: State, act: Action)
    requires InBounds(s) && WillLook(s)
    ensures WillLook(Step(s, act))
  {
    var s' := Step(s, act);
    match act
    case Request(t) =>
      if t < |s.requesters| {
        if s.requesters[t].RaisingFlag? { assert s'.requesters[t].Forcing?; }
        if u :| 0 <= u < |s.requesters| && s.requesters[u].Forcing? && u != t {
          OthersStay(s, t, u);
          assert s'.requesters[u].Forcing?;
        }
      }
    case Begin(t, _) =>
      if u :| 0 <= u < |s.requesters| && s.requesters[u].Forcing? {
        assert s'.requesters[u].Forcing?;
      }
    case _ => assert s'.requesters == s.requesters;
  }

  lemma {:induction false} WillLookRun(s: State, sched: seq<Action>)
    requires InBounds(s) && WillLook(s)
    ensures WillLook(Run(s, sched))
  {
    if sched != [] {
      var before := sched[..|sched| - 1];
      WillLookRun(s, before);
      WillLookStep(Run(s, before), sched[|sched| - 1]);
    }
  }

  /** No lost signal, concurrent setting: after any schedule that is clean for i, an unanswered
      request for i is in flight or on its way, and if nobody is between counting and forcing,
      then either the responder is at work or an interrupt check is due, or i is answered. */
  lemma NoLostSignal(size: nat, limit: int, m: Modulus, requesters: nat, sched: seq<Action>, i: nat)
    requires size <= MAX_TIDE && i < size && i < limit
    requires CleanFor(Start(size, limit, m, requesters), sched, i)
    ensures var s := Run(Start(size, limit, m, requesters), sched);
            && OnItsWay(s, i)
            && ((forall t :: 0 <= t < |s.requesters| ==>
                   !s.requesters[t].Forcing? && (s.requesters[t].InFlight() ==> s.requesters[t].i != i)) ==>
                s.slots[i].Settled() || s.forced || !s.responder.Away?)
  {
    var s0 := Start(size, limit, m, requesters);
    DeliveringRun(s0, sched, i);
    WillLookRun(s0, sched);
  }

  /** The interrupt setting: whole requests run between two statements of the responder, so the
      responder moves only while every requester rests. */
  ghost predicate WholeRequests(s: State, sched: seq<Action>)
    requires InBounds(s)
  {
    sched == [] ||
    (var before, act := sched[..|sched| - 1], sched[|sched| - 1];
     && WholeRequests(s, before)
     && (act.Check? || act.Respond? ==> AllRest(Run(s, before))))
  }

  ghost predicate AllRest(s: State) {
    forall t :: 0 <= t < |s.requesters| ==> s.requesters[t].Resting?
  }

  lemma {:induction false} WholeRequestsAreClean(s: State, sched: seq<Action>, i: int)
    requires InBounds(s) && WholeRequests(s, sched)
    ensures UndisturbedFor(s, sched, i) && CleanFor(s, sched, i)
  {
    if sched != [] {
      WholeRequestsAreClean(s, sched[..|sched| - 1], i);
    }
  }

  /** No lost signal, interrupt setting: whenever no request is half done, every index with
      unequal counters is in the tides in use with the flag raised or due to be taken this round,
      or in the part of the snapshot not yet passed. An idle responder with a clear flag, or with
      no interrupt check due, therefore means that every request is answered. */
  lemma NoLostSignalUnderInterrupts(
    size: nat, limit: int, m: Modulus, requesters: nat, sched: seq<Action>, i: nat)
    requires size <= MAX_TIDE && i < size && i < limit
    requires WholeRequests(Start(size, limit, m, requesters), sched)
    requires AllRest(Run(Start(size, limit, m, requesters), sched))
    ensures var s := Run(Start(size, limit, m, requesters), sched);
            && (!s.slots[i].Settled() ==>
                  || Snapped(s, i)
                  || (s.InUse().Covers(i) && (s.check || s.responder.BeforeToggle())))
            && (s.responder.Away? && (!s.check || !s.forced) ==> s.slots[i].Settled())
  {
    WholeRequestsAreClean(Start(size, limit, m, requesters), sched, i);
    NoLostSignal(size, limit, m, requesters, sched, i);
  }
}
